/** `tokenize_text` in its two versions. The external segmenter
    (`jieba.cut` / `jieba.lcut`) is a function parameter `seg`; where a
    property needs it, the segmenter is required to return pieces that
    concatenate back to its input. */
module Tokenizer {
  import opened Seqs
  import opened Strings
  import opened PhraseSplit

  /** ---------------- emoji_core.py ---------------- */

  /** `''.join(c for c in text if valid_pattern.match(c))`
      (emoji_core.py:172-173). */
  function Clean(text: string): (r: string)
    ensures |r| <= |text|
    ensures forall i :: 0 <= i < |r| ==> IsTokenChar(r[i])
    decreases |text|
  {
    if text == [] then []
    else
      var c := text[|text| - 1];
      Clean(text[..|text| - 1]) + (if IsTokenChar(c) then [c] else [])
  }

  /** Cleaning leaves nothing exactly when no character is valid. */
  lemma {:induction false} CleanEmpty(text: string)
    ensures Clean(text) == [] <==> forall i :: 0 <= i < |text| ==> !IsTokenChar(text[i])
    decreases |text|
  {
    if text != [] {
      var t := text[..|text| - 1];
      CleanEmpty(t);
      assert forall i :: 0 <= i < |t| ==> t[i] == text[i];
    }
  }

  /** A text made only of valid characters is left as it is. */
  lemma {:induction false} CleanValid(text: string)
    requires forall i :: 0 <= i < |text| ==> IsTokenChar(text[i])
    ensures Clean(text) == text
    decreases |text|
  {
    if text != [] {
      CleanValid(text[..|text| - 1]);
    }
  }

  /** A whole segmenter token kept as it is (emoji_core.py:183-186). */
  predicate Priority(t: string, two: set<string>, three: set<string>)
  {
    (|t| == 2 && t in two) || (|t| == 3 && t in three)
  }

  /** What one segmenter token contributes to the result. */
  function Pieces(t: string, two: set<string>, three: set<string>): seq<string>
  {
    if Priority(t, two, three) then [t] else Split(t, two, three)
  }

  /** The loop of emoji_core.py:180-192 over the segmenter's tokens. */
  function Resegment(ts: seq<string>, two: set<string>, three: set<string>): (r: seq<string>)
  {
    FlatMap(ts, t => Pieces(t, two, three))
  }

  /** The result of `tokenize_text(text)` for the segmenter `seg`. */
  function Tokenize(text: string, two: set<string>, three: set<string>, seg: string -> seq<string>): seq<string>
  {
    if Clean(text) == [] then [] else Resegment(seg(Clean(text)), two, three)
  }

  /** `tokenize_text` of emoji_core.py:162-194. */
  method TokenizeText(text: string, two: set<string>, three: set<string>, seg: string -> seq<string>)
    returns (r: seq<string>)
    ensures r == Tokenize(text, two, three, seg)
  {
    if text == [] {
      return [];
    }
    var cleaned := Clean(text);
    if cleaned == [] {
      return [];
    }
    var tokens := seg(cleaned);
    r := [];
    var i := 0;
    while i < |tokens|
      invariant 0 <= i <= |tokens|
      invariant r == Resegment(tokens[..i], two, three)
    {
      var token := tokens[i];
      assert tokens[..i + 1][..i] == tokens[..i];
      if |token| == 2 && token in two {
        r := r + [token];
      } else if |token| == 3 && token in three {
        r := r + [token];
      } else {
        var parts := SplitTokenRecursively(token, two, three);
        r := r + parts;
      }
      i := i + 1;
    }
    assert tokens[..i] == tokens;
  }

  /** The empty text, and a text without a valid character, give `[]`. */
  lemma TokenizeEmpty(text: string, two: set<string>, three: set<string>, seg: string -> seq<string>)
    requires forall i :: 0 <= i < |text| ==> !IsTokenChar(text[i])
    ensures Tokenize(text, two, three, seg) == []
  {
    CleanEmpty(text);
  }

  lemma ResegmentSnoc(ts: seq<string>, t: string, two: set<string>, three: set<string>)
    ensures Resegment(ts + [t], two, three) == Resegment(ts, two, three) + Pieces(t, two, three)
  {
    FlatMapSnoc(ts, t, t => Pieces(t, two, three));
  }

  lemma ResegmentAppend(a: seq<string>, b: seq<string>, two: set<string>, three: set<string>)
    ensures Resegment(a + b, two, three) == Resegment(a, two, three) + Resegment(b, two, three)
  {
    FlatMapAppend(a, b, t => Pieces(t, two, three));
  }

  lemma PiecesFlatten(t: string, two: set<string>, three: set<string>)
    ensures Flatten(Pieces(t, two, three)) == t
  {
    if Priority(t, two, three) {
      FlattenOne(t);
    } else {
      SplitFlatten(t, two, three);
    }
  }

  /** Re-splitting never changes the text the tokens spell. */
  lemma {:induction false} ResegmentFlatten(ts: seq<string>, two: set<string>, three: set<string>)
    ensures Flatten(Resegment(ts, two, three)) == Flatten(ts)
    decreases |ts|
  {
    if ts != [] {
      var ts' := ts[..|ts| - 1];
      ResegmentFlatten(ts', two, three);
      FlattenAppend(Resegment(ts', two, three), Pieces(ts[|ts| - 1], two, three));
      PiecesFlatten(ts[|ts| - 1], two, three);
    }
  }

  /** With a segmenter whose tokens concatenate back to its input, the final
      tokens concatenate to the cleaned text. */
  lemma TokenizeFlatten(text: string, two: set<string>, three: set<string>, seg: string -> seq<string>)
    requires Flatten(seg(Clean(text))) == Clean(text)
    ensures Flatten(Tokenize(text, two, three, seg)) == Clean(text)
  {
    ResegmentFlatten(seg(Clean(text)), two, three);
  }

  /** Every final token is a single character or a priority phrase of its
      length. */
  lemma {:induction false} ResegmentPieces(ts: seq<string>, two: set<string>, three: set<string>)
    ensures forall k :: 0 <= k < |Resegment(ts, two, three)| ==> Piece(Resegment(ts, two, three)[k], two, three)
    decreases |ts|
  {
    if ts != [] {
      var ts' := ts[..|ts| - 1];
      ResegmentPieces(ts', two, three);
      SplitPieces(ts[|ts| - 1], two, three);
      assert ts == ts' + [ts[|ts| - 1]];
      ResegmentSnoc(ts', ts[|ts| - 1], two, three);
    }
  }

  /** A segmenter token that is itself a priority phrase is kept verbatim,
      in its place. */
  lemma PriorityKept(ts: seq<string>, i: nat, two: set<string>, three: set<string>)
    requires i < |ts| && Priority(ts[i], two, three)
    ensures Resegment(ts, two, three) ==
      Resegment(ts[..i], two, three) + [ts[i]] + Resegment(ts[i + 1..], two, three)
  {
    assert ts == ts[..i] + [ts[i]] + ts[i + 1..];
    ResegmentAppend(ts[..i] + [ts[i]], ts[i + 1..], two, three);
    ResegmentAppend(ts[..i], [ts[i]], two, three);
    assert [ts[i]][..0] == [];
  }

  /** ---------------- emoji_core_old.py ---------------- */

  /** `valid_pattern.search(word)`: the word holds a valid character. */
  predicate HasTokenChar(w: string)
  {
    exists i :: 0 <= i < |w| && IsTokenChar(w[i])
  }

  /** `[word.strip() for word in words if valid_pattern.search(word)]`. */
  function StripValid(ws: seq<string>): (r: seq<string>)
    ensures |r| <= |ws|
    decreases |ws|
  {
    if ws == [] then []
    else
      var w := ws[|ws| - 1];
      StripValid(ws[..|ws| - 1]) + (if HasTokenChar(w) then [Strip(w)] else [])
  }

  /** `tokenize_text` of emoji_core_old.py:157-175. */
  function TokenizeOld(text: string, seg: string -> seq<string>): (r: seq<string>)
  {
    if text == [] then [] else StripValid(seg(text))
  }

  /** The filter keeps the segmenter's order: it distributes over
      concatenation. */
  lemma {:induction false} StripValidAppend(a: seq<string>, b: seq<string>)
    ensures StripValid(a + b) == StripValid(a) + StripValid(b)
    decreases |b|
  {
    if b == [] {
      assert a + b == a;
    } else {
      var b' := b[..|b| - 1];
      assert (a + b)[..|a + b| - 1] == a + b';
      StripValidAppend(a, b');
    }
  }

  /** Stripping a word with a valid character keeps that character. */
  lemma StripKeepsTokenChar(w: string)
    requires HasTokenChar(w)
    ensures HasTokenChar(Strip(w))
  {
    var i :| 0 <= i < |w| && IsTokenChar(w[i]);
    TokenCharNotSpace(w[i]);
    var k := StripStart(w);
    var r := Strip(w);
    assert k <= i < k + |r|;
    assert r[i - k] == w[i];
  }

  /** Every word returned is stripped, holds a valid character and is the
      stripped form of one of the segmenter's words. */
  lemma {:induction false} StripValidWords(ws: seq<string>)
    ensures forall k :: 0 <= k < |StripValid(ws)| ==>
      Strip(StripValid(ws)[k]) == StripValid(ws)[k] && HasTokenChar(StripValid(ws)[k]) &&
      StripValid(ws)[k] in StripAll(ws)
    decreases |ws|
  {
    if ws != [] {
      var ws' := ws[..|ws| - 1];
      var w := ws[|ws| - 1];
      StripValidWords(ws');
      var r', all := StripValid(ws'), StripAll(ws);
      assert all == StripAll(ws') + [Strip(w)];
      var tail := if HasTokenChar(w) then [Strip(w)] else [];
      assert StripValid(ws) == r' + tail;
      if HasTokenChar(w) {
        StripIdempotent(w);
        StripKeepsTokenChar(w);
      }
      forall k | 0 <= k < |r' + tail|
        ensures Strip((r' + tail)[k]) == (r' + tail)[k] && HasTokenChar((r' + tail)[k]) && (r' + tail)[k] in all
      {
        if k < |r'| {
          assert (r' + tail)[k] == r'[k];
        } else {
          assert (r' + tail)[k] == Strip(w);
        }
      }
    }
  }

  /** `[w.strip() for w in ws]`. */
  function StripAll(ws: seq<string>): (r: seq<string>)
    ensures |r| == |ws| && forall k :: 0 <= k < |ws| ==> r[k] == Strip(ws[k])
  {
    seq(|ws|, k requires 0 <= k < |ws| => Strip(ws[k]))
  }

  /** When every word holds a valid character, none is dropped. */
  lemma {:induction false} StripValidAll(ws: seq<string>)
    requires forall k :: 0 <= k < |ws| ==> HasTokenChar(ws[k])
    ensures StripValid(ws) == StripAll(ws)
    decreases |ws|
  {
    if ws != [] {
      var ws' := ws[..|ws| - 1];
      StripValidAll(ws');
      assert StripAll(ws) == StripAll(ws') + [Strip(ws[|ws| - 1])];
    }
  }
}

/** `_split_token_recursively` of emoji_core.py:119-160: a token is cut
    around its best priority phrase (the longest, and among equal lengths the
    rightmost), the text to the left of it becomes single characters and the
    text to the right is split again. The two- and three-character phrase
    sets are inputs. */
module PhraseSplit {
  import opened Wrappers
  import opened Seqs

  /** The `len`-character substring starting at `j` is one of `phrases`. */
  predicate PhraseAt(s: string, phrases: set<string>, len: nat, j: int)
  {
    0 <= j && j + len <= |s| && s[j..j + len] in phrases
  }

  /** The rightmost start `j <= i` at which the `len`-character substring is
      a phrase, scanning `i, i - 1, ..., 0`. */
  function Scan(s: string, phrases: set<string>, len: nat, i: int): (r: Option<nat>)
    requires i + len <= |s|
    ensures r.Some? ==> r.value <= i && PhraseAt(s, phrases, len, r.value)
    ensures r.Some? ==> forall j :: r.value < j <= i ==> !PhraseAt(s, phrases, len, j)
    ensures r.None? ==> forall j :: j <= i ==> !PhraseAt(s, phrases, len, j)
    decreases i + 1
  {
    if i < 0 then None
    else if s[i..i + len] in phrases then Some(i)
    else Scan(s, phrases, len, i - 1)
  }

  /** A match: its start and its length. */
  datatype Match = Match(start: nat, len: nat)

  /** The best match: the rightmost three-character phrase, failing that the
      rightmost two-character one (emoji_core.py:133-146). */
  function BestMatch(s: string, two: set<string>, three: set<string>): (r: Option<Match>)
    ensures r.Some? ==> (r.value.len == 2 || r.value.len == 3) && r.value.start + r.value.len <= |s|
    ensures r.Some? && r.value.len == 3 ==> s[r.value.start..r.value.start + 3] in three
    ensures r.Some? && r.value.len == 2 ==> s[r.value.start..r.value.start + 2] in two
  {
    var m3 := Scan(s, three, 3, |s| - 3);
    if m3.Some? then Some(Match(m3.value, 3))
    else
      var m2 := Scan(s, two, 2, |s| - 2);
      if m2.Some? then Some(Match(m2.value, 2)) else None
  }

  /** The splitter's rule: a three-character phrase always wins, the
      chosen start is the rightmost of its length, a two-character phrase is
      chosen only when there is no three-character one, and there is no
      match exactly when there is no phrase of either length. */
  lemma BestMatchRule(s: string, two: set<string>, three: set<string>)
    ensures var r := BestMatch(s, two, three);
      (exists j :: PhraseAt(s, three, 3, j)) ==>
        r.Some? && r.value.len == 3 && forall j :: r.value.start < j ==> !PhraseAt(s, three, 3, j)
    ensures var r := BestMatch(s, two, three);
      (forall j :: !PhraseAt(s, three, 3, j)) && (exists j :: PhraseAt(s, two, 2, j)) ==>
        r.Some? && r.value.len == 2 && forall j :: r.value.start < j ==> !PhraseAt(s, two, 2, j)
    ensures BestMatch(s, two, three).None? <==>
      (forall j :: !PhraseAt(s, three, 3, j)) && (forall j :: !PhraseAt(s, two, 2, j))
  {
  }

  /** `list(s)`: each character as a one-character string. */
  function Chars(s: string): (r: seq<string>)
    ensures |r| == |s|
    ensures forall k :: 0 <= k < |s| ==> r[k] == [s[k]]
  {
    seq(|s|, k requires 0 <= k < |s| => [s[k]])
  }

  /** What `_split_token_recursively(s)` returns. */
  function Split(s: string, two: set<string>, three: set<string>): (r: seq<string>)
    ensures r == [] <==> s == []
    decreases |s|
  {
    if s == [] then []
    else
      var m := BestMatch(s, two, three);
      if m.Some? then
        Chars(s[..m.value.start]) + [s[m.value.start..m.value.start + m.value.len]] +
        Split(s[m.value.start + m.value.len..], two, three)
      else [[s[0]]] + Split(s[1..], two, three)
  }

  /** The search loops of emoji_core.py:133-146: lengths 3 then 2, starts
      right to left, stopping at the first phrase found. */
  method FindBestMatch(s: string, two: set<string>, three: set<string>) returns (best: Option<Match>)
    ensures best == BestMatch(s, two, three)
  {
    best := None;
    var length := 3;
    while length > 1
      invariant 1 <= length <= 3 && best.None?
      invariant length <= 2 ==> Scan(s, three, 3, |s| - 3).None?
      invariant length <= 1 ==> Scan(s, two, 2, |s| - 2).None?
      decreases length
    {
      var i := |s| - length;
      while i >= 0
        invariant i <= |s| - length && best.None?
        invariant Scan(s, if length == 3 then three else two, length, |s| - length) ==
                  Scan(s, if length == 3 then three else two, length, i)
        decreases i + 1
      {
        var sub := s[i..i + length];
        if (length == 3 && sub in three) || (length == 2 && sub in two) {
          best := Some(Match(i, length));
          break;
        }
        i := i - 1;
      }
      if best.Some? {
        break;
      }
      length := length - 1;
    }
  }

  /** `_split_token_recursively`: recursion on the strictly shorter right
      remainder (or the tail when no phrase occurs). */
  method SplitTokenRecursively(s: string, two: set<string>, three: set<string>) returns (r: seq<string>)
    ensures r == Split(s, two, three)
    decreases |s|
  {
    if s == [] {
      return [];
    }
    var best := FindBestMatch(s, two, three);
    if best.Some? {
      var i, n := best.value.start, best.value.len;
      var left := s[..i];
      var matched := s[i..i + n];
      var right := s[i + n..];
      var head: seq<string> := [];
      if left != [] {
        head := Chars(left);
      }
      var rest: seq<string> := [];
      if right != [] {
        rest := SplitTokenRecursively(right, two, three);
      }
      r := head + [matched] + rest;
      SplitAtMatch(s, two, three, i, n, head, rest, r);
    } else {
      var rest := SplitTokenRecursively(s[1..], two, three);
      r := [[s[0]]] + rest;
    }
  }

  /** The pieces of a token cut at its best match `Match(i, n)`, where `r`
      is what the recursive case has gathered. */
  lemma SplitAtMatch(s: string, two: set<string>, three: set<string>, i: nat, n: nat,
                     head: seq<string>, rest: seq<string>, r: seq<string>)
    requires s != [] && BestMatch(s, two, three) == Some(Match(i, n))
    requires head == Chars(s[..i]) && rest == Split(s[i + n..], two, three)
    requires r == head + [s[i..i + n]] + rest
    ensures r == Split(s, two, three)
  {
  }

  lemma {:induction false} FlattenChars(s: string)
    ensures Flatten(Chars(s)) == s
    decreases |s|
  {
    if s != [] {
      var s' := s[..|s| - 1];
      FlattenChars(s');
      assert Chars(s)[..|s| - 1] == Chars(s');
    }
  }

  lemma FlattenAround(left: string, mid: string, rest: seq<string>)
    ensures Flatten(Chars(left) + [mid] + rest) == left + mid + Flatten(rest)
  {
    FlattenAppend(Chars(left) + [mid], rest);
    FlattenAppend(Chars(left), [mid]);
    FlattenOne(mid);
    FlattenChars(left);
  }

  /** The pieces concatenate back to the token. */
  lemma {:induction false} SplitFlatten(s: string, two: set<string>, three: set<string>)
    ensures Flatten(Split(s, two, three)) == s
    decreases |s|
  {
    if s != [] {
      var m := BestMatch(s, two, three);
      if m.Some? {
        var i, n := m.value.start, m.value.len;
        SplitFlatten(s[i + n..], two, three);
        SplitFlattenMatch(s, two, three, i, n);
      } else {
        SplitFlatten(s[1..], two, three);
        SplitFlattenHead(s, two, three);
      }
    }
  }

  lemma SplitFlattenMatch(s: string, two: set<string>, three: set<string>, i: nat, n: nat)
    requires s != [] && BestMatch(s, two, three) == Some(Match(i, n))
    requires i + n <= |s| && Flatten(Split(s[i + n..], two, three)) == s[i + n..]
    ensures Flatten(Split(s, two, three)) == s
  {
    var left, mid, right := s[..i], s[i..i + n], s[i + n..];
    var rest := Split(right, two, three);
    assert Split(s, two, three) == Chars(left) + [mid] + rest;
    FlattenAround(left, mid, rest);
    Reassemble(s, i, i + n);
  }

  lemma Reassemble(s: string, i: nat, j: nat)
    requires i <= j <= |s|
    ensures s[..i] + s[i..j] + s[j..] == s
  {
  }

  lemma SplitFlattenHead(s: string, two: set<string>, three: set<string>)
    requires s != [] && BestMatch(s, two, three).None?
    requires Flatten(Split(s[1..], two, three)) == s[1..]
    ensures Flatten(Split(s, two, three)) == s
  {
    FlattenCons([s[0]], Split(s[1..], two, three));
    assert [s[0]] + s[1..] == s;
  }

  /** A piece is a single character, a two-character phrase or a
      three-character phrase. */
  predicate Piece(p: string, two: set<string>, three: set<string>)
  {
    |p| == 1 || (|p| == 2 && p in two) || (|p| == 3 && p in three)
  }

  lemma {:induction false} SplitPieces(s: string, two: set<string>, three: set<string>)
    ensures forall k :: 0 <= k < |Split(s, two, three)| ==> Piece(Split(s, two, three)[k], two, three)
    decreases |s|
  {
    if s != [] {
      var m := BestMatch(s, two, three);
      if m.Some? {
        SplitPieces(s[m.value.start + m.value.len..], two, three);
      } else {
        SplitPieces(s[1..], two, three);
      }
    }
  }

  /** When a three-character phrase occurs, the first phrase emitted is the
      rightmost one, preceded by the characters to its left; two-character
      phrases play no part in that choice. */
  lemma SplitRightmostThree(s: string, two: set<string>, three: set<string>, i: nat)
    requires PhraseAt(s, three, 3, i)
    requires forall j :: i < j ==> !PhraseAt(s, three, 3, j)
    ensures Split(s, two, three) == Chars(s[..i]) + [s[i..i + 3]] + Split(s[i + 3..], two, three)
  {
    var m3 := Scan(s, three, 3, |s| - 3);
    assert m3.Some?;
    assert m3.value == i;
  }

  /** When neither set has a substring of the token, it is split into its
      characters. */
  lemma {:induction false} SplitNoPhrase(s: string, two: set<string>, three: set<string>)
    requires forall j :: !PhraseAt(s, two, 2, j)
    requires forall j :: !PhraseAt(s, three, 3, j)
    ensures Split(s, two, three) == Chars(s)
    decreases |s|
  {
    if s != [] {
      var t := s[1..];
      forall j ensures !PhraseAt(t, two, 2, j) && !PhraseAt(t, three, 3, j) {
        assert !PhraseAt(s, two, 2, j + 1) && !PhraseAt(s, three, 3, j + 1);
        if 0 <= j && j + 2 <= |t| {
          assert t[j..j + 2] == s[j + 1..j + 3];
        }
        if 0 <= j && j + 3 <= |t| {
          assert t[j..j + 3] == s[j + 1..j + 4];
        }
      }
      SplitNoPhrase(t, two, three);
      assert Chars(s) == [[s[0]]] + Chars(t);
    }
  }
}

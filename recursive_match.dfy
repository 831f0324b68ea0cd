/** `find_emojis_recursive` of emoji_core_old.py:177-224: search the whole
    text; failing that, tokenize it (forcing single characters when the
    tokenizer gives the text back unchanged) and search each word one level
    deeper, up to a depth bound. The resolver and the tokenizer are function
    parameters. */
module RecursiveMatch {
  import opened Strings
  import opened PhraseSplit
  import opened Lexicon

  /** `(found, codes)`. */
  datatype Outcome = Outcome(found: bool, codes: seq<Code>)

  /** The words the fallback recurses on (emoji_core_old.py:200-210), or
      none when a single character cannot be split further. */
  function FallbackWords(t: string, tokenize: string -> seq<string>): seq<string>
  {
    var ws := tokenize(t);
    if |ws| == 1 && ws[0] == t then (if |t| == 1 then [] else Chars(t)) else ws
  }

  /** `find_emojis_recursive(text, depth, max_depth)`. */
  function Find(text: string, depth: int, maxDepth: int,
                search: string -> seq<Code>, tokenize: string -> seq<string>): (r: Outcome)
    ensures r.found <==> r.codes != []
    decreases if depth < maxDepth then maxDepth - depth else 0, 1, 0
  {
    if depth >= maxDepth then Outcome(false, [])
    else
      var t := Strip(text);
      if t == [] then Outcome(false, [])
      else if search(t) != [] then Outcome(true, search(t))
      else
        var all := Gather(FallbackWords(t, tokenize), depth + 1, maxDepth, search, tokenize);
        if all == [] then Outcome(false, []) else Outcome(true, all)
  }

  /** The codes that the recursive calls on `ws` found, concatenated in
      word order (emoji_core_old.py:213-217). */
  function Gather(ws: seq<string>, depth: int, maxDepth: int,
                  search: string -> seq<Code>, tokenize: string -> seq<string>): (r: seq<Code>)
    requires depth <= maxDepth
    decreases maxDepth - depth + 1, 0, |ws|
  {
    if ws == [] then []
    else
      var o := Find(ws[|ws| - 1], depth, maxDepth, search, tokenize);
      Gather(ws[..|ws| - 1], depth, maxDepth, search, tokenize) + (if o.found then o.codes else [])
  }

  /** The recursive function itself: the loop over the fallback words
      accumulates what each deeper call found. */
  method FindEmojisRecursive(text: string, depth: int, maxDepth: int,
                             search: string -> seq<Code>, tokenize: string -> seq<string>)
    returns (found: bool, emojis: seq<Code>)
    ensures Outcome(found, emojis) == Find(text, depth, maxDepth, search, tokenize)
    decreases if depth < maxDepth then maxDepth - depth else 0, 1
  {
    if depth >= maxDepth {
      return false, [];
    }
    var t := Strip(text);
    if t == [] {
      return false, [];
    }
    var direct := search(t);
    if direct != [] {
      return true, direct;
    }
    var words := tokenize(t);
    if |words| == 1 && words[0] == t {
      if |t| == 1 {
        return false, [];
      }
      words := Chars(t);
    }
    assert words == FallbackWords(t, tokenize);
    var all: seq<Code> := [];
    var i := 0;
    while i < |words|
      invariant 0 <= i <= |words|
      invariant all == Gather(words[..i], depth + 1, maxDepth, search, tokenize)
    {
      assert words[..i + 1][..i] == words[..i];
      var f, sub := FindEmojisRecursive(words[i], depth + 1, maxDepth, search, tokenize);
      if f {
        all := all + sub;
      }
      i := i + 1;
    }
    assert words[..i] == words;
    if all == [] {
      return false, [];
    }
    return true, all;
  }

  /** Past the depth bound, or on a blank text, nothing is found. */
  lemma FindGuards(text: string, depth: int, maxDepth: int,
                   search: string -> seq<Code>, tokenize: string -> seq<string>)
    requires depth >= maxDepth || Strip(text) == []
    ensures Find(text, depth, maxDepth, search, tokenize) == Outcome(false, [])
  {
  }

  /** A non-empty direct search result is returned unchanged. */
  lemma FindDirect(text: string, depth: int, maxDepth: int,
                   search: string -> seq<Code>, tokenize: string -> seq<string>)
    requires depth < maxDepth && Strip(text) != [] && search(Strip(text)) != []
    ensures Find(text, depth, maxDepth, search, tokenize) == Outcome(true, search(Strip(text)))
  {
  }

  /** A single character that the resolver misses, and that the tokenizer
      either gives back unchanged or drops, yields `(false, [])`. */
  lemma FindSingleChar(text: string, depth: int, maxDepth: int,
                       search: string -> seq<Code>, tokenize: string -> seq<string>)
    requires |Strip(text)| == 1 && search(Strip(text)) == []
    requires tokenize(Strip(text)) == [Strip(text)] || tokenize(Strip(text)) == []
    ensures Find(text, depth, maxDepth, search, tokenize) == Outcome(false, [])
  {
    assert FallbackWords(Strip(text), tokenize) == [];
  }

  /** The text `u` is non-blank, stripped, and the resolver lists `c` for it. */
  predicate Resolves(search: string -> seq<Code>, u: string, c: Code)
  {
    u != [] && c in search(u)
  }

  /** Every code found was listed by the resolver for some non-empty text:
      the recursion only ever forwards search results. */
  lemma {:induction false} FindSound(text: string, depth: int, maxDepth: int,
                                     search: string -> seq<Code>, tokenize: string -> seq<string>, c: Code)
    requires c in Find(text, depth, maxDepth, search, tokenize).codes
    ensures exists u :: Resolves(search, u, c)
    decreases if depth < maxDepth then maxDepth - depth else 0, 1, 0
  {
    var t := Strip(text);
    if search(t) != [] {
      assert Resolves(search, t, c);
    } else {
      GatherSound(FallbackWords(t, tokenize), depth + 1, maxDepth, search, tokenize, c);
    }
  }

  lemma {:induction false} GatherSound(ws: seq<string>, depth: int, maxDepth: int,
                                       search: string -> seq<Code>, tokenize: string -> seq<string>, c: Code)
    requires depth <= maxDepth
    requires c in Gather(ws, depth, maxDepth, search, tokenize)
    ensures exists u :: Resolves(search, u, c)
    decreases maxDepth - depth + 1, 0, |ws|
  {
    var w := ws[|ws| - 1];
    var o := Find(w, depth, maxDepth, search, tokenize);
    if c in Gather(ws[..|ws| - 1], depth, maxDepth, search, tokenize) {
      GatherSound(ws[..|ws| - 1], depth, maxDepth, search, tokenize, c);
    } else {
      FindSound(w, depth, maxDepth, search, tokenize, c);
    }
  }
}

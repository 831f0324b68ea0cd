/** The keyword filtering, counting and merging inside `main` of
    emojiVideoJson.py:33-92, which derives the two- and three-character
    priority phrase lists from the lexicon. The parsed JSON items are an
    input (`None` stands for a value that is not a list) and jieba's
    part-of-speech tagger is a function parameter `tag`. */
module PhraseExtraction {
  import opened Wrappers
  import opened Seqs
  import opened Strings

  /** One item of the lexicon JSON. */
  datatype Item = Item(glyph: string, value: Option<seq<string>>)

  const StopWords: set<char> :=
    {'的', '了', '着', '过', '在', '和', '或', '但', '也', '就', '都', '还', '只', '会', '要', '能', '可', '有', '是'}
  const AcceptablePos: set<string> := {"n", "v", "a", "ad", "an", "vn", "vd", "ag", "lg", "mg"}
  const MinFreq2: int := 1
  const MinFreq3: int := 1
  const FullWeight: int := 5
  const SubWeight: int := 1

  /** `re.match(r'^[一-鿿]+$', s)` on a stripped string. */
  predicate IsChineseWord(s: string)
  {
    |s| > 0 && forall i :: 0 <= i < |s| ==> IsCjk(s[i])
  }

  /** The considered keywords of one list: stripped, then kept when they
      are Chinese words (emojiVideoJson.py:45-48). */
  function KeywordSet(kws: seq<string>): (r: set<string>)
    decreases |kws|
  {
    if kws == [] then {}
    else
      var k := Strip(kws[|kws| - 1]);
      KeywordSet(kws[..|kws| - 1]) + (if IsChineseWord(k) then {k} else {})
  }

  /** `all_keywords` (emojiVideoJson.py:41-48); items whose value is not a
      list are skipped. */
  function Considered(data: seq<Item>): (r: set<string>)
    decreases |data|
  {
    if data == [] then {}
    else
      var v := data[|data| - 1].value;
      Considered(data[..|data| - 1]) + (if v.Some? then KeywordSet(v.value) else {})
  }

  /** The filter of emojiVideoJson.py:71. */
  predicate Accept(w: string, flag: string, all: set<string>)
  {
    (|w| == 2 || |w| == 3) && flag in AcceptablePos &&
    (forall i :: 0 <= i < |w| ==> w[i] !in StopWords) && w !in all
  }

  /** The words of length `len` among `pairs` that pass the filter. */
  function AcceptedOf(pairs: seq<(string, string)>, all: set<string>, len: nat): set<string>
    decreases |pairs|
  {
    if pairs == [] then {}
    else AcceptedOf(pairs[..|pairs| - 1], all, len) + Contribution(pairs[|pairs| - 1], all, len)
  }

  /** The word of one tagged pair when it passes the filter with length
      `len`. */
  function Contribution(p: (string, string), all: set<string>, len: nat): set<string>
  {
    if Accept(p.0, p.1, all) && |p.0| == len then {p.0} else {}
  }

  /** The sub-words of length `len` one keyword contributes: only keywords of
      four or more characters are tagged (emojiVideoJson.py:60-75). */
  function Tagged(kw: string, tag: string -> seq<(string, string)>, all: set<string>, len: nat): set<string>
  {
    if |kw| >= 4 then AcceptedOf(tag(kw), all, len) else {}
  }

  /** The words a counter holds once the keywords in `done` are processed:
      the keywords of length `len` themselves and their tagged sub-words. */
  function Candidates(done: set<string>, all: set<string>, tag: string -> seq<(string, string)>, len: nat): set<string>
  {
    (set kw | kw in done && |kw| == len) + (set kw, w | kw in done && w in Tagged(kw, tag, all, len) :: w)
  }

  /** The final phrase list of length `len`, as a set. */
  function Phrases(data: seq<Item>, tag: string -> seq<(string, string)>, len: nat): set<string>
  {
    Candidates(Considered(data), Considered(data), tag, len)
  }

  /** `counter[w] += k`. */
  function Bump(c: map<string, int>, w: string, k: int): (r: map<string, int>)
    ensures r.Keys == c.Keys + {w}
    ensures Positive(c) && k >= 1 ==> Positive(r)
  {
    c[w := (if w in c then c[w] else 0) + k]
  }

  predicate Positive(c: map<string, int>)
  {
    forall w :: w in c ==> c[w] >= 1
  }

  /** The inner loop of emojiVideoJson.py:41-48. */
  method AddKeywords(acc: set<string>, kws: seq<string>) returns (acc': set<string>)
    ensures acc' == acc + KeywordSet(kws)
  {
    acc' := acc;
    var j := 0;
    while j < |kws|
      invariant 0 <= j <= |kws| && acc' == acc + KeywordSet(kws[..j])
    {
      assert kws[..j + 1][..j] == kws[..j];
      var keyword := Strip(kws[j]);
      if IsChineseWord(keyword) {
        acc' := acc' + {keyword};
      }
      j := j + 1;
    }
    assert kws[..j] == kws;
  }

  /** emojiVideoJson.py:41-48. */
  method CollectKeywords(data: seq<Item>) returns (all: set<string>)
    ensures all == Considered(data)
  {
    all := {};
    var n := 0;
    while n < |data|
      invariant 0 <= n <= |data| && all == Considered(data[..n])
    {
      assert data[..n + 1][..n] == data[..n];
      match data[n].value {
        case None =>
        case Some(kws) => all := AddKeywords(all, kws);
      }
      n := n + 1;
    }
    assert data[..n] == data;
  }

  lemma {:induction false} AcceptedOfMembers(pairs: seq<(string, string)>, all: set<string>, len: nat, w: string)
    ensures w in AcceptedOf(pairs, all, len) <==>
      |w| == len && exists f :: (w, f) in pairs && Accept(w, f, all)
    decreases |pairs|
  {
    if pairs != [] {
      var pairs' := pairs[..|pairs| - 1];
      AcceptedOfMembers(pairs', all, len, w);
      assert pairs == pairs' + [pairs[|pairs| - 1]];
      assert Contribution(pairs[|pairs| - 1], all, len) == if Accept(pairs[|pairs| - 1].0, pairs[|pairs| - 1].1, all) && |pairs[|pairs| - 1].0| == len then {pairs[|pairs| - 1].0} else {};
    }
  }

  /** The two counters, after the pairs `ps` of one keyword, hold the
      words of `b2` / `b3` and the accepted words of `ps`, each with a
      positive count. */
  predicate Counted(c2: map<string, int>, c3: map<string, int>, b2: set<string>, b3: set<string>,
                    ps: seq<(string, string)>, all: set<string>)
  {
    Positive(c2) && Positive(c3) &&
    c2.Keys == b2 + AcceptedOf(ps, all, 2) && c3.Keys == b3 + AcceptedOf(ps, all, 3)
  }

  /** One tagged pair (emojiVideoJson.py:64-75). */
  method CountPair(c2: map<string, int>, c3: map<string, int>, p: (string, string), all: set<string>,
                   ghost b2: set<string>, ghost b3: set<string>, ghost ps: seq<(string, string)>)
    returns (c2': map<string, int>, c3': map<string, int>)
    requires Counted(c2, c3, b2, b3, ps, all)
    ensures Counted(c2', c3', b2, b3, ps + [p], all)
  {
    assert (ps + [p])[..|ps|] == ps;
    c2', c3' := c2, c3;
    var (word, flag) := p;
    var wordLen := |word|;
    if (wordLen == 2 || wordLen == 3) && flag in AcceptablePos &&
       (forall k :: 0 <= k < |word| ==> word[k] !in StopWords) && word !in all {
      if wordLen == 2 {
        c2' := Bump(c2', word, SubWeight);
      } else {
        c3' := Bump(c3', word, SubWeight);
      }
    }
  }

  /** The loop over the tagger's pairs (emojiVideoJson.py:63-75). */
  method CountSubWords(c2: map<string, int>, c3: map<string, int>, pairs: seq<(string, string)>, all: set<string>)
    returns (c2': map<string, int>, c3': map<string, int>)
    requires Positive(c2) && Positive(c3)
    ensures Positive(c2') && Positive(c3')
    ensures c2'.Keys == c2.Keys + AcceptedOf(pairs, all, 2)
    ensures c3'.Keys == c3.Keys + AcceptedOf(pairs, all, 3)
  {
    c2', c3' := c2, c3;
    var i := 0;
    assert Counted(c2', c3', c2.Keys, c3.Keys, pairs[..0], all);
    while i < |pairs|
      invariant 0 <= i <= |pairs|
      invariant Counted(c2', c3', c2.Keys, c3.Keys, pairs[..i], all)
    {
      assert pairs[..i + 1] == pairs[..i] + [pairs[i]];
      c2', c3' := CountPair(c2', c3', pairs[i], all, c2.Keys, c3.Keys, pairs[..i]);
      i := i + 1;
    }
    assert pairs[..i] == pairs;
  }

  /** The counters, after the keywords `ks`, hold exactly their
      candidates, each with a positive count. */
  predicate CountedAll(c2: map<string, int>, c3: map<string, int>, ks: seq<string>,
                       all: set<string>, tag: string -> seq<(string, string)>)
  {
    Positive(c2) && Positive(c3) &&
    c2.Keys == CandidatesOf(ks, all, tag, 2) && c3.Keys == CandidatesOf(ks, all, tag, 3)
  }

  /** One considered keyword (emojiVideoJson.py:52-75). */
  method CountKeyword(c2: map<string, int>, c3: map<string, int>, keyword: string,
                      all: set<string>, tag: string -> seq<(string, string)>, ghost ks: seq<string>)
    returns (c2': map<string, int>, c3': map<string, int>)
    requires CountedAll(c2, c3, ks, all, tag)
    ensures CountedAll(c2', c3', ks + [keyword], all, tag)
  {
    assert (ks + [keyword])[..|ks|] == ks;
    c2', c3' := c2, c3;
    if |keyword| == 2 {
      c2' := Bump(c2', keyword, FullWeight);
    } else if |keyword| == 3 {
      c3' := Bump(c3', keyword, FullWeight);
    }
    if |keyword| >= 4 {
      c2', c3' := CountSubWords(c2', c3', tag(keyword), all);
    }
  }

  lemma CandidatesStep(done: set<string>, kw: string, all: set<string>, tag: string -> seq<(string, string)>, len: nat)
    ensures Candidates(done + {kw}, all, tag, len) ==
      Candidates(done, all, tag, len) + (if |kw| == len then {kw} else {}) + Tagged(kw, tag, all, len)
  {
    var lhs := Candidates(done + {kw}, all, tag, len);
    var rhs := Candidates(done, all, tag, len) + (if |kw| == len then {kw} else {}) + Tagged(kw, tag, all, len);
    forall w | w in lhs ensures w in rhs {
      if w !in (set k | k in done + {kw} && |k| == len) {
        var k :| k in done + {kw} && w in Tagged(k, tag, all, len);
      }
    }
  }

  /** The candidates contributed by the keywords of `ks`, in any order. */
  function CandidatesOf(ks: seq<string>, all: set<string>, tag: string -> seq<(string, string)>, len: nat): set<string>
    decreases |ks|
  {
    if ks == [] then {}
    else
      var kw := ks[|ks| - 1];
      CandidatesOf(ks[..|ks| - 1], all, tag, len) + (if |kw| == len then {kw} else {}) + Tagged(kw, tag, all, len)
  }

  lemma {:induction false} CandidatesOfElems(ks: seq<string>, all: set<string>, tag: string -> seq<(string, string)>, len: nat)
    ensures CandidatesOf(ks, all, tag, len) == Candidates(Elems(ks), all, tag, len)
    decreases |ks|
  {
    if ks == [] {
      assert Elems(ks) == {};
    } else {
      var ks' := ks[..|ks| - 1];
      CandidatesOfElems(ks', all, tag, len);
      assert Elems(ks) == Elems(ks') + {ks[|ks| - 1]};
      CandidatesStep(Elems(ks'), ks[|ks| - 1], all, tag, len);
    }
  }

  /** emojiVideoJson.py:52-75: the counters, over `all_keywords` in set
      order. Each counter holds exactly the candidate words, each with a
      positive count. */
  method CountCandidates(all: set<string>, tag: string -> seq<(string, string)>)
    returns (c2: map<string, int>, c3: map<string, int>)
    ensures c2.Keys == Candidates(all, all, tag, 2) && c3.Keys == Candidates(all, all, tag, 3)
    ensures Positive(c2) && Positive(c3)
  {
    c2, c3 := map[], map[];
    var rest := all;
    ghost var order: seq<string> := [];
    while rest != {}
      invariant rest + Elems(order) == all && rest !! Elems(order)
      invariant CountedAll(c2, c3, order, all, tag)
      decreases |rest|
    {
      var keyword :| keyword in rest;
      c2, c3 := CountKeyword(c2, c3, keyword, all, tag, order);
      RestStep(rest, order, all, keyword);
      rest := rest - {keyword};
      order := order + [keyword];
    }
    CountedAllFinal(c2, c3, order, all, tag);
  }

  /** Moving one keyword from the unprocessed set to the processed list. */
  lemma RestStep(rest: set<string>, order: seq<string>, all: set<string>, keyword: string)
    requires rest + Elems(order) == all && rest !! Elems(order) && keyword in rest
    ensures (rest - {keyword}) + Elems(order + [keyword]) == all
    ensures (rest - {keyword}) !! Elems(order + [keyword])
    ensures |rest - {keyword}| < |rest|
  {
    ElemsSnoc(order, keyword);
  }

  /** Once every keyword is processed the counters hold the candidates. */
  lemma CountedAllFinal(c2: map<string, int>, c3: map<string, int>, order: seq<string>,
                        all: set<string>, tag: string -> seq<(string, string)>)
    requires CountedAll(c2, c3, order, all, tag) && Elems(order) == all
    ensures c2.Keys == Candidates(all, all, tag, 2) && c3.Keys == Candidates(all, all, tag, 3)
    ensures Positive(c2) && Positive(c3)
  {
    CandidatesOfElems(order, all, tag, 2);
    CandidatesOfElems(order, all, tag, 3);
  }

  /** Python's string order `a < b`: code-point lexicographic, a proper
      prefix first. */
  predicate Less(a: string, b: string)
    decreases |a|
  {
    if a == [] then b != []
    else if b == [] then false
    else if a[0] != b[0] then a[0] < b[0]
    else Less(a[1..], b[1..])
  }

  lemma {:induction false} LessIrreflexive(a: string)
    ensures !Less(a, a)
    decreases |a|
  {
    if a != [] {
      LessIrreflexive(a[1..]);
    }
  }

  lemma {:induction false} LessTransitive(a: string, b: string, c: string)
    requires Less(a, b) && Less(b, c)
    ensures Less(a, c)
    decreases |a|
  {
    if a != [] && a[0] == b[0] && b[0] == c[0] {
      LessTransitive(a[1..], b[1..], c[1..]);
    }
  }

  lemma {:induction false} LessTotal(a: string, b: string)
    requires a != b
    ensures Less(a, b) || Less(b, a)
    decreases |a|
  {
    if a != [] && b != [] && a[0] == b[0] {
      assert a == [a[0]] + a[1..] && b == [b[0]] + b[1..];
      LessTotal(a[1..], b[1..]);
    }
  }

  predicate Increasing(r: seq<string>)
  {
    forall i, j :: 0 <= i < j < |r| ==> Less(r[i], r[j])
  }

  /** The least element of a non-empty set. */
  method Least(s: set<string>) returns (m: string)
    requires s != {}
    ensures m in s && forall z :: z in s && z != m ==> Less(m, z)
  {
    m :| m in s;
    var others := s - {m};
    while others != {}
      invariant m in s && others <= s
      invariant forall z :: z in s - others && z != m ==> Less(m, z)
      decreases |others|
    {
      var y :| y in others;
      if Less(y, m) {
        forall z | z in s - others && z != y
          ensures Less(y, z)
        {
          if z != m {
            LessTransitive(y, m, z);
          }
        }
        m := y;
      } else if y != m {
        LessTotal(y, m);
      }
      others := others - {y};
    }
  }

  /** Appending the least remaining element keeps the list ascending and
      below everything still to come. */
  lemma SortStep(r: seq<string>, rest: set<string>, s: set<string>, m: string)
    requires Elems(r) + rest == s && Elems(r) !! rest
    requires Increasing(r)
    requires forall i, z :: 0 <= i < |r| && z in rest ==> Less(r[i], z)
    requires m in rest && forall z :: z in rest && z != m ==> Less(m, z)
    ensures Elems(r + [m]) + (rest - {m}) == s && Elems(r + [m]) !! (rest - {m})
    ensures Increasing(r + [m])
    ensures forall i, z :: 0 <= i < |r + [m]| && z in rest - {m} ==> Less((r + [m])[i], z)
  {
    ElemsSnoc(r, m);
    var r' := r + [m];
    forall i, j | 0 <= i < j < |r'|
      ensures Less(r'[i], r'[j])
    {
      if j < |r| {
        assert r'[i] == r[i] && r'[j] == r[j];
      } else {
        assert r'[i] == r[i] && r'[j] == m;
      }
    }
    forall i, z | 0 <= i < |r'| && z in rest - {m}
      ensures Less(r'[i], z)
    {
      if i < |r| {
        assert r'[i] == r[i];
      }
    }
  }

  /** `lst = list(s); lst.sort()`: the elements of a set in ascending
      order. */
  method SortedList(s: set<string>) returns (r: seq<string>)
    ensures Elems(r) == s && Increasing(r) && NoDup(r)
  {
    r := [];
    var rest := s;
    while rest != {}
      invariant Elems(r) + rest == s && Elems(r) !! rest
      invariant Increasing(r)
      invariant forall i, z :: 0 <= i < |r| && z in rest ==> Less(r[i], z)
      decreases |rest|
    {
      var m := Least(rest);
      SortStep(r, rest, s, m);
      r := r + [m];
      rest := rest - {m};
    }
    forall i, j | 0 <= i < j < |r|
      ensures r[i] != r[j]
    {
      if r[i] == r[j] {
        LessIrreflexive(r[i]);
      }
    }
  }

  /** `main`'s logic from the keyword filter to the sorted lists
      (emojiVideoJson.py:33-92). */
  method ExtractPhrases(data: seq<Item>, tag: string -> seq<(string, string)>)
    returns (two: seq<string>, three: seq<string>)
    ensures Elems(two) == Phrases(data, tag, 2) && Increasing(two) && NoDup(two)
    ensures Elems(three) == Phrases(data, tag, 3) && Increasing(three) && NoDup(three)
  {
    var all := CollectKeywords(data);
    var c2, c3 := CountCandidates(all, tag);
    var kept2 := set w | w in c2 && c2[w] >= MinFreq2;
    var kept3 := set w | w in c3 && c3[w] >= MinFreq3;
    assert kept2 == c2.Keys && kept3 == c3.Keys;
    var direct2 := set kw | kw in all && |kw| == 2;
    var direct3 := set kw | kw in all && |kw| == 3;
    two := SortedList(kept2 + direct2);
    three := SortedList(kept3 + direct3);
  }

  /** Every considered keyword is a stripped Chinese word taken from some
      item's list. */
  predicate FromItem(data: seq<Item>, n: int, j: int, kw: string)
  {
    0 <= n < |data| && data[n].value.Some? && 0 <= j < |data[n].value.value| &&
    Strip(data[n].value.value[j]) == kw
  }

  lemma {:induction false} KeywordSetWitness(kws: seq<string>, kw: string) returns (j: nat)
    requires kw in KeywordSet(kws)
    ensures IsChineseWord(kw) && j < |kws| && Strip(kws[j]) == kw
    decreases |kws|
  {
    var kws' := kws[..|kws| - 1];
    if kw in KeywordSet(kws') {
      j := KeywordSetWitness(kws', kw);
      assert kws[j] == kws'[j];
    } else {
      j := |kws| - 1;
    }
  }

  lemma {:induction false} KeywordSetComplete(kws: seq<string>, j: nat, kw: string)
    requires j < |kws| && Strip(kws[j]) == kw && IsChineseWord(kw)
    ensures kw in KeywordSet(kws)
    decreases |kws|
  {
    var kws' := kws[..|kws| - 1];
    if j < |kws'| {
      assert kws'[j] == kws[j];
      KeywordSetComplete(kws', j, kw);
    }
  }

  lemma KeywordSetMembers(kws: seq<string>, kw: string)
    ensures kw in KeywordSet(kws) <==>
      IsChineseWord(kw) && exists j :: 0 <= j < |kws| && Strip(kws[j]) == kw
  {
    if kw in KeywordSet(kws) {
      var j := KeywordSetWitness(kws, kw);
    }
    if IsChineseWord(kw) && exists j :: 0 <= j < |kws| && Strip(kws[j]) == kw {
      var j :| 0 <= j < |kws| && Strip(kws[j]) == kw;
      KeywordSetComplete(kws, j, kw);
    }
  }

  lemma {:induction false} ConsideredWitness(data: seq<Item>, kw: string) returns (n: nat, j: nat)
    requires kw in Considered(data)
    ensures IsChineseWord(kw) && FromItem(data, n, j, kw)
    decreases |data|
  {
    var data' := data[..|data| - 1];
    var v := data[|data| - 1].value;
    if kw in Considered(data') {
      n, j := ConsideredWitness(data', kw);
      assert data'[n] == data[n];
    } else {
      n := |data| - 1;
      j := KeywordSetWitness(v.value, kw);
    }
  }

  lemma {:induction false} ConsideredComplete(data: seq<Item>, n: nat, j: nat, kw: string)
    requires FromItem(data, n, j, kw) && IsChineseWord(kw)
    ensures kw in Considered(data)
    decreases |data|
  {
    var data' := data[..|data| - 1];
    if n < |data'| {
      assert data'[n] == data[n];
      assert FromItem(data', n, j, kw);
      ConsideredComplete(data', n, j, kw);
    } else {
      KeywordSetComplete(data[n].value.value, j, kw);
    }
  }

  /** A keyword is considered exactly when it is the stripped form of a
      list element and is made only of U+4E00 to U+9FFF characters. */
  lemma ConsideredMembers(data: seq<Item>, kw: string)
    ensures kw in Considered(data) <==>
      IsChineseWord(kw) && exists n, j :: FromItem(data, n, j, kw)
  {
    if kw in Considered(data) {
      var n, j := ConsideredWitness(data, kw);
    }
    if IsChineseWord(kw) && exists n, j :: FromItem(data, n, j, kw) {
      var n, j :| FromItem(data, n, j, kw);
      ConsideredComplete(data, n, j, kw);
    }
  }

  /** Every entry of a final list has the list's length. */
  lemma PhraseLengths(data: seq<Item>, tag: string -> seq<(string, string)>, len: nat, w: string)
    requires w in Phrases(data, tag, len)
    ensures |w| == len
  {
    var all := Considered(data);
    if w !in (set kw | kw in all && |kw| == len) {
      var kw :| kw in all && w in Tagged(kw, tag, all, len);
      AcceptedOfMembers(tag(kw), all, len, w);
    }
  }

  /** Every considered keyword of length 2 (3) is in the two-word
      (three-word) list. */
  lemma ConsideredKept(data: seq<Item>, tag: string -> seq<(string, string)>, kw: string)
    requires kw in Considered(data) && (|kw| == 2 || |kw| == 3)
    ensures kw in Phrases(data, tag, |kw|)
  {
  }

  /** `w` comes from tagging keyword `kw` with an acceptable tag. */
  ghost predicate Extracted(kw: string, w: string, tag: string -> seq<(string, string)>, all: set<string>)
  {
    kw in all && |kw| >= 4 && exists f :: (w, f) in tag(kw) && Accept(w, f, all)
  }

  /** An entry that is not itself a considered keyword was extracted from a
      keyword of four or more characters, with an acceptable part of
      speech, no stop-word character, and is not a considered keyword. */
  lemma SubWordSource(data: seq<Item>, tag: string -> seq<(string, string)>, len: nat, w: string)
    requires w in Phrases(data, tag, len) && w !in Considered(data)
    ensures exists kw :: Extracted(kw, w, tag, Considered(data))
  {
    var all := Considered(data);
    var kw :| kw in all && w in Tagged(kw, tag, all, len);
    AcceptedOfMembers(tag(kw), all, len, w);
    assert Extracted(kw, w, tag, all);
  }

  /** The threshold drops nothing: every counted word has a count of at
      least `MIN_FREQ = 1`. */
  lemma ThresholdKeepsAll(c: map<string, int>)
    requires Positive(c)
    ensures (set w | w in c && c[w] >= MinFreq2) == c.Keys
  {
  }
}

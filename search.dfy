/** The keyword resolver in its three versions: `search_emoji` of
    emoji_core.py (a set with an optional cap), of emoji_core_old.py
    (ordered by tier, de-duplicated) and of GiftoMp4.py (the exact bucket
    first, then the rest). Each walks the index in key order and picks
    buckets by comparing the query with each key. */
module Search {
  import opened Wrappers
  import opened Seqs
  import opened Strings
  import opened Lexicon

  /** How a tier compares the query `q` with an index key `k`. */
  datatype Tier =
    | Reverse                      // `q in k and k != q`
    | Forward(exclude: seq<Code>)  // `k in q and k not in exclude`
    | Within                       // `q in k`
    | Around                       // `k in q`

  predicate Hit(t: Tier, q: string, k: string)
  {
    match t
    case Reverse => Contains(k, q) && k != q
    case Forward(ex) => Contains(q, k) && k !in ex
    case Within => Contains(k, q)
    case Around => Contains(q, k)
  }

  /** The exact bucket, `index.get(q, [])`. */
  function Exact(idx: Index, q: string): (r: seq<Code>)
    ensures q in idx.buckets ==> r == idx.buckets[q]
    ensures q !in idx.buckets ==> r == []
  {
    if q in idx.buckets then idx.buckets[q] else []
  }

  /** The buckets of the keys among `ks` that a tier selects, concatenated in
      key order. */
  function Collect(idx: Index, ks: seq<string>, t: Tier, q: string): (r: seq<Code>)
    requires Elems(ks) <= idx.buckets.Keys
    decreases |ks|
  {
    if ks == [] then []
    else
      var k := ks[|ks| - 1];
      Collect(idx, ks[..|ks| - 1], t, q) + (if Hit(t, q, k) then idx.buckets[k] else [])
  }

  lemma CollectStep(idx: Index, ks: seq<string>, i: nat, t: Tier, q: string)
    requires Elems(ks) <= idx.buckets.Keys && i < |ks|
    ensures Elems(ks[..i]) <= idx.buckets.Keys && Elems(ks[..i + 1]) <= idx.buckets.Keys
    ensures Collect(idx, ks[..i + 1], t, q) ==
      Collect(idx, ks[..i], t, q) + (if Hit(t, q, ks[i]) then idx.buckets[ks[i]] else [])
  {
    assert ks[..i + 1][..i] == ks[..i];
  }

  /** A code is collected exactly when it is in the bucket of a key that
      the tier selects. */
  lemma {:induction false} CollectMembers(idx: Index, ks: seq<string>, t: Tier, q: string, c: Code)
    requires Elems(ks) <= idx.buckets.Keys
    ensures c in Collect(idx, ks, t, q) <==>
      exists j :: 0 <= j < |ks| && Hit(t, q, ks[j]) && c in idx.buckets[ks[j]]
    decreases |ks|
  {
    if ks != [] {
      var ks' := ks[..|ks| - 1];
      assert Elems(ks') <= Elems(ks);
      CollectMembers(idx, ks', t, q, c);
      if c in Collect(idx, ks', t, q) {
        var j :| 0 <= j < |ks'| && Hit(t, q, ks'[j]) && c in idx.buckets[ks'[j]];
        assert ks[j] == ks'[j];
      }
      if exists j :: 0 <= j < |ks| && Hit(t, q, ks[j]) && c in idx.buckets[ks[j]] {
        var j :| 0 <= j < |ks| && Hit(t, q, ks[j]) && c in idx.buckets[ks[j]];
        if j < |ks| - 1 {
          assert ks'[j] == ks[j];
        }
      }
    }
  }

  /** `list(s)`: the elements of a set in an order the language leaves
      unspecified. */
  method Enumerate(s: set<Code>) returns (r: seq<Code>)
    ensures NoDup(r) && Elems(r) == s && |r| == |s|
  {
    r := [];
    var rest := s;
    while rest != {}
      invariant rest !! Elems(r) && rest + Elems(r) == s
      invariant NoDup(r) && |r| + |rest| == |s|
      decreases |rest|
    {
      var x :| x in rest;
      PickStep(r, rest, s, x);
      r := r + [x];
      rest := rest - {x};
    }
  }

  /** Moving one element from the rest to the end of the listing keeps the
      listing duplicate-free and the two disjoint parts of the set. */
  lemma PickStep(r: seq<Code>, rest: set<Code>, s: set<Code>, x: Code)
    requires rest !! Elems(r) && rest + Elems(r) == s && NoDup(r) && x in rest
    ensures (rest - {x}) !! Elems(r + [x]) && (rest - {x}) + Elems(r + [x]) == s
    ensures NoDup(r + [x]) && |rest - {x}| == |rest| - 1
  {
    ElemsSnoc(r, x);
    assert x !in r;
  }


  /** The loop `for k in index: if hit(k): acc |= set(index[k])`. */
  method GatherSet(idx: Index, t: Tier, q: string, acc: set<Code>) returns (s: set<Code>)
    requires ValidIndex(idx)
    ensures s == acc + Elems(Collect(idx, idx.keys, t, q))
  {
    s := acc;
    var i := 0;
    while i < |idx.keys|
      invariant 0 <= i <= |idx.keys|
      invariant Elems(idx.keys[..i]) <= idx.buckets.Keys
      invariant s == acc + Elems(Collect(idx, idx.keys[..i], t, q))
    {
      var k := idx.keys[i];
      CollectStep(idx, idx.keys, i, t, q);
      if Hit(t, q, k) {
        s := s + Elems(idx.buckets[k]);
      }
      i := i + 1;
    }
    assert idx.keys[..i] == idx.keys;
  }

  /** The loop `for k in index: if hit(k): acc.extend(index[k])`. */
  method GatherList(idx: Index, t: Tier, q: string) returns (l: seq<Code>)
    requires ValidIndex(idx)
    ensures l == Collect(idx, idx.keys, t, q)
  {
    l := [];
    var i := 0;
    while i < |idx.keys|
      invariant 0 <= i <= |idx.keys|
      invariant Elems(idx.keys[..i]) <= idx.buckets.Keys
      invariant l == Collect(idx, idx.keys[..i], t, q)
    {
      var k := idx.keys[i];
      CollectStep(idx, idx.keys, i, t, q);
      if Hit(t, q, k) {
        l := l + idx.buckets[k];
      }
      i := i + 1;
    }
    assert idx.keys[..i] == idx.keys;
  }

  /** ---------------- emoji_core.py ---------------- */

  /** The set the three tiers of emoji_core.py:95-109 fill. */
  function MatchedSet(idx: Index, q: string): (r: set<Code>)
    requires ValidIndex(idx)
  {
    Elems(Exact(idx, q)) + Elems(Collect(idx, idx.keys, Reverse, q)) +
    Elems(Collect(idx, idx.keys, Forward(Exact(idx, q)), q))
  }

  /** Length of the Python slice `xs[:n]` of a list of length `len`. */
  function SliceLen(len: nat, n: int): (r: nat)
    ensures r <= len
    ensures n >= 0 ==> r == if n < len then n else len
    ensures n < 0 ==> r == if len + n > 0 then len + n else 0
  {
    if n >= 0 then (if n < len then n else len)
    else if len + n > 0 then len + n else 0
  }

  /** `xs[:n]` when a cap `n` is configured, `xs` otherwise. */
  function Truncate(xs: seq<Code>, cap: Option<int>): (r: seq<Code>)
    ensures r <= xs
    ensures |r| == if cap.None? then |xs| else SliceLen(|xs|, cap.value)
  {
    if cap.None? then xs else xs[..SliceLen(|xs|, cap.value)]
  }

  /** A prefix of a list without duplicates has none either. */
  lemma NoDupPrefix(a: seq<Code>, b: seq<Code>)
    requires NoDup(b) && a <= b
    ensures NoDup(a) && Elems(a) <= Elems(b)
  {
    assert forall i :: 0 <= i < |a| ==> a[i] == b[i];
  }

  /** `search_emoji` of emoji_core.py:84-117. The query is lower-cased and
      stripped; an empty query gives `[]`. Otherwise the exact bucket, every
      bucket whose key strictly contains the query and every bucket whose key
      the query contains (unless that key is one of the exact bucket's codes)
      are merged into a set, listed in some order and cut to the cap when
      one is configured (`MAX_EMOJI_RESULTS`, `None` in the source). */
  method SearchSet(idx: Index, keyword: string, cap: Option<int>) returns (r: seq<Code>)
    requires ValidIndex(idx)
    ensures Strip(Lower(keyword)) == [] ==> r == []
    ensures NoDup(r)
    ensures Elems(r) <= MatchedSet(idx, Strip(Lower(keyword)))
    ensures Strip(Lower(keyword)) != [] ==>
      |r| == if cap.None? then |MatchedSet(idx, Strip(Lower(keyword)))|
             else SliceLen(|MatchedSet(idx, Strip(Lower(keyword)))|, cap.value)
    ensures Strip(Lower(keyword)) != [] && cap.None? ==> Elems(r) == MatchedSet(idx, Strip(Lower(keyword)))
  {
    var q := Strip(Lower(keyword));
    if q == [] {
      return [];
    }
    var exact := Exact(idx, q);
    var matched := Elems(exact);
    matched := GatherSet(idx, Reverse, q, matched);
    matched := GatherSet(idx, Forward(exact), q, matched);
    var all := Enumerate(matched);
    r := Truncate(all, cap);
    NoDupPrefix(r, all);
  }

  /** `k` is a key of the index whose bucket holds `c`, and it equals the
      query, contains it, or is contained in it. */
  predicate Related(idx: Index, q: string, k: string, c: Code)
  {
    k in idx.buckets && c in idx.buckets[k] && (k == q || Contains(k, q) || Contains(q, k))
  }

  /** Every code emoji_core.py returns comes from a bucket whose key equals
      the query, contains it, or is contained in it. */
  lemma MatchedSetSound(idx: Index, q: string, c: Code)
    requires ValidIndex(idx)
    requires c in MatchedSet(idx, q)
    ensures exists k :: Related(idx, q, k, c)
  {
    CollectMembers(idx, idx.keys, Reverse, q, c);
    CollectMembers(idx, idx.keys, Forward(Exact(idx, q)), q, c);
    if c in Exact(idx, q) {
      assert Related(idx, q, q, c);
    }
    if c in Collect(idx, idx.keys, Reverse, q) {
      var j :| 0 <= j < |idx.keys| && Hit(Reverse, q, idx.keys[j]) && c in idx.buckets[idx.keys[j]];
      assert Related(idx, q, idx.keys[j], c);
    }
    if c in Collect(idx, idx.keys, Forward(Exact(idx, q)), q) {
      var j :| 0 <= j < |idx.keys| && Hit(Forward(Exact(idx, q)), q, idx.keys[j]) && c in idx.buckets[idx.keys[j]];
      assert Related(idx, q, idx.keys[j], c);
    }
  }

  /** Conversely, every bucket whose key equals the query, strictly contains
      it, or is contained in it without being one of the exact codes, is
      returned in full. */
  lemma MatchedSetComplete(idx: Index, q: string, k: string, c: Code)
    requires ValidIndex(idx)
    requires k in idx.buckets && c in idx.buckets[k]
    requires k == q || Contains(k, q) || (Contains(q, k) && k !in Exact(idx, q))
    ensures c in MatchedSet(idx, q)
  {
    assert k in Elems(idx.keys);
    var j :| 0 <= j < |idx.keys| && idx.keys[j] == k;
    CollectMembers(idx, idx.keys, Reverse, q, c);
    CollectMembers(idx, idx.keys, Forward(Exact(idx, q)), q, c);
    if k != q && Contains(k, q) {
      assert Hit(Reverse, q, idx.keys[j]);
    } else if k != q {
      assert Hit(Forward(Exact(idx, q)), q, idx.keys[j]);
    }
  }

  /** ---------------- emoji_core_old.py ---------------- */

  /** The list emoji_core_old.py:134-155 returns: first occurrences of the
      exact bucket, then of the reverse tier, then of the forward tier. */
  function OrderedResult(idx: Index, q: string): (r: seq<Code>)
    requires ValidIndex(idx)
  {
    var exact := Exact(idx, q);
    Dedup(exact + Collect(idx, idx.keys, Reverse, q) + Collect(idx, idx.keys, Forward(exact), q))
  }

  lemma DedupSnoc(s: seq<Code>, x: Code)
    ensures Dedup(s + [x]) == if x in Dedup(s) then Dedup(s) else Dedup(s) + [x]
  {
    assert (s + [x])[..|s|] == s;
  }

  /** One step of the merge: a code already seen is skipped, a new one is
      appended and recorded. */
  lemma UnseenStep(pre: seq<Code>, x: Code, out: seq<Code>, seen: set<Code>)
    requires out == Dedup(pre) && seen == Elems(out)
    ensures x in seen ==> Dedup(pre + [x]) == out
    ensures x !in seen ==> Dedup(pre + [x]) == out + [x] && seen + {x} == Elems(out + [x])
  {
    DedupSnoc(pre, x);
    ElemsSnoc(out, x);
  }

  /** Appends the first occurrences in `xs` that `out` does not hold yet,
      with `seen` mirroring `out` (emoji_core_old.py:138-153). */
  method AppendUnseen(out: seq<Code>, seen: set<Code>, xs: seq<Code>, ghost before: seq<Code>)
    returns (out': seq<Code>, seen': set<Code>)
    requires out == Dedup(before) && seen == Elems(out)
    ensures out' == Dedup(before + xs) && seen' == Elems(out')
  {
    out', seen' := out, seen;
    var i := 0;
    assert before + xs[..0] == before;
    while i < |xs|
      invariant 0 <= i <= |xs|
      invariant out' == Dedup(before + xs[..i]) && seen' == Elems(out')
    {
      var x := xs[i];
      assert before + xs[..i + 1] == (before + xs[..i]) + [x];
      UnseenStep(before + xs[..i], x, out', seen');
      if x !in seen' {
        seen' := seen' + {x};
        out' := out' + [x];
      }
      i := i + 1;
    }
    assert xs[..i] == xs;
  }

  /** `search_emoji` of emoji_core_old.py:94-155: the three tiers are
      gathered as lists in key order, then merged keeping each code's first
      occurrence. The forward tier's exclusion test compares a key with the
      exact bucket's codes (line 129). */
  method SearchOrdered(idx: Index, keyword: string) returns (r: seq<Code>)
    requires ValidIndex(idx)
    ensures Strip(Lower(keyword)) == [] ==> r == []
    ensures Strip(Lower(keyword)) != [] ==> r == OrderedResult(idx, Strip(Lower(keyword)))
  {
    var q := Strip(Lower(keyword));
    if q == [] {
      return [];
    }
    var exact := Exact(idx, q);
    var reverse := GatherList(idx, Reverse, q);
    var forward := GatherList(idx, Forward(exact), q);
    var seen: set<Code> := {};
    r := [];
    assert [] + exact == exact;
    r, seen := AppendUnseen(r, seen, exact, []);
    r, seen := AppendUnseen(r, seen, reverse, exact);
    r, seen := AppendUnseen(r, seen, forward, exact + reverse);
  }

  /** The ordered result holds no duplicates, every code of the three tiers
      and nothing else, and starts with the exact bucket's codes. */
  lemma OrderedResultSpec(idx: Index, q: string)
    requires ValidIndex(idx)
    ensures NoDup(OrderedResult(idx, q))
    ensures Elems(OrderedResult(idx, q)) == MatchedSet(idx, q)
    ensures Dedup(Exact(idx, q)) <= OrderedResult(idx, q)
    ensures forall c :: c in OrderedResult(idx, q)[|Dedup(Exact(idx, q))|..] ==> c !in Exact(idx, q)
  {
    var exact := Exact(idx, q);
    var rev := Collect(idx, idx.keys, Reverse, q);
    var fwd := Collect(idx, idx.keys, Forward(exact), q);
    DedupSpec(exact + rev + fwd);
    assert exact + rev + fwd == exact + (rev + fwd);
    DedupSuffix(exact, rev + fwd);
    DedupPrefix(exact, rev + fwd);
    assert Elems(exact + rev + fwd) == Elems(exact) + Elems(rev) + Elems(fwd);
  }

  /** The forward tier's exclusion `k not in exact` (emoji_core.py:108,
      emoji_core_old.py:129) tests a keyword against a list of codes: for an
      index built from a lexicon it can only exclude a key made of decimal
      digits and `-` (codes are upper-case hexadecimal, keys are
      lower-cased). */
  lemma ExclusionNeedsDigitKey(data: seq<Entry>, skipEmpty: bool, q: string, k: string)
    requires k in Insert(Appends(data, skipEmpty)).buckets
    requires k in Exact(Insert(Appends(data, skipEmpty)), q)
    ensures forall i :: 0 <= i < |k| ==> ('0' <= k[i] <= '9') || k[i] == '-'
  {
    var idx := Insert(Appends(data, skipEmpty));
    BuildSound(data, skipEmpty, q, k);
    var n, j :| Source(data, skipEmpty, n, j, q, k);
    EmojiCodeChars(data[n].glyph);
    LowerKeyChars(data, skipEmpty, k);
  }

  /** Every key of a built index is lower-case. */
  lemma LowerKeyChars(data: seq<Entry>, skipEmpty: bool, k: string)
    requires k in Insert(Appends(data, skipEmpty)).buckets
    ensures forall i :: 0 <= i < |k| ==> !IsAsciiUpper(k[i])
  {
    var idx := Insert(Appends(data, skipEmpty));
    InsertShape(Appends(data, skipEmpty));
    BuildSound(data, skipEmpty, k, idx.buckets[k][0]);
    var n, j :| Source(data, skipEmpty, n, j, k, idx.buckets[k][0]);
    assert k == Lower(data[n].keywords[j]);
  }

  /** With no key among the exact codes, the exclusion removes nothing: the
      forward tier then takes every bucket whose key the query contains. */
  lemma ExclusionInert(idx: Index, q: string)
    requires ValidIndex(idx)
    requires forall k :: k in idx.buckets ==> k !in Exact(idx, q)
    ensures Collect(idx, idx.keys, Forward(Exact(idx, q)), q) == Collect(idx, idx.keys, Around, q)
  {
    CollectSameHits(idx, idx.keys, Forward(Exact(idx, q)), Around, q);
  }

  lemma {:induction false} CollectSameHits(idx: Index, ks: seq<string>, t1: Tier, t2: Tier, q: string)
    requires Elems(ks) <= idx.buckets.Keys
    requires forall j :: 0 <= j < |ks| ==> (Hit(t1, q, ks[j]) <==> Hit(t2, q, ks[j]))
    ensures Collect(idx, ks, t1, q) == Collect(idx, ks, t2, q)
    decreases |ks|
  {
    if ks != [] {
      var ks' := ks[..|ks| - 1];
      assert Elems(ks') <= Elems(ks);
      assert forall j :: 0 <= j < |ks'| ==> ks'[j] == ks[j];
      CollectSameHits(idx, ks', t1, t2, q);
    }
  }

  /** ---------------- GiftoMp4.py ---------------- */

  /** The set GiftoMp4.py:108-122 fills. */
  function GiftoMatched(idx: Index, q: string): (r: set<Code>)
    requires ValidIndex(idx)
  {
    Elems(Exact(idx, q)) + Elems(Collect(idx, idx.keys, Within, q)) + Elems(Collect(idx, idx.keys, Around, q))
  }

  /** The loop of GiftoMp4.py:127-131: after `front`, append each element
      of `s` (in set order) that is not listed yet. */
  method AppendMissing(front: seq<Code>, s: set<Code>) returns (r: seq<Code>)
    ensures front <= r
    ensures NoDup(r[|front|..])
    ensures forall c :: c in r[|front|..] ==> c !in front
    ensures Elems(r) == Elems(front) + s
  {
    r := front;
    var rest := s;
    while rest != {}
      invariant front <= r && rest <= s
      invariant NoDup(r[|front|..])
      invariant forall c :: c in r[|front|..] ==> c !in front
      invariant Elems(r) + rest == Elems(front) + s
      decreases |rest|
    {
      var c :| c in rest;
      if c !in r {
        assert r[|front|..] + [c] == (r + [c])[|front|..];
        r := r + [c];
      }
      rest := rest - {c};
    }
  }

  /** `search_emoji` of GiftoMp4.py:105-133: the query is only lower-cased.
      The exact bucket is copied verbatim (duplicates included), then every
      other matched code not yet listed follows in set order. */
  method SearchGifto(idx: Index, keyword: string) returns (r: seq<Code>)
    requires ValidIndex(idx)
    ensures Exact(idx, Lower(keyword)) <= r
    ensures NoDup(r[|Exact(idx, Lower(keyword))|..])
    ensures forall c :: c in r[|Exact(idx, Lower(keyword))|..] ==> c !in Exact(idx, Lower(keyword))
    ensures Elems(r) == GiftoMatched(idx, Lower(keyword))
  {
    var q := Lower(keyword);
    var exact := Exact(idx, q);
    var matched := GatherSet(idx, Within, q, Elems(exact));
    matched := GatherSet(idx, Around, q, matched);
    r := AppendMissing(exact, matched);
  }

  /** With no trimming and no empty guard, the empty query is contained in
      every key, so GiftoMp4.py returns every code of the index. */
  lemma GiftoEmptyQuery(idx: Index, c: Code)
    requires ValidIndex(idx)
    ensures c in GiftoMatched(idx, []) <==> exists k :: k in idx.buckets && c in idx.buckets[k]
  {
    if exists k :: k in idx.buckets && c in idx.buckets[k] {
      var k :| k in idx.buckets && c in idx.buckets[k];
      GiftoEmptyQueryIn(idx, k, c);
    }
    if c in GiftoMatched(idx, []) {
      MatchedKey(idx, [], c);
    }
  }

  lemma GiftoEmptyQueryIn(idx: Index, k: string, c: Code)
    requires ValidIndex(idx)
    requires k in idx.buckets && c in idx.buckets[k]
    ensures c in Collect(idx, idx.keys, Within, [])
  {
    assert k in Elems(idx.keys);
    var j :| 0 <= j < |idx.keys| && idx.keys[j] == k;
    assert Hit(Within, [], idx.keys[j]);
    CollectMembers(idx, idx.keys, Within, [], c);
  }

  /** Every code the GiftoMp4 search matches, for any query, comes from
      some bucket of the index. */
  lemma MatchedKey(idx: Index, q: string, c: Code)
    requires ValidIndex(idx)
    requires c in GiftoMatched(idx, q)
    ensures exists k :: k in idx.buckets && c in idx.buckets[k]
  {
    CollectMembers(idx, idx.keys, Within, q, c);
    CollectMembers(idx, idx.keys, Around, q, c);
    if c in Exact(idx, q) {
      assert q in idx.buckets && c in idx.buckets[q];
    }
    if c in Collect(idx, idx.keys, Within, q) {
      var j :| 0 <= j < |idx.keys| && Hit(Within, q, idx.keys[j]) && c in idx.buckets[idx.keys[j]];
      assert idx.keys[j] in idx.buckets;
    }
    if c in Collect(idx, idx.keys, Around, q) {
      var j :| 0 <= j < |idx.keys| && Hit(Around, q, idx.keys[j]) && c in idx.buckets[idx.keys[j]];
      assert idx.keys[j] in idx.buckets;
    }
  }
}

/** Facts about Python lists used throughout the model: concatenation of a
    list of lists, duplicate freedom and first-occurrence de-duplication. */
module Seqs {

  /** Concatenation of a list of lists, `sum(ss, [])` / `''.join(ss)`.
      Defined on the last element so that a loop over a prefix can keep it
      as an invariant. */
  function Flatten<T>(ss: seq<seq<T>>): (r: seq<T>)
    decreases |ss|
  {
    if ss == [] then [] else Flatten(ss[..|ss| - 1]) + ss[|ss| - 1]
  }

  lemma {:induction false} FlattenAppend<T>(a: seq<seq<T>>, b: seq<seq<T>>)
    ensures Flatten(a + b) == Flatten(a) + Flatten(b)
    decreases |b|
  {
    if b == [] {
      assert a + b == a;
    } else {
      var b', x := b[..|b| - 1], b[|b| - 1];
      assert (a + b)[..|a + b| - 1] == a + b';
      calc {
        Flatten(a + b);
        Flatten(a + b') + x;
        { FlattenAppend(a, b'); }
        (Flatten(a) + Flatten(b')) + x;
        Flatten(a) + (Flatten(b') + x);
        Flatten(a) + Flatten(b);
      }
    }
  }

  /** The concatenation of `f(t)` over the list, in order. */
  function FlatMap<T, U>(ts: seq<T>, f: T -> seq<U>): (r: seq<U>)
    decreases |ts|
  {
    if ts == [] then [] else FlatMap(ts[..|ts| - 1], f) + f(ts[|ts| - 1])
  }

  lemma FlatMapSnoc<T, U>(ts: seq<T>, t: T, f: T -> seq<U>)
    ensures FlatMap(ts + [t], f) == FlatMap(ts, f) + f(t)
  {
    assert (ts + [t])[..|ts|] == ts;
  }

  lemma {:induction false} FlatMapAppend<T, U>(a: seq<T>, b: seq<T>, f: T -> seq<U>)
    ensures FlatMap(a + b, f) == FlatMap(a, f) + FlatMap(b, f)
    decreases |b|
  {
    if b == [] {
      assert a + b == a;
    } else {
      var b', x := b[..|b| - 1], b[|b| - 1];
      assert b == b' + [x];
      assert a + b == (a + b') + [x];
      calc {
        FlatMap(a + b, f);
        { FlatMapSnoc(a + b', x, f); }
        FlatMap(a + b', f) + f(x);
        { FlatMapAppend(a, b', f); }
        (FlatMap(a, f) + FlatMap(b', f)) + f(x);
        FlatMap(a, f) + (FlatMap(b', f) + f(x));
        { FlatMapSnoc(b', x, f); }
        FlatMap(a, f) + FlatMap(b, f);
      }
    }
  }

  lemma FlattenOne<T>(x: seq<T>)
    ensures Flatten([x]) == x
  {
    assert [x][..0] == [];
  }

  lemma FlattenCons<T>(x: seq<T>, rest: seq<seq<T>>)
    ensures Flatten([x] + rest) == x + Flatten(rest)
  {
    FlattenAppend([x], rest);
    FlattenOne(x);
  }

  /** Every element of the concatenation comes from one of the parts. */
  lemma {:induction false} FlattenMember<T>(ss: seq<seq<T>>, x: T) returns (i: nat)
    requires x in Flatten(ss)
    ensures i < |ss| && x in ss[i]
    decreases |ss|
  {
    var ss' := ss[..|ss| - 1];
    assert Flatten(ss) == Flatten(ss') + ss[|ss| - 1];
    if x in Flatten(ss') {
      i := FlattenMember(ss', x);
      assert ss[i] == ss'[i];
    } else {
      i := |ss| - 1;
    }
  }

  /** Every element of every part is in the concatenation. */
  lemma {:induction false} MemberFlatten<T>(ss: seq<seq<T>>, i: nat, x: T)
    requires i < |ss| && x in ss[i]
    ensures x in Flatten(ss)
    decreases |ss|
  {
    var ss' := ss[..|ss| - 1];
    if i < |ss| - 1 {
      assert ss'[i] == ss[i];
      MemberFlatten(ss', i, x);
    }
  }

  /** No element occurs twice. */
  predicate NoDup<T(==)>(s: seq<T>)
  {
    forall i, j :: 0 <= i < j < |s| ==> s[i] != s[j]
  }

  /** The set of elements of a list, `set(s)`. */
  function Elems<T>(s: seq<T>): set<T>
  {
    set x | x in s
  }

  lemma ElemsSnoc<T>(s: seq<T>, x: T)
    ensures Elems(s + [x]) == Elems(s) + {x}
  {
    assert forall y :: y in s + [x] <==> y in s || y == x;
  }

  /** A list without duplicates has as many elements as its set. */
  lemma {:induction false} NoDupCard<T>(s: seq<T>)
    requires NoDup(s)
    ensures |Elems(s)| == |s|
    decreases |s|
  {
    if s != [] {
      var s' := s[..|s| - 1];
      NoDupCard(s');
      assert Elems(s) == Elems(s') + {s[|s| - 1]};
      assert forall k :: 0 <= k < |s'| ==> s'[k] != s[|s| - 1];
      assert s[|s| - 1] !in Elems(s');
    }
  }

  /** First-occurrence de-duplication: the list-with-`seen`-set idiom
      `for x in s: if x not in seen: seen.add(x); out.append(x)`. */
  function Dedup<T(==)>(s: seq<T>): (r: seq<T>)
    decreases |s|
  {
    if s == [] then []
    else
      var d := Dedup(s[..|s| - 1]);
      if s[|s| - 1] in d then d else d + [s[|s| - 1]]
  }

  /** De-duplication removes exactly the repetitions. */
  lemma {:induction false} DedupSpec<T>(s: seq<T>)
    ensures NoDup(Dedup(s))
    ensures Elems(Dedup(s)) == Elems(s)
    decreases |s|
  {
    if s != [] {
      var s' := s[..|s| - 1];
      DedupSpec(s');
      assert s == s' + [s[|s| - 1]];
      assert Elems(s) == Elems(s') + {s[|s| - 1]};
    }
  }

  /** De-duplicating a longer list keeps the de-duplication of its prefix as
      a prefix: the first part's elements come first, in their order. */
  lemma {:induction false} DedupPrefix<T>(a: seq<T>, b: seq<T>)
    ensures Dedup(a) <= Dedup(a + b)
    decreases |b|
  {
    if b == [] {
      assert a + b == a;
    } else {
      var b' := b[..|b| - 1];
      assert (a + b)[..|a + b| - 1] == a + b';
      DedupPrefix(a, b');
    }
  }

  /** After the prefix taken from `a`, de-duplicating `a + b` only adds
      elements of `b` that do not occur in `a`. */
  lemma {:induction false} DedupSuffix<T>(a: seq<T>, b: seq<T>)
    ensures |Dedup(a)| <= |Dedup(a + b)|
    ensures forall x :: x in Dedup(a + b)[|Dedup(a)|..] ==> x in b && x !in a
  {
    DedupPrefix(a, b);
    DedupSpec(a + b);
    DedupSpec(a);
    var d := Dedup(a + b);
    var k := |Dedup(a)|;
    forall x | x in d[k..]
      ensures x in b && x !in a
    {
      var j :| k <= j < |d| && d[j] == x;
      assert forall i :: 0 <= i < k ==> Dedup(a)[i] == d[i] != d[j];
      assert x !in Elems(Dedup(a));
      assert x in Elems(a + b);
    }
  }
}

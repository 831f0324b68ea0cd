/** The pure prefix of `create_emoji_video` in emoji_core.py:200-227: input
    validation and the positional sequence of codes, one slot per
    character, cycling through each word's selection. */
module SequenceBuilder {
  import opened Wrappers
  import opened Seqs
  import opened Lexicon

  const CellSize: int := 240
  const DefaultDuration: real := 3.0

  /** The exceptions raised: `ValueError` for unequal list lengths or a zero
      character total, `Warning` when every slot is empty. */
  datatype Failure = LengthMismatch | NoChars | AllEmpty

  datatype Result<T> = Ok(value: T) | Err(failure: Failure)

  /** What the compositing stage receives. */
  datatype Plan = Plan(width: int, duration: real, slots: seq<Option<Code>>)

  /** Python's `[None] * n` and `range(n)` both give nothing for `n <= 0`. */
  function Clamp(n: int): nat
  {
    if n < 0 then 0 else n
  }

  /** The slots one word contributes (emoji_core.py:218-224). */
  function WordSlots(sel: seq<Code>, n: int): (r: seq<Option<Code>>)
    ensures |r| == Clamp(n)
  {
    if sel == [] then seq(Clamp(n), p => None)
    else seq(Clamp(n), p requires 0 <= p < Clamp(n) => Some(sel[p % |sel|]))
  }

  /** Slot `p` of a word is empty without a selection, and otherwise its
      `p % len`-th selected code. */
  lemma WordSlotAt(sel: seq<Code>, n: int, p: nat)
    requires p < Clamp(n)
    ensures WordSlots(sel, n)[p] == if sel == [] then None else Some(sel[p % |sel|])
  {
  }

  /** `final_emoji_sequence` over the zipped selections and counts. */
  function Expand(sels: seq<seq<Code>>, counts: seq<int>): (r: seq<Option<Code>>)
    requires |sels| == |counts|
    decreases |sels|
  {
    if sels == [] then []
    else
      var k := |sels| - 1;
      Expand(sels[..k], counts[..k]) + WordSlots(sels[k], counts[k])
  }

  /** `sum(counts)`. */
  function Sum(counts: seq<int>): int
    decreases |counts|
  {
    if counts == [] then 0 else Sum(counts[..|counts| - 1]) + counts[|counts| - 1]
  }

  /** The number of slots before word `i`'s block: the sum of the clamped
      counts. */
  function SumClamped(counts: seq<int>): nat
    decreases |counts|
  {
    if counts == [] then 0 else SumClamped(counts[..|counts| - 1]) + Clamp(counts[|counts| - 1])
  }

  /** The slots of one word, appended in the inner loop. */
  method FillWord(out: seq<Option<Code>>, sel: seq<Code>, n: int) returns (out': seq<Option<Code>>)
    ensures out' == out + WordSlots(sel, n)
  {
    out' := out;
    if sel == [] {
      var p := 0;
      while p < n
        invariant 0 <= p && (n >= 0 ==> p <= n) && (n < 0 ==> p == 0)
        invariant out' == out + seq(p, q => None)
      {
        out' := out' + [None];
        p := p + 1;
      }
      return;
    }
    var i := 0;
    while i < n
      invariant 0 <= i && (n >= 0 ==> i <= n) && (n < 0 ==> i == 0)
      invariant out' == out + seq(i, q requires 0 <= q < i => Some(sel[q % |sel|]))
    {
      out' := out' + [Some(sel[i % |sel|])];
      i := i + 1;
    }
  }

  /** The outer loop of emoji_core.py:217-224. */
  method BuildSequence(sels: seq<seq<Code>>, counts: seq<int>) returns (out: seq<Option<Code>>)
    requires |sels| == |counts|
    ensures out == Expand(sels, counts)
  {
    out := [];
    var w := 0;
    while w < |sels|
      invariant 0 <= w <= |sels|
      invariant out == Expand(sels[..w], counts[..w])
    {
      assert sels[..w + 1][..w] == sels[..w] && counts[..w + 1][..w] == counts[..w];
      out := FillWord(out, sels[w], counts[w]);
      w := w + 1;
    }
    assert sels[..w] == sels && counts[..w] == counts;
  }

  predicate AllNone(slots: seq<Option<Code>>)
  {
    forall p :: 0 <= p < |slots| ==> slots[p].None?
  }

  /** The result of the validating prefix of `create_emoji_video`. */
  function Prepare(words: seq<string>, sels: seq<seq<Code>>, counts: seq<int>, duration: real): Result<Plan>
  {
    if |words| != |sels| || |words| != |counts| then Err(LengthMismatch)
    else if Sum(counts) == 0 then Err(NoChars)
    else
      var slots := Expand(sels, counts);
      if AllNone(slots) then Err(AllEmpty)
      else Ok(Plan(Sum(counts) * CellSize, if duration <= 0.0 then DefaultDuration else duration, slots))
  }

  /** `sum(char_counts)` (emoji_core.py:203). */
  method TotalChars(counts: seq<int>) returns (total: int)
    ensures total == Sum(counts)
  {
    total := 0;
    var i := 0;
    while i < |counts|
      invariant 0 <= i <= |counts| && total == Sum(counts[..i])
    {
      assert counts[..i + 1][..i] == counts[..i];
      total := total + counts[i];
      i := i + 1;
    }
    assert counts[..i] == counts;
  }

  /** `all(e is None for e in final_emoji_sequence)` (emoji_core.py:226). */
  method EverySlotEmpty(slots: seq<Option<Code>>) returns (allNone: bool)
    ensures allNone == AllNone(slots)
  {
    allNone := true;
    var p := 0;
    while p < |slots|
      invariant 0 <= p <= |slots|
      invariant allNone <==> forall q :: 0 <= q < p ==> slots[q].None?
    {
      if slots[p].Some? {
        allNone := false;
      }
      p := p + 1;
    }
  }

  /** emoji_core.py:200-227. */
  method CreateEmojiVideoPlan(words: seq<string>, sels: seq<seq<Code>>, counts: seq<int>, duration: real)
    returns (r: Result<Plan>)
    ensures r == Prepare(words, sels, counts, duration)
  {
    if |words| != |sels| || |words| != |counts| {
      return Err(LengthMismatch);
    }
    var total := TotalChars(counts);
    if total == 0 {
      return Err(NoChars);
    }
    var d := duration;
    if d <= 0.0 {
      d := DefaultDuration;
    }
    var width := total * CellSize;
    var slots := BuildSequence(sels, counts);
    var allNone := EverySlotEmpty(slots);
    if allNone {
      return Err(AllEmpty);
    }
    return Ok(Plan(width, d, slots));
  }

  /** The sequence has one slot per (non-negative) character count. */
  lemma {:induction false} ExpandLength(sels: seq<seq<Code>>, counts: seq<int>)
    requires |sels| == |counts|
    ensures |Expand(sels, counts)| == SumClamped(counts)
    decreases |sels|
  {
    if sels != [] {
      var k := |sels| - 1;
      ExpandLength(sels[..k], counts[..k]);
    }
  }

  /** With non-negative counts the length is `sum(counts)`. */
  lemma {:induction false} SumClampedNat(counts: seq<int>)
    requires forall i :: 0 <= i < |counts| ==> counts[i] >= 0
    ensures SumClamped(counts) == Sum(counts)
    decreases |counts|
  {
    if counts != [] {
      SumClampedNat(counts[..|counts| - 1]);
    }
  }

  /** Slot `p` of word `i` is its `p % len`-th selected code, or `None` when
      nothing is selected for that word. */
  lemma {:induction false} ExpandSlot(sels: seq<seq<Code>>, counts: seq<int>, i: nat, p: nat)
    requires |sels| == |counts| && i < |sels| && p < Clamp(counts[i])
    ensures SumClamped(counts[..i]) + p < |Expand(sels, counts)|
    ensures Expand(sels, counts)[SumClamped(counts[..i]) + p] ==
      if sels[i] == [] then None else Some(sels[i][p % |sels[i]|])
  {
    ExpandBlock(sels, counts, i, p);
    WordSlotAt(sels[i], counts[i], p);
  }

  /** Word `i`'s slots sit right after the slots of the words before it. */
  lemma {:induction false} ExpandBlock(sels: seq<seq<Code>>, counts: seq<int>, i: nat, p: nat)
    requires |sels| == |counts| && i < |sels| && p < Clamp(counts[i])
    ensures SumClamped(counts[..i]) + p < |Expand(sels, counts)|
    ensures Expand(sels, counts)[SumClamped(counts[..i]) + p] == WordSlots(sels[i], counts[i])[p]
    decreases |sels|
  {
    var k := |sels| - 1;
    if i < k {
      var s', c' := sels[..k], counts[..k];
      assert c'[..i] == counts[..i];
      assert s'[i] == sels[i] && c'[i] == counts[i];
      var j := SumClamped(counts[..i]) + p;
      var w := WordSlots(sels[i], counts[i])[p];
      ExpandBlock(s', c', i, p);
      assert Expand(s', c')[j] == w;
      ExpandEarlier(sels, counts, j);
      assert Expand(sels, counts)[j] == w;
    } else {
      ExpandLast(sels, counts, p);
    }
  }

  /** Growing the word list keeps the slots already there. */
  lemma ExpandEarlier(sels: seq<seq<Code>>, counts: seq<int>, j: nat)
    requires |sels| == |counts| > 0
    requires j < |Expand(sels[..|sels| - 1], counts[..|sels| - 1])|
    ensures j < |Expand(sels, counts)|
    ensures Expand(sels, counts)[j] == Expand(sels[..|sels| - 1], counts[..|sels| - 1])[j]
  {
    var k := |sels| - 1;
    var pre := Expand(sels[..k], counts[..k]);
    var last := WordSlots(sels[k], counts[k]);
    assert Expand(sels, counts) == pre + last;
  }

  /** The last word's slots come after all the others. */
  lemma ExpandLast(sels: seq<seq<Code>>, counts: seq<int>, p: nat)
    requires |sels| == |counts| > 0 && p < Clamp(counts[|sels| - 1])
    ensures SumClamped(counts[..|sels| - 1]) + p < |Expand(sels, counts)|
    ensures Expand(sels, counts)[SumClamped(counts[..|sels| - 1]) + p] ==
      WordSlots(sels[|sels| - 1], counts[|sels| - 1])[p]
  {
    var k := |sels| - 1;
    var pre := Expand(sels[..k], counts[..k]);
    var last := WordSlots(sels[k], counts[k]);
    assert Expand(sels, counts) == pre + last;
    ExpandLength(sels[..k], counts[..k]);
    assert (pre + last)[|pre| + p] == last[p];
  }

  /** Every slot is empty exactly when no word with a positive count has a
      selection, which is when `Warning` is raised. */
  lemma {:induction false} AllNoneIff(sels: seq<seq<Code>>, counts: seq<int>)
    requires |sels| == |counts|
    ensures AllNone(Expand(sels, counts)) <==>
      forall i :: 0 <= i < |sels| && counts[i] > 0 ==> sels[i] == []
    decreases |sels|
  {
    if sels != [] {
      var k := |sels| - 1;
      AllNoneIff(sels[..k], counts[..k]);
      var pre := Expand(sels[..k], counts[..k]);
      var last := WordSlots(sels[k], counts[k]);
      assert Expand(sels, counts) == pre + last;
      assert AllNone(pre + last) <==> AllNone(pre) && AllNone(last) by {
        assert forall p :: 0 <= p < |pre| ==> (pre + last)[p] == pre[p];
        assert forall p :: 0 <= p < |last| ==> (pre + last)[|pre| + p] == last[p];
      }
      assert AllNone(last) <==> (counts[k] > 0 ==> sels[k] == []) by {
        if counts[k] > 0 && sels[k] != [] {
          assert last[0].Some?;
        }
      }
      assert forall i :: 0 <= i < k ==> sels[..k][i] == sels[i] && counts[..k][i] == counts[i];
    }
  }

  /** On success the width is 240 pixels per character and the duration is
      positive. */
  lemma PrepareOk(words: seq<string>, sels: seq<seq<Code>>, counts: seq<int>, duration: real)
    requires Prepare(words, sels, counts, duration).Ok?
    ensures |words| == |sels| == |counts| && Sum(counts) != 0
    ensures Prepare(words, sels, counts, duration).value.width == Sum(counts) * CellSize
    ensures Prepare(words, sels, counts, duration).value.duration > 0.0
    ensures Prepare(words, sels, counts, duration).value.slots == Expand(sels, counts)
    ensures exists i :: 0 <= i < |sels| && counts[i] > 0 && sels[i] != []
  {
    AllNoneIff(sels, counts);
  }
}

/** The integer helpers of gifall.py: the brightening S-curve lookup table
    applied to every channel, and the `HH:MM:SS` rendering of an elapsed
    time. */
module GifTools {
  import opened Wrappers
  import Hex

  function Min(a: int, b: int): int { if a < b then a else b }
  function Max(a: int, b: int): int { if a < b then b else a }

  /** The three linear pieces of gifall.py:21-26 before clamping, over
      64, 128 and 64 input levels. The source divides floats and truncates
      with `int`; the operands are small non-negative integers, so the
      correctly rounded quotient truncates to the integer quotient. */
  function Segment(v: int): int
    requires 0 <= v < 256
  {
    if v < 64 then 10 + (v * 70) / 63
    else if v < 192 then 80 + ((v - 64) * 120) / (191 - 64)
    else 200 + ((v - 192) * 55) / (255 - 192)
  }

  /** One table entry: capped at 255, then never darker than the input. */
  function CurveEntry(v: int): (r: int)
    requires 0 <= v < 256
    ensures v <= r <= 255
  {
    Max(v, Min(255, Segment(v)))
  }

  /** `create_contrast_curve` (gifall.py:16-29). */
  method CreateContrastCurve() returns (curve: seq<int>)
    ensures |curve| == 256
    ensures forall v :: 0 <= v < 256 ==> curve[v] == CurveEntry(v)
  {
    curve := [];
    var inputVal := 0;
    while inputVal < 256
      invariant 0 <= inputVal <= 256 && |curve| == inputVal
      invariant forall v :: 0 <= v < inputVal ==> curve[v] == CurveEntry(v)
    {
      var outputVal;
      if inputVal < 64 {
        outputVal := 10 + (inputVal * 70) / 63;
      } else if inputVal < 192 {
        outputVal := 80 + ((inputVal - 64) * 120) / (191 - 64);
      } else {
        outputVal := 200 + ((inputVal - 192) * 55) / (255 - 192);
      }
      outputVal := Min(255, outputVal);
      outputVal := Max(inputVal, outputVal);
      curve := curve + [outputVal];
      inputVal := inputVal + 1;
    }
  }

  lemma DivMonotone(a: int, b: int, d: int)
    requires 0 <= a <= b && d > 0
    ensures a / d <= b / d
  {
    var qa, qb := a / d, b / d;
    assert qa * d <= a;
    assert b < (qb + 1) * d;
  }

  lemma MulMonotone(a: int, b: int, c: int)
    requires 0 <= a <= b && c >= 0
    ensures a * c <= b * c
  {
  }

  /** Each piece rises with its input. */
  lemma SegmentMonotone(v: int, w: int)
    requires 0 <= v <= w < 256
    requires (v < 64) == (w < 64) && (v < 192) == (w < 192)
    ensures Segment(v) <= Segment(w)
  {
    if v < 64 {
      MulMonotone(v, w, 70);
      DivMonotone(v * 70, w * 70, 63);
    } else if v < 192 {
      MulMonotone(v - 64, w - 64, 120);
      DivMonotone((v - 64) * 120, (w - 64) * 120, 127);
    } else {
      MulMonotone(v - 192, w - 192, 55);
      DivMonotone((v - 192) * 55, (w - 192) * 55, 63);
    }
  }

  /** The pieces meet without a drop: 80 at 64, 200 at 192. */
  lemma SegmentJoins()
    ensures Segment(63) == 80 && Segment(64) == 80
    ensures Segment(191) == 200 && Segment(192) == 200
  {
  }

  /** The ends of the table: black lifts to 10 and white stays 255. */
  lemma CurveEnds()
    ensures CurveEntry(0) == 10 && CurveEntry(255) == 255
  {
  }

  /** The table never maps a brighter level below a darker one. */
  lemma CurveMonotone(v: int, w: int)
    requires 0 <= v <= w < 256
    ensures CurveEntry(v) <= CurveEntry(w)
  {
    if v < 64 && w >= 64 {
      SegmentMonotone(v, 63);
      SegmentJoins();
      if w < 192 {
        SegmentMonotone(64, w);
      } else {
        SegmentMonotone(192, w);
      }
    } else if v < 192 && w >= 192 {
      SegmentMonotone(v, 191);
      SegmentJoins();
      SegmentMonotone(192, w);
    } else {
      SegmentMonotone(v, w);
    }
  }

  /** `int(seconds)`: truncation toward zero. */
  function Trunc(r: real): (n: int)
    ensures r >= 0.0 ==> 0 <= n && n as real <= r < n as real + 1.0
    ensures r < 0.0 ==> n <= 0 && n as real - 1.0 < r <= n as real
  {
    if r >= 0.0 then r.Floor else -((-r).Floor)
  }

  /** The fields of gifall.py:143-145; Python's `//` and `%` floor, which
      for these positive divisors is the same as Dafny's division. */
  datatype Clock = Clock(hours: int, minutes: int, seconds: int)

  function TimeParts(n: int): (c: Clock)
  {
    Clock(n / 3600, (n % 3600) / 60, n % 60)
  }

  /** The fields recombine to the whole seconds, and minutes and seconds
      are proper clock fields; hours are never negative for a
      non-negative time. */
  lemma TimePartsSpec(n: int)
    ensures var c := TimeParts(n);
      c.hours * 3600 + c.minutes * 60 + c.seconds == n &&
      0 <= c.minutes < 60 && 0 <= c.seconds < 60 &&
      (n >= 0 ==> c.hours >= 0)
  {
    var r := n % 3600;
    assert n == (n / 3600) * 3600 + r;
    assert r == (r / 60) * 60 + r % 60;
    assert r % 60 == n % 60 by {
      assert n == ((n / 3600) * 60) * 60 + r;
    }
  }

  /** Decimal digits of a natural number, without leading zeros. */
  function Decimal(n: nat): (r: string)
    ensures |r| > 0 && forall i :: 0 <= i < |r| ==> '0' <= r[i] <= '9'
    decreases n
  {
    if n < 10 then [('0' as int + n) as char] else Decimal(n / 10) + [('0' as int + n % 10) as char]
  }

  /** Reads a non-empty string of decimal digits. */
  function ParseDecimal(s: string): (r: Option<nat>)
    decreases |s|
  {
    if s == [] then None
    else
      var c := s[|s| - 1];
      if !('0' <= c <= '9') then None
      else if |s| == 1 then Some(c as int - '0' as int)
      else
        var hi := ParseDecimal(s[..|s| - 1]);
        if hi.None? then None else Some(hi.value * 10 + (c as int - '0' as int))
  }

  lemma {:induction false} ParseDecimalOf(n: nat)
    ensures ParseDecimal(Decimal(n)) == Some(n)
    decreases n
  {
    var d := Decimal(n);
    if n >= 10 {
      ParseDecimalOf(n / 10);
      assert d[..|d| - 1] == Decimal(n / 10);
    }
  }

  /** `f"{n:02d}"`: zero-padded to two characters; a negative number keeps
      its sign, which already fills the width. */
  function Pad2(n: int): (r: string)
    ensures |r| >= 2
  {
    if n < 0 then "-" + Decimal(-n)
    else if n < 10 then "0" + Decimal(n)
    else Decimal(n)
  }

  /** A padded non-negative field is digits only and reads back as the
      number. */
  lemma Pad2Reads(n: int)
    requires n >= 0
    ensures ParseDecimal(Pad2(n)) == Some(n)
    ensures forall i :: 0 <= i < |Pad2(n)| ==> '0' <= Pad2(n)[i] <= '9'
    ensures n < 100 ==> |Pad2(n)| == 2
  {
    ParseDecimalOf(n);
    if n < 10 {
      var s := Pad2(n);
      assert s[..1] == "0";
    } else if n < 100 {
      assert |Decimal(n / 10)| == 1;
    }
  }

  /** The text for a whole number of seconds. */
  function FormatSeconds(n: int): string
  {
    var c := TimeParts(n);
    Pad2(c.hours) + ":" + Pad2(c.minutes) + ":" + Pad2(c.seconds)
  }

  /** `format_time` (gifall.py:141-146). */
  function FormatTime(seconds: real): string
  {
    FormatSeconds(Trunc(seconds))
  }

  /** The fields a reader gets back from a clock text. */
  predicate ReadsAs(fields: seq<string>, n: int, h: nat, m: nat, s: nat)
  {
    |fields| == 3 && m < 60 && s < 60 && h * 3600 + m * 60 + s == n &&
    ParseDecimal(fields[0]) == Some(h) && ParseDecimal(fields[1]) == Some(m) &&
    ParseDecimal(fields[2]) == Some(s)
  }

  /** For whole seconds `n >= 0` the text is three digit fields separated
      by `:`, minutes and seconds exactly two digits wide, that read back
      as hours, minutes and seconds summing to `n`. */
  lemma FormatSecondsReads(n: int)
    requires n >= 0
    ensures var fields := Hex.Split(FormatSeconds(n), ':');
      |fields| == 3 && |fields[0]| >= 2 && |fields[1]| == 2 && |fields[2]| == 2 &&
      exists h: nat, m: nat, s: nat :: ReadsAs(fields, n, h, m, s)
  {
    var c := TimeParts(n);
    TimePartsSpec(n);
    Pad2Reads(c.hours);
    Pad2Reads(c.minutes);
    Pad2Reads(c.seconds);
    var a, b, d := Pad2(c.hours), Pad2(c.minutes), Pad2(c.seconds);
    SplitThree(a, b, d, ':');
    assert FormatSeconds(n) == a + [':'] + b + [':'] + d;
    var h: nat, m: nat, sec: nat := c.hours, c.minutes, c.seconds;
    assert ReadsAs([a, b, d], n, h, m, sec);
  }

  /** `format_time` of an elapsed time reads back as its whole seconds. */
  lemma FormatTimeReads(seconds: real)
    requires seconds >= 0.0
    ensures var fields := Hex.Split(FormatTime(seconds), ':');
      |fields| == 3 && |fields[1]| == 2 && |fields[2]| == 2 &&
      exists h: nat, m: nat, s: nat :: ReadsAs(fields, Trunc(seconds), h, m, s)
  {
    FormatSecondsReads(Trunc(seconds));
  }

  lemma SplitThree(a: string, b: string, d: string, sep: char)
    requires sep !in a && sep !in b && sep !in d
    ensures Hex.Split(a + [sep] + b + [sep] + d, sep) == [a, b, d]
  {
    Hex.SplitNoSep(d, sep);
    Hex.SplitAtSep(b, sep, d);
    Hex.SplitAtSep(a, sep, b + [sep] + d);
    assert a + [sep] + b + [sep] + d == a + [sep] + (b + [sep] + d);
  }
}

/** The string side of the 3D emoji viewers, js/emojiobjs.js and
    js/emojiobjCC.js: a glyph's `U+XXXX` code sequence, the filter that
    drops the zero-width joiner and variation selector 16, the code display
    text, the model asset paths, and the bounded load-progress counter. */
module Viewer {
  import opened Wrappers
  import opened Hex

  /** `'U+' + c.codePointAt(0).toString(16).toUpperCase()`. */
  function CodeOf(c: char): string
  {
    "U+" + ToHex(c as int)
  }

  /** `getEmojiCodeSequence` (js/emojiobjs.js:155-157, js/emojiobjCC.js:39-41):
      one code per code point, in order. */
  function CodeSequence(g: string): (r: seq<string>)
    ensures |r| == |g|
    ensures forall i :: 0 <= i < |g| ==> r[i] == CodeOf(g[i])
  {
    seq(|g|, i requires 0 <= i < |g| => CodeOf(g[i]))
  }

  /** Every code is `U+` followed by hexadecimal digits that read back as
      the code point. */
  lemma CodeOfDecodes(c: char)
    ensures |CodeOf(c)| >= 3 && CodeOf(c)[..2] == "U+"
    ensures ParseHex(CodeOf(c)[2..]) == Some(c as int)
  {
    assert CodeOf(c)[2..] == ToHex(c as int);
    ParseToHex(c as int);
  }

  /** Different code points give different codes. */
  lemma CodeOfInjective(c: char, d: char)
    requires CodeOf(c) == CodeOf(d)
    ensures c == d
  {
    CodeOfDecodes(c);
    CodeOfDecodes(d);
  }

  /** The two entries every filter drops. */
  predicate Hidden(code: string)
  {
    code == "U+200D" || code == "U+FE0F"
  }

  /** `codes.filter(c => c !== 'U+200D' && c !== 'U+FE0F')`. */
  function Visible(codes: seq<string>): (r: seq<string>)
    ensures |r| <= |codes|
    ensures forall k :: 0 <= k < |r| ==> !Hidden(r[k])
    decreases |codes|
  {
    if codes == [] then []
    else
      var k := |codes| - 1;
      Visible(codes[..k]) + (if Hidden(codes[k]) then [] else [codes[k]])
  }

  /** A code survives exactly when it is present and not hidden. */
  lemma {:induction false} VisibleMembers(codes: seq<string>, x: string)
    ensures x in Visible(codes) <==> x in codes && !Hidden(x)
    decreases |codes|
  {
    if codes != [] {
      var k := |codes| - 1;
      VisibleMembers(codes[..k], x);
      assert codes == codes[..k] + [codes[k]];
    }
  }

  /** The filter works code by code, so it keeps the order. */
  lemma {:induction false} VisibleAppend(a: seq<string>, b: seq<string>)
    ensures Visible(a + b) == Visible(a) + Visible(b)
    decreases |b|
  {
    if b != [] {
      var k := |b| - 1;
      assert (a + b)[..|a + b| - 1] == a + b[..k];
      assert (a + b)[|a + b| - 1] == b[k];
      VisibleAppend(a, b[..k]);
      var tail := if Hidden(b[k]) then [] else [b[k]];
      assert Visible(a + b) == Visible(a) + Visible(b[..k]) + tail;
      assert Visible(b) == Visible(b[..k]) + tail;
    } else {
      assert a + b == a;
    }
  }

  /** A list without hidden codes passes unchanged. */
  lemma {:induction false} VisibleNoHidden(codes: seq<string>)
    requires forall k :: 0 <= k < |codes| ==> !Hidden(codes[k])
    ensures Visible(codes) == codes
    decreases |codes|
  {
    if codes != [] {
      var k := |codes| - 1;
      VisibleNoHidden(codes[..k]);
      assert codes == codes[..k] + [codes[k]];
    }
  }

  /** The zero-width joiner U+200D and variation selector 16 U+FE0F. */
  predicate Invisible(c: char)
  {
    c == '\U{200D}' || c == '\U{FE0F}'
  }

  lemma HexJoiner()
    ensures ToHex(0x200D) == "200D"
  {
    assert ToHex(0x200) == "200" by {
      assert ToHex(0x20) == "20" by {
        assert ToHex(0x2) == "2";
      }
    }
  }

  lemma HexSelector()
    ensures ToHex(0xFE0F) == "FE0F"
  {
    assert ToHex(0xFE0) == "FE0" by {
      assert ToHex(0xFE) == "FE" by {
        assert ToHex(0xF) == "F";
      }
    }
  }

  /** Only those two code points have a hidden code. */
  lemma HiddenCodeOf(c: char)
    ensures Hidden(CodeOf(c)) <==> Invisible(c)
  {
    HexJoiner();
    HexSelector();
    if Hidden(CodeOf(c)) {
      CodeOfDecodes(c);
      ParseToHex(0x200D);
      ParseToHex(0xFE0F);
      assert CodeOf(c)[2..] == "200D" || CodeOf(c)[2..] == "FE0F";
    }
  }

  /** The glyph without its joiners and selectors. */
  function Drop(g: string): (r: string)
    ensures forall i :: 0 <= i < |r| ==> !Invisible(r[i])
    decreases |g|
  {
    if g == [] then []
    else
      var k := |g| - 1;
      Drop(g[..k]) + (if Invisible(g[k]) then [] else [g[k]])
  }

  /** The visible codes of a glyph are the codes of its visible code
      points, in order. */
  lemma {:induction false} VisibleCodeSequence(g: string)
    ensures Visible(CodeSequence(g)) == CodeSequence(Drop(g))
    decreases |g|
  {
    if g != [] {
      var k := |g| - 1;
      VisibleCodeSequence(g[..k]);
      assert CodeSequence(g)[..k] == CodeSequence(g[..k]);
      HiddenCodeOf(g[k]);
      var tail: string := if Invisible(g[k]) then [] else [g[k]];
      assert CodeSequence(Drop(g[..k]) + tail) == CodeSequence(Drop(g[..k])) + CodeSequence(tail);
    }
  }

  /** The code display text of js/emojiobjs.js:540-543:
      `visibleCodes.join('_')`. */
  function CodeDisplay(g: string): string
  {
    Join(Visible(CodeSequence(g)), '_')
  }

  /** Splitting the display text on `_` gives the visible codes back. */
  lemma CodeDisplaySplits(g: string)
    requires Visible(CodeSequence(g)) != []
    ensures Split(CodeDisplay(g), '_') == Visible(CodeSequence(g))
  {
    var codes := Visible(CodeSequence(g));
    forall i | 0 <= i < |codes|
      ensures '_' !in codes[i]
    {
      VisibleMembers(CodeSequence(g), codes[i]);
      var j :| 0 <= j < |g| && CodeSequence(g)[j] == codes[i];
      var h := ToHex(g[j] as int);
      assert forall k :: 0 <= k < |h| ==> IsHexDigit(h[k]);
      assert codes[i] == "U+" + h;
    }
    SplitJoin(codes, '_');
  }

  /** The base directory of the model assets: the site prefix when served
      from the project's GitHub Pages host (js/emojiobjs.js:427-431), a
      relative directory otherwise and always in js/emojiobjCC.js. */
  const PagesBase: string := "/emoji/emoji_export/"
  const LocalBase: string := "../emoji_export/"

  function BasePath(onPages: bool): string
  {
    if onPages then PagesBase else LocalBase
  }

  /** The material and mesh paths loaded for one code. */
  datatype Request = Request(mtl: string, obj: string)

  /** `${base}${code}/${code}.mtl` and `.obj`: both files sit in the
      directory named after the code, are named after it, and differ only in
      the extension. */
  function AssetPaths(base: string, code: string): (r: Request)
    ensures |r.mtl| == |r.obj| == |base| + 2 * |code| + 5
    ensures r.mtl[..|base|] == base && r.obj[..|base|] == base
    ensures r.mtl[|base|..|base| + |code| + 1] == code + "/"
    ensures r.mtl[..|r.mtl| - 4] == r.obj[..|r.obj| - 4] == base + code + "/" + code
    ensures r.mtl[|r.mtl| - 4..] == ".mtl" && r.obj[|r.obj| - 4..] == ".obj"
  {
    var stem := base + code + "/" + code;
    assert (stem + ".mtl")[..|base|] == base && (stem + ".obj")[..|base|] == base;
    assert (stem + ".mtl")[|base|..|base| + |code| + 1] == code + "/";
    Request(stem + ".mtl", stem + ".obj")
  }

  /** The material and mesh paths formed for a filtered list, one pair per
      code, in order. The mesh is requested only after its material has
      loaded. */
  function Requests(base: string, codes: seq<string>): (r: seq<Request>)
    ensures |r| == |codes|
    ensures forall i :: 0 <= i < |codes| ==> r[i] == AssetPaths(base, codes[i])
  {
    seq(|codes|, i requires 0 <= i < |codes| => AssetPaths(base, codes[i]))
  }

  lemma RequestsSnoc(base: string, codes: seq<string>, code: string)
    ensures Requests(base, codes + [code]) == Requests(base, codes) + [AssetPaths(base, code)]
  {
  }

  /** `loadEmojiSequence` of js/emojiobjCC.js:287-300: the path pairs it
      forms, none when no visible code remains. */
  function CcLoadRequests(codes: seq<string>): (r: seq<Request>)
    ensures r == [] <==> Visible(codes) == []
    ensures |r| == |Visible(codes)|
    ensures forall i :: 0 <= i < |r| ==> r[i].mtl == LocalBase + Visible(codes)[i] + "/" + Visible(codes)[i] + ".mtl"
  {
    Requests(LocalBase, Visible(codes))
  }

  /** `Math.min(completed + 1, total)`. */
  function Bump(completed: int, total: int): (r: int)
    requires 0 <= completed <= total
    ensures completed <= r <= total
    ensures r == completed <==> completed == total
  {
    if completed + 1 < total then completed + 1 else total
  }

  /** The counter after `k` completions. */
  function Steps(completed: int, total: int, k: nat): (r: int)
    requires 0 <= completed <= total
    decreases k
  {
    if k == 0 then completed else Steps(Bump(completed, total), total, k - 1)
  }

  /** After `k` increments the counter is `min(completed + k, total)`: it
      reaches the total after `total - completed` increments, and stays
      there. */
  lemma {:induction false} StepsReach(completed: int, total: int, k: nat)
    requires 0 <= completed <= total
    ensures Steps(completed, total, k) == if completed + k < total then completed + k else total
    decreases k
  {
    if k > 0 {
      StepsReach(Bump(completed, total), total, k - 1);
    }
  }

  /** `progressManager` (js/emojiobjs.js:69-118), without its display. */
  class ProgressManager {
    var total: int
    var completed: int

    ghost predicate Valid()
      reads this
    {
      0 <= completed <= total
    }

    constructor ()
      ensures Valid() && total == 0 && completed == 0
    {
      total, completed := 0, 0;
    }

    /** `init(codes)`: two expected reports, material and mesh, per code. */
    method Init(codes: seq<string>)
      modifies this
      ensures Valid()
      ensures total == 2 * |codes| && completed == 0
    {
      total := |codes| * 2;
      completed := 0;
    }

    /** `increment()`. */
    method Increment()
      requires Valid()
      modifies this
      ensures Valid()
      ensures total == old(total) && completed == Bump(old(completed), total)
    {
      completed := if completed + 1 < total then completed + 1 else total;
    }

    /** `reset()`. */
    method Reset()
      modifies this
      ensures Valid() && total == 0 && completed == 0
    {
      total := 0;
      completed := 0;
    }
  }

  /** `loadEmojiSequence` of js/emojiobjs.js:414-437: nothing happens when no
      visible code remains; otherwise the progress counter is set up for
      the filtered codes and the material and mesh paths are formed for
      each code. */
  method LoadEmojiSequence(pm: ProgressManager, codes: seq<string>, onPages: bool)
    returns (requests: seq<Request>)
    modifies pm
    ensures Visible(codes) != [] ==> pm.Valid()
    ensures Visible(codes) == [] ==> requests == [] && pm.total == old(pm.total) && pm.completed == old(pm.completed)
    ensures Visible(codes) != [] ==>
      pm.total == 2 * |Visible(codes)| && pm.completed == 0 &&
      requests == Requests(BasePath(onPages), Visible(codes))
  {
    var filtered := Visible(codes);
    if filtered == [] {
      return [];
    }
    pm.Init(filtered);
    requests := StartLoads(BasePath(onPages), filtered);
  }

  /** The `forEach` of js/emojiobjs.js:425-437: the material and mesh paths
      of each code, in order. */
  method StartLoads(base: string, codes: seq<string>) returns (requests: seq<Request>)
    ensures requests == Requests(base, codes)
  {
    requests := [];
    var i := 0;
    while i < |codes|
      invariant 0 <= i <= |codes|
      invariant requests == Requests(base, codes[..i])
    {
      assert codes[..i + 1] == codes[..i] + [codes[i]];
      RequestsSnoc(base, codes[..i], codes[i]);
      requests := requests + [AssetPaths(base, codes[i])];
      i := i + 1;
    }
    assert codes[..i] == codes;
  }
}

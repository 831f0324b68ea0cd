/** The element list of the 2D icon canvas, js/drawing.js: icon extraction
    from typed or pasted text, adding icons in a row, the topmost-element
    hit test and the mouse, wheel and key handlers that move, resize,
    delete and reorder elements. JavaScript strings are sequences of UTF-16
    code units, modelled as integers (the model does not bound them, and the
    pattern only ever matches units inside its own ranges); mouse coordinates
    and positions are reals. */
module Canvas {
  import opened Wrappers
  import opened Seqs

  predicate IsHigh(u: int) { 0xD800 <= u <= 0xDBFF }
  predicate IsLow(u: int) { 0xDC00 <= u <= 0xDFFF }

  /** `[☀-⛿️]`. */
  predicate IsSymbol(u: int) { (0x2600 <= u <= 0x26FF) || u == 0xFE0F }

  /** One match of the icon expression: a surrogate pair, or a single
      symbol unit. */
  predicate IsIcon(s: seq<int>)
  {
    (|s| == 2 && IsHigh(s[0]) && IsLow(s[1])) || (|s| == 1 && IsSymbol(s[0]))
  }

  /** The length of the match starting at `i`, 0 when there is none: the
      pair alternative is tried first. */
  function MatchLen(t: seq<int>, i: nat): (n: nat)
    requires i < |t|
    ensures n <= 2 && i + n <= |t|
    ensures n > 0 ==> IsIcon(t[i..i + n])
  {
    if IsHigh(t[i]) && i + 1 < |t| && IsLow(t[i + 1]) then 2
    else if IsSymbol(t[i]) then 1
    else 0
  }

  /** The global match scanning from `i`: after a match the scan resumes
      behind it, otherwise one unit further. */
  function ExtractFrom(t: seq<int>, i: nat): (r: seq<seq<int>>)
    requires i <= |t|
    ensures forall k :: 0 <= k < |r| ==> IsIcon(r[k])
    decreases |t| - i
  {
    if i == |t| then []
    else
      var n := MatchLen(t, i);
      if n == 0 then ExtractFrom(t, i + 1) else [t[i..i + n]] + ExtractFrom(t, i + n)
  }

  /** `extractIcons` (js/drawing.js:27-30): `text.match(emojiRegex) || []`. */
  function ExtractIcons(t: seq<int>): (r: seq<seq<int>>)
    ensures forall k :: 0 <= k < |r| ==> IsIcon(r[k])
  {
    ExtractFrom(t, 0)
  }

  /** Some match starts at `j` and spells `x`. */
  predicate Found(t: seq<int>, j: int, x: seq<int>)
  {
    0 <= j < |t| && MatchLen(t, j) > 0 && x == t[j..j + MatchLen(t, j)]
  }

  /** A match never starts on the second unit of a pair. */
  lemma NoMatchInsidePair(t: seq<int>, i: nat)
    requires i + 1 < |t| && MatchLen(t, i) == 2
    ensures MatchLen(t, i + 1) == 0
  {
  }

  /** The scan from `i` finds exactly the matches that start at or after
      `i`: none is skipped, because a match can never start inside an
      earlier one. */
  lemma {:induction false} ExtractFromMembers(t: seq<int>, i: nat, x: seq<int>)
    requires i <= |t|
    ensures x in ExtractFrom(t, i) <==> exists j :: i <= j && Found(t, j, x)
    decreases |t| - i
  {
    if i < |t| {
      var n := MatchLen(t, i);
      var next := if n == 0 then i + 1 else i + n;
      ExtractFromMembers(t, next, x);
      if exists j :: i <= j && Found(t, j, x) {
        var j :| i <= j && Found(t, j, x);
        if n == 2 && j == i + 1 {
          NoMatchInsidePair(t, i);
        }
        if j >= next {
          assert next <= j && Found(t, j, x);
        } else {
          assert j == i && x == t[i..i + n];
        }
      }
      if exists j :: next <= j && Found(t, j, x) {
        var j :| next <= j && Found(t, j, x);
        assert i <= j && Found(t, j, x);
      }
      if n > 0 && x == t[i..i + n] {
        assert Found(t, i, x);
      }
    }
  }

  /** An icon is in the result exactly when a match spelling it occurs. */
  lemma ExtractIconsMembers(t: seq<int>, x: seq<int>)
    ensures x in ExtractIcons(t) <==> exists j :: Found(t, j, x)
  {
    ExtractFromMembers(t, 0, x);
  }

  /** The empty result means that no unit starts a match. */
  lemma {:induction false} ExtractFromEmpty(t: seq<int>, i: nat)
    requires i <= |t|
    ensures ExtractFrom(t, i) == [] <==> forall j :: i <= j < |t| ==> MatchLen(t, j) == 0
    decreases |t| - i
  {
    if i < |t| {
      ExtractFromEmpty(t, i + 1);
    }
  }

  /** `match` returns `null` (and `extractIcons` `[]`) exactly when there
      is no match. */
  lemma ExtractIconsEmpty(t: seq<int>)
    ensures ExtractIcons(t) == [] <==> forall j :: 0 <= j < |t| ==> MatchLen(t, j) == 0
  {
    ExtractFromEmpty(t, 0);
  }

  /** The scan only looks forward, so it can start on a suffix. */
  lemma {:induction false} ExtractFromShift(t: seq<int>, i: nat)
    requires i <= |t|
    ensures ExtractFrom(t, i) == ExtractFrom(t[i..], 0)
    decreases |t| - i
  {
    if i < |t| {
      var u := t[i..];
      assert MatchLen(t, i) == MatchLen(u, 0);
      var n := MatchLen(t, i);
      if n == 0 {
        ExtractFromShift(t, i + 1);
        ExtractFromShift(u, 1);
        assert u[1..] == t[i + 1..];
      } else {
        ExtractFromShift(t, i + n);
        ExtractFromShift(u, n);
        assert u[n..] == t[i + n..];
        assert u[0..n] == t[i..i + n];
      }
    }
  }

  /** A text written as a row of icons gives back exactly that row. */
  lemma {:induction false} ExtractFlatten(icons: seq<seq<int>>)
    requires forall k :: 0 <= k < |icons| ==> IsIcon(icons[k])
    ensures ExtractIcons(Flatten(icons)) == icons
    decreases |icons|
  {
    if icons != [] {
      var x, rest := icons[0], icons[1..];
      assert icons == [x] + rest;
      FlattenCons(x, rest);
      var t := Flatten(icons);
      assert t == x + Flatten(rest);
      assert MatchLen(t, 0) == |x|;
      assert t[0..|x|] == x;
      ExtractFromShift(t, |x|);
      assert t[|x|..] == Flatten(rest);
      ExtractFlatten(rest);
    }
  }

  /** One drawn element: the icon, its centre, its font size and its
      rotation. */
  datatype Element = Element(glyph: seq<int>, x: real, y: real, size: int, rotation: real)

  const IconSize: int := 200
  const MinSize: int := 20
  const SizeStep: int := 6

  /** The element added for the `i`-th of `icons` when `before` elements
      already exist: `x` is computed with the live length, which has
      already grown by `i`. */
  function Placed(icon: seq<int>, before: nat, i: nat, height: int): Element
  {
    Element(icon, (60 + (before + i + i) * 70) as real, height as real / 2.0, IconSize, 0.0)
  }

  /** The elements one `addIcons` call appends. */
  function Batch(icons: seq<seq<int>>, before: nat, height: int): (r: seq<Element>)
    ensures |r| == |icons|
    ensures forall i :: 0 <= i < |icons| ==> r[i] == Placed(icons[i], before, i, height)
  {
    seq(|icons|, i requires 0 <= i < |icons| => Placed(icons[i], before, i, height))
  }

  function Abs(r: real): real { if r < 0.0 then -r else r }

  /** The hit box of js/drawing.js:97, 134 and 177. */
  predicate Hits(e: Element, mx: real, my: real)
  {
    Abs(mx - e.x) < e.size as real / 2.0 && Abs(my - e.y) < e.size as real / 2.0
  }

  /** The highest index below `n` whose element is hit. */
  function TopHit(els: seq<Element>, mx: real, my: real, n: nat): (r: Option<nat>)
    requires n <= |els|
    ensures r.Some? ==> r.value < n
  {
    if n == 0 then None
    else if Hits(els[n - 1], mx, my) then Some(n - 1)
    else TopHit(els, mx, my, n - 1)
  }

  /** The element found is hit and is the topmost one hit; `None` means
      none is hit. */
  lemma {:induction false} TopHitSpec(els: seq<Element>, mx: real, my: real, n: nat)
    requires n <= |els|
    ensures var r := TopHit(els, mx, my, n);
      (r.Some? ==> Hits(els[r.value], mx, my) &&
                   forall j :: r.value < j < n ==> !Hits(els[j], mx, my)) &&
      (r.None? ==> forall j :: 0 <= j < n ==> !Hits(els[j], mx, my))
  {
    if n > 0 && !Hits(els[n - 1], mx, my) {
      TopHitSpec(els, mx, my, n - 1);
    }
  }

  /** `splice(i, 1)`. */
  function RemoveAt<T>(s: seq<T>, i: nat): (r: seq<T>)
    requires i < |s|
    ensures |r| == |s| - 1
    ensures forall k :: 0 <= k < i ==> r[k] == s[k]
    ensures forall k :: i <= k < |r| ==> r[k] == s[k + 1]
  {
    s[..i] + s[i + 1..]
  }

  lemma RemoveAtMultiset<T>(s: seq<T>, i: nat)
    requires i < |s|
    ensures multiset(RemoveAt(s, i)) == multiset(s) - multiset{s[i]}
  {
    assert s == s[..i] + [s[i]] + s[i + 1..];
  }

  /** `const [x] = splice(i, 1); push(x)`. */
  function MoveToEnd<T>(s: seq<T>, i: nat): (r: seq<T>)
    requires i < |s|
    ensures |r| == |s| && r[|s| - 1] == s[i] && r[..|s| - 1] == RemoveAt(s, i)
  {
    RemoveAt(s, i) + [s[i]]
  }

  /** Bringing to the front only reorders. */
  lemma MoveToEndMultiset<T>(s: seq<T>, i: nat)
    requires i < |s|
    ensures multiset(MoveToEnd(s, i)) == multiset(s)
  {
    RemoveAtMultiset(s, i);
  }

  /** `el.size = Math.max(20, el.size + delta)`. */
  function Resize(e: Element, deltaY: real): (r: Element)
    ensures r.size >= MinSize
    ensures r.glyph == e.glyph && r.x == e.x && r.y == e.y && r.rotation == e.rotation
    ensures deltaY < 0.0 ==> r.size == if e.size + SizeStep < MinSize then MinSize else e.size + SizeStep
    ensures deltaY >= 0.0 ==> r.size == if e.size - SizeStep < MinSize then MinSize else e.size - SizeStep
  {
    var delta := if deltaY < 0.0 then SizeStep else -SizeStep;
    e.(size := if MinSize < e.size + delta then e.size + delta else MinSize)
  }

  /** The elements a paste writes into (js/drawing.js:204-206): the
      selection, then the dragged element when it is another one. */
  function PasteTargets(sel: Option<nat>, drag: Option<nat>): (r: seq<nat>)
  {
    (if sel.Some? then [sel.value] else []) + (if drag.Some? && drag != sel then [drag.value] else [])
  }

  /** Both indices are targets, each once, and nothing else is. */
  lemma PasteTargetsSpec(sel: Option<nat>, drag: Option<nat>)
    ensures var r := PasteTargets(sel, drag);
      NoDup(r) && (forall k :: 0 <= k < |r| ==> Some(r[k]) == sel || Some(r[k]) == drag) &&
      (sel.Some? ==> sel.value in r) && (drag.Some? ==> drag.value in r) &&
      (r == [] <==> sel.None? && drag.None?)
  {
  }

  /** The icons written in turn into the targets, the `i`-th into target
      `i % |targets|`; a target that names no element is skipped
      (js/drawing.js:208-212). */
  function Retarget(els: seq<Element>, icons: seq<seq<int>>, targets: seq<nat>): (r: seq<Element>)
    requires targets != []
    ensures |r| == |els|
    decreases |icons|
  {
    if icons == [] then els
    else
      var k := |icons| - 1;
      var r0 := Retarget(els, icons[..k], targets);
      var t := targets[k % |targets|];
      if t < |r0| then r0[t := r0[t].(glyph := icons[k])] else r0
  }

  /** The last of the first `n` icons that goes to target `m`. */
  function LastSlot(n: nat, p: nat, m: nat): (r: nat)
    requires m < p && m < n
    ensures m <= r < n && r % p == m
    ensures forall i :: r < i < n ==> i % p != m
  {
    if n - 1 == m then assert m % p == m; m
    else if (n - 1) % p == m then n - 1
    else LastSlot(n - 1, p, m)
  }

  /** A paste changes only glyphs, and only those of the targets. */
  lemma {:induction false} RetargetOthers(els: seq<Element>, icons: seq<seq<int>>, targets: seq<nat>, j: nat)
    requires targets != [] && j < |els|
    ensures Retarget(els, icons, targets)[j].(glyph := els[j].glyph) == els[j]
    ensures j !in targets ==> Retarget(els, icons, targets)[j] == els[j]
    decreases |icons|
  {
    if icons != [] {
      RetargetOthers(els, icons[..|icons| - 1], targets, j);
    }
  }

  /** Target `m` ends up showing the last icon dealt to it; with a single
      target that is the last icon pasted. */
  lemma {:induction false} RetargetGlyph(els: seq<Element>, icons: seq<seq<int>>, targets: seq<nat>, m: nat)
    requires NoDup(targets) && m < |targets| && m < |icons| && targets[m] < |els|
    ensures Retarget(els, icons, targets)[targets[m]].glyph == icons[LastSlot(|icons|, |targets|, m)]
    decreases |icons|
  {
    var k, p := |icons| - 1, |targets|;
    var slot := k % p;
    RetargetLast(els, icons, targets);
    if slot == m {
      assert LastSlot(|icons|, p, m) == k;
    } else {
      LastSlotSkip(k, p, m);
      var last := LastSlot(k, p, m);
      assert targets[slot] != targets[m];
      assert icons[..k][last] == icons[last];
      RetargetGlyph(els, icons[..k], targets, m);
    }
  }

  /** The last icon goes to target `(|icons| - 1) % |targets|`. */
  lemma RetargetLast(els: seq<Element>, icons: seq<seq<int>>, targets: seq<nat>)
    requires targets != [] && icons != []
    ensures var k := |icons| - 1;
      var r0 := Retarget(els, icons[..k], targets);
      var t := targets[k % |targets|];
      Retarget(els, icons, targets) == if t < |r0| then r0[t := r0[t].(glyph := icons[k])] else r0
  {
  }

  lemma LastSlotSkip(k: nat, p: nat, m: nat)
    requires m < p && m <= k && k % p != m
    ensures m < k && LastSlot(k + 1, p, m) == LastSlot(k, p, m)
  {
    if k < p {
      assert k % p == k;
    }
  }

  /** The canvas state: the module-level variables of js/drawing.js:4-8
      and the canvas height used for new elements. */
  class Board {
    var elements: seq<Element>
    var dragging: bool
    var dragIndex: Option<nat>
    var selectedIndex: Option<nat>
    var offsetX: real
    var offsetY: real
    var height: int

    /** The selection always names an element. */
    ghost predicate Valid()
      reads this
    {
      selectedIndex.Some? ==> selectedIndex.value < |elements|
    }

    constructor (h: int)
      ensures Valid()
      ensures elements == [] && !dragging && dragIndex.None? && selectedIndex.None?
      ensures offsetX == 0.0 && offsetY == 0.0 && height == h
    {
      elements, dragging, dragIndex, selectedIndex := [], false, None, None;
      offsetX, offsetY, height := 0.0, 0.0, h;
    }

    /** `addIcons` (js/drawing.js:33-42). */
    method AddIcons(icons: seq<seq<int>>)
      requires Valid()
      modifies this
      ensures Valid()
      ensures elements == old(elements) + Batch(icons, |old(elements)|, height)
      ensures dragging == old(dragging) && dragIndex == old(dragIndex) && selectedIndex == old(selectedIndex)
      ensures offsetX == old(offsetX) && offsetY == old(offsetY) && height == old(height)
    {
      var els := elements;
      var i := 0;
      while i < |icons|
        invariant 0 <= i <= |icons|
        invariant els == elements + Batch(icons[..i], |elements|, height)
      {
        assert icons[..i + 1][..i] == icons[..i];
        var e := Element(icons[i], (60 + (|els| + i) * 70) as real, height as real / 2.0, IconSize, 0.0);
        els := els + [e];
        i := i + 1;
      }
      assert icons[..i] == icons;
      elements := els;
    }

    /** The backward search loop shared by the mouse-down, wheel and
        double-click handlers (js/drawing.js:94-105, 131-140, 174-184). */
    method HitTest(mx: real, my: real) returns (r: Option<nat>)
      ensures r == TopHit(elements, mx, my, |elements|)
    {
      var i := |elements| - 1;
      while i >= 0
        invariant -1 <= i < |elements|
        invariant TopHit(elements, mx, my, |elements|) == TopHit(elements, mx, my, i + 1)
        decreases i + 1
      {
        if Hits(elements[i], mx, my) {
          return Some(i);
        }
        i := i - 1;
      }
      return None;
    }

    /** The mouse-down handler (js/drawing.js:88-108): select and start
        dragging the topmost element under the pointer, remembering the
        grab offset. A miss clears the selection but keeps `dragIndex`. */
    method MouseDown(mx: real, my: real)
      requires Valid()
      modifies this
      ensures Valid()
      ensures elements == old(elements) && height == old(height)
      ensures var hit := TopHit(elements, mx, my, |elements|);
        selectedIndex == hit && dragging == hit.Some? &&
        (hit.Some? ==> dragIndex == hit && offsetX == mx - elements[hit.value].x &&
                       offsetY == my - elements[hit.value].y) &&
        (hit.None? ==> dragIndex == old(dragIndex) && offsetX == old(offsetX) && offsetY == old(offsetY))
    {
      TopHitSpec(elements, mx, my, |elements|);
      selectedIndex := None;
      dragging := false;
      var hit := HitTest(mx, my);
      if hit.Some? {
        var i := hit.value;
        selectedIndex, dragIndex := Some(i), Some(i);
        offsetX, offsetY := mx - elements[i].x, my - elements[i].y;
        dragging := true;
      }
    }

    /** The mouse-move handler (js/drawing.js:111-117). A `dragIndex` that
        no longer names an element makes the assignment throw, which
        leaves everything as it was. */
    method MouseMove(mx: real, my: real)
      requires Valid()
      modifies this
      ensures Valid()
      ensures dragging == old(dragging) && dragIndex == old(dragIndex) && selectedIndex == old(selectedIndex)
      ensures offsetX == old(offsetX) && offsetY == old(offsetY) && height == old(height)
      ensures if dragging && dragIndex.Some? && dragIndex.value < |old(elements)| then
          elements == old(elements)[dragIndex.value :=
            old(elements)[dragIndex.value].(x := mx - offsetX, y := my - offsetY)]
        else elements == old(elements)
    {
      if !dragging || dragIndex.None? {
        return;
      }
      var d := dragIndex.value;
      if d >= |elements| {
        return;
      }
      elements := elements[d := elements[d].(x := mx - offsetX, y := my - offsetY)];
    }

    /** The mouse-up handler (js/drawing.js:120-123). */
    method MouseUp()
      requires Valid()
      modifies this
      ensures Valid()
      ensures !dragging && dragIndex.None?
      ensures elements == old(elements) && selectedIndex == old(selectedIndex)
      ensures offsetX == old(offsetX) && offsetY == old(offsetY) && height == old(height)
    {
      dragging := false;
      dragIndex := None;
    }

    /** The wheel handler (js/drawing.js:126-141): the topmost element under
        the pointer grows by 6 for an upward scroll, shrinks by 6 otherwise,
        and never drops below 20. */
    method Wheel(mx: real, my: real, deltaY: real)
      requires Valid()
      modifies this
      ensures Valid()
      ensures var hit := TopHit(old(elements), mx, my, |old(elements)|);
        elements == if hit.Some? then old(elements)[hit.value := Resize(old(elements)[hit.value], deltaY)]
                    else old(elements)
      ensures dragging == old(dragging) && dragIndex == old(dragIndex) && selectedIndex == old(selectedIndex)
      ensures offsetX == old(offsetX) && offsetY == old(offsetY) && height == old(height)
    {
      TopHitSpec(elements, mx, my, |elements|);
      var hit := HitTest(mx, my);
      if hit.Some? {
        var i := hit.value;
        elements := elements[i := Resize(elements[i], deltaY)];
      }
    }

    /** The key handler (js/drawing.js:144-167): Delete removes the selected
        element and clears the selection, Escape clears it, and the arrow
        keys rotate the selected element by `step` (π/18 in the script). */
    method KeyDown(key: string, step: real)
      requires Valid()
      modifies this
      ensures Valid()
      ensures dragging == old(dragging) && dragIndex == old(dragIndex)
      ensures offsetX == old(offsetX) && offsetY == old(offsetY) && height == old(height)
      ensures key == "Delete" && old(selectedIndex).Some? ==>
        elements == RemoveAt(old(elements), old(selectedIndex).value) && selectedIndex.None?
      ensures key == "Delete" && old(selectedIndex).None? ==> elements == old(elements) && selectedIndex.None?
      ensures key == "Escape" ==> elements == old(elements) && selectedIndex.None?
      ensures key != "Delete" && key != "Escape" && old(selectedIndex).Some? ==>
        var i := old(selectedIndex).value;
        var e := old(elements)[i];
        selectedIndex == old(selectedIndex) &&
        elements == if key == "ArrowLeft" then old(elements)[i := e.(rotation := e.rotation - step)]
                    else if key == "ArrowRight" then old(elements)[i := e.(rotation := e.rotation + step)]
                    else old(elements)
      ensures key != "Delete" && key != "Escape" && old(selectedIndex).None? ==>
        elements == old(elements) && selectedIndex.None?
    {
      if key == "Delete" && selectedIndex.Some? {
        elements := RemoveAt(elements, selectedIndex.value);
        selectedIndex := None;
      }
      if key == "Escape" {
        selectedIndex := None;
      }
      if selectedIndex.Some? {
        var i := selectedIndex.value;
        if key == "ArrowLeft" {
          elements := elements[i := elements[i].(rotation := elements[i].rotation - step)];
        }
        if key == "ArrowRight" {
          elements := elements[i := elements[i].(rotation := elements[i].rotation + step)];
        }
      }
    }

    /** The double-click handler (js/drawing.js:170-185): the topmost
        element under the pointer moves to the end of the list, drawn last
        and so on top, and becomes the selection. */
    method DoubleClick(mx: real, my: real)
      requires Valid()
      modifies this
      ensures Valid()
      ensures var hit := TopHit(old(elements), mx, my, |old(elements)|);
        (hit.Some? ==> elements == MoveToEnd(old(elements), hit.value) &&
                       selectedIndex == Some(|elements| - 1)) &&
        (hit.None? ==> elements == old(elements) && selectedIndex == old(selectedIndex))
      ensures dragging == old(dragging) && dragIndex == old(dragIndex)
      ensures offsetX == old(offsetX) && offsetY == old(offsetY) && height == old(height)
    {
      TopHitSpec(elements, mx, my, |elements|);
      var hit := HitTest(mx, my);
      if hit.Some? {
        elements := MoveToEnd(elements, hit.value);
        selectedIndex := Some(|elements| - 1);
      }
    }

    /** The paste button (js/drawing.js:188-226), with the clipboard text as
        a parameter (`None` when the clipboard cannot be read): the pasted
        icons replace the glyphs of the selected and dragged elements, or
        are added when there are none; no icon, no change. */
    method Paste(clipboard: Option<seq<int>>)
      requires Valid()
      modifies this
      ensures Valid()
      ensures clipboard.None? || ExtractIcons(clipboard.value) == [] ==> elements == old(elements)
      ensures clipboard.Some? && ExtractIcons(clipboard.value) != [] ==>
        var icons := ExtractIcons(clipboard.value);
        var targets := PasteTargets(old(selectedIndex), old(dragIndex));
        elements == if targets == [] then old(elements) + Batch(icons, |old(elements)|, height)
                    else Retarget(old(elements), icons, targets)
      ensures dragging == old(dragging) && dragIndex == old(dragIndex) && selectedIndex == old(selectedIndex)
      ensures offsetX == old(offsetX) && offsetY == old(offsetY) && height == old(height)
    {
      if clipboard.None? {
        return;
      }
      var icons := ExtractIcons(clipboard.value);
      if icons == [] {
        return;
      }
      var targets := PasteTargets(selectedIndex, dragIndex);
      if targets == [] {
        AddIcons(icons);
        return;
      }
      var els := elements;
      var i := 0;
      while i < |icons|
        invariant 0 <= i <= |icons|
        invariant els == Retarget(elements, icons[..i], targets)
      {
        assert icons[..i + 1][..i] == icons[..i];
        var t := targets[i % |targets|];
        if t < |els| {
          els := els[t := els[t].(glyph := icons[i])];
        }
        i := i + 1;
      }
      assert icons[..i] == icons;
      elements := els;
    }
  }

  /** The x positions of a batch step by two slots of 70 pixels, because
      each position uses the list length after the earlier pushes. */
  lemma PlacedSpacing(icon: seq<int>, icon': seq<int>, before: nat, i: nat, height: int)
    ensures Placed(icon', before, i + 1, height).x - Placed(icon, before, i, height).x == 140.0
  {
  }
}

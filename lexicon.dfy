/** The lexicon index: glyph identifiers, the keyword index and the
    code-to-glyph map built by `init` (emoji_core.py, emoji_core_old.py)
    and `load_emoji_data` (GiftoMp4.py). The parsed JSON object is an input:
    its items, in file order. */
module Lexicon {
  import opened Wrappers
  import opened Seqs
  import opened Strings
  import opened Hex

  type Code = string

  /** One item of the lexicon JSON: a glyph and its keyword list. */
  datatype Entry = Entry(glyph: string, keywords: seq<string>)

  /** `[hex(ord(c))[2:].upper() for c in glyph]`. */
  function CodePointHexes(g: string): (r: seq<string>)
    ensures |r| == |g|
    ensures forall i :: 0 <= i < |g| ==> r[i] == ToHex(g[i] as int)
  {
    seq(|g|, i requires 0 <= i < |g| => ToHex(g[i] as int))
  }

  /** The identifier of a glyph, `'-'.join(code_points)`. */
  function EmojiCode(g: string): (id: Code)
  {
    Join(CodePointHexes(g), '-')
  }

  lemma {:induction false} JoinStartsWithFirst(parts: seq<string>, sep: char)
    requires |parts| > 0
    ensures parts[0] <= Join(parts, sep)
  {
  }

  /** Splitting an identifier on `-` and reading each piece as hexadecimal
      gives back exactly the glyph's code points, in order. */
  lemma EmojiCodeDecodes(g: string)
    requires g != []
    ensures |Split(EmojiCode(g), '-')| == |g|
    ensures forall i :: 0 <= i < |g| ==> ParseHex(Split(EmojiCode(g), '-')[i]) == Some(g[i] as int)
  {
    var parts := CodePointHexes(g);
    forall i | 0 <= i < |parts|
      ensures '-' !in parts[i]
    {
      HexHasNoDash(g[i] as int);
    }
    SplitJoin(parts, '-');
    forall i | 0 <= i < |g|
      ensures ParseHex(parts[i]) == Some(g[i] as int)
    {
      ParseToHex(g[i] as int);
    }
  }

  /** The identifier determines the glyph. */
  lemma EmojiCodeInjective(g1: string, g2: string)
    requires EmojiCode(g1) == EmojiCode(g2)
    ensures g1 == g2
  {
    if g1 != [] && g2 != [] {
      EmojiCodeDecodes(g1);
      EmojiCodeDecodes(g2);
      assert |g1| == |g2|;
      forall i | 0 <= i < |g1|
        ensures g1[i] == g2[i]
      {
        assert Some(g1[i] as int) == Some(g2[i] as int);
      }
    } else if g1 != [] {
      JoinStartsWithFirst(CodePointHexes(g1), '-');
    } else if g2 != [] {
      JoinStartsWithFirst(CodePointHexes(g2), '-');
    }
  }

  lemma {:induction false} JoinHexChars(parts: seq<string>)
    requires forall i, m :: 0 <= i < |parts| && 0 <= m < |parts[i]| ==> IsHexDigit(parts[i][m])
    ensures forall m :: 0 <= m < |Join(parts, '-')| ==> IsHexDigit(Join(parts, '-')[m]) || Join(parts, '-')[m] == '-'
    decreases |parts|
  {
    if |parts| > 1 {
      JoinHexChars(parts[1..]);
      assert forall i, m :: 0 <= i < |parts[1..]| && 0 <= m < |parts[1..][i]| ==> parts[1..][i][m] == parts[i + 1][m];
      var r := Join(parts[1..], '-');
      var j := Join(parts, '-');
      assert j == parts[0] + ['-'] + r;
      forall m | 0 <= m < |j|
        ensures IsHexDigit(j[m]) || j[m] == '-'
      {
        if m < |parts[0]| {
          assert j[m] == parts[0][m];
        } else if m > |parts[0]| {
          assert j[m] == r[m - |parts[0]| - 1];
        }
      }
    } else if |parts| == 1 {
      assert forall m :: 0 <= m < |parts[0]| ==> IsHexDigit(parts[0][m]);
    }
  }

  /** An identifier is made of upper-case hexadecimal digits and `-`. */
  lemma EmojiCodeChars(g: string)
    ensures forall m :: 0 <= m < |EmojiCode(g)| ==> IsHexDigit(EmojiCode(g)[m]) || EmojiCode(g)[m] == '-'
  {
    var parts := CodePointHexes(g);
    assert forall i :: 0 <= i < |parts| ==> parts[i] == ToHex(g[i] as int);
    JoinHexChars(parts);
  }

  /** The keyword index, a `defaultdict(list)`: keys in insertion order
      and, per key, the identifiers appended to its bucket. */
  datatype Index = Index(keys: seq<string>, buckets: map<string, seq<Code>>)

  predicate ValidIndex(idx: Index)
  {
    NoDup(idx.keys) && idx.buckets.Keys == Elems(idx.keys) &&
    forall k :: k in idx.buckets ==> idx.buckets[k] != []
  }

  /** `index[key].append(code)`. */
  function Append(idx: Index, key: string, code: Code): (r: Index)
    ensures ValidIndex(idx) ==> ValidIndex(r)
  {
    if key in idx.buckets then Index(idx.keys, idx.buckets[key := idx.buckets[key] + [code]])
    else Index(idx.keys + [key], idx.buckets[key := [code]])
  }

  /** A keyword is indexed unless it is empty and empty keywords are
      skipped (emoji_core.py:55 skips them; emoji_core_old.py:64-65 and
      GiftoMp4.py:75-76 do not). */
  predicate Indexed(k: string, skipEmpty: bool)
  {
    !(skipEmpty && k == [])
  }

  /** The appends one glyph contributes, in keyword order. */
  function KeywordAppends(kws: seq<string>, code: Code, skipEmpty: bool): (r: seq<(string, Code)>)
    decreases |kws|
  {
    if kws == [] then []
    else
      var prev := KeywordAppends(kws[..|kws| - 1], code, skipEmpty);
      var k := kws[|kws| - 1];
      if Indexed(k, skipEmpty) then prev + [(Lower(k), code)] else prev
  }

  /** The appends the whole lexicon contributes, in file order. */
  function Appends(data: seq<Entry>, skipEmpty: bool): (r: seq<(string, Code)>)
    decreases |data|
  {
    if data == [] then []
    else
      var e := data[|data| - 1];
      Appends(data[..|data| - 1], skipEmpty) + KeywordAppends(e.keywords, EmojiCode(e.glyph), skipEmpty)
  }

  /** The index a sequence of appends leaves behind. */
  function Insert(ps: seq<(string, Code)>): (r: Index)
    decreases |ps|
  {
    if ps == [] then Index([], map[])
    else Append(Insert(ps[..|ps| - 1]), ps[|ps| - 1].0, ps[|ps| - 1].1)
  }

  function KeysOf(ps: seq<(string, Code)>): (r: seq<string>)
    ensures |r| == |ps| && forall i :: 0 <= i < |ps| ==> r[i] == ps[i].0
  {
    seq(|ps|, i requires 0 <= i < |ps| => ps[i].0)
  }

  /** The identifiers appended under `key`, in order. */
  function CodesFor(ps: seq<(string, Code)>, key: string): (r: seq<Code>)
    decreases |ps|
  {
    if ps == [] then []
    else
      var p := ps[|ps| - 1];
      CodesFor(ps[..|ps| - 1], key) + (if p.0 == key then [p.1] else [])
  }

  lemma {:induction false} CodesForMembers(ps: seq<(string, Code)>, key: string)
    ensures forall c :: c in CodesFor(ps, key) <==> (key, c) in ps
    decreases |ps|
  {
    if ps != [] {
      var ps' := ps[..|ps| - 1];
      CodesForMembers(ps', key);
      assert ps == ps' + [ps[|ps| - 1]];
    }
  }

  /** The index built from a list of appends: its keys are the distinct
      keys in first-appearance order, and each bucket holds exactly the
      identifiers appended under its key, in order. */
  lemma {:induction false} InsertShape(ps: seq<(string, Code)>)
    ensures ValidIndex(Insert(ps))
    ensures Insert(ps).keys == Dedup(KeysOf(ps))
    ensures forall key :: key in Insert(ps).buckets ==> Insert(ps).buckets[key] == CodesFor(ps, key)
    ensures forall key :: key !in Insert(ps).buckets ==> CodesFor(ps, key) == []
    decreases |ps|
  {
    if ps != [] {
      var ps' := ps[..|ps| - 1];
      InsertShape(ps');
      assert KeysOf(ps)[..|ps| - 1] == KeysOf(ps');
      var p := ps[|ps| - 1];
      DedupSpec(KeysOf(ps'));
      assert p.0 in Insert(ps').buckets <==> p.0 in Dedup(KeysOf(ps'));
    }
  }

  lemma {:induction false} KeywordAppendsMembers(kws: seq<string>, code: Code, skipEmpty: bool, p: (string, Code))
    ensures p in KeywordAppends(kws, code, skipEmpty) <==>
      p.1 == code && exists j :: 0 <= j < |kws| && Indexed(kws[j], skipEmpty) && Lower(kws[j]) == p.0
    decreases |kws|
  {
    if kws != [] {
      var kws' := kws[..|kws| - 1];
      KeywordAppendsMembers(kws', code, skipEmpty, p);
      if p.1 == code && exists j :: 0 <= j < |kws| && Indexed(kws[j], skipEmpty) && Lower(kws[j]) == p.0 {
        var j :| 0 <= j < |kws| && Indexed(kws[j], skipEmpty) && Lower(kws[j]) == p.0;
        if j < |kws| - 1 {
          assert kws'[j] == kws[j];
        }
      }
    }
  }

  /** Glyph `n` of the lexicon has an indexed keyword `j` that lower-cases to
      `key`, and its identifier is `code`. */
  predicate Source(data: seq<Entry>, skipEmpty: bool, n: int, j: int, key: string, code: Code)
  {
    0 <= n < |data| && 0 <= j < |data[n].keywords| &&
    Indexed(data[n].keywords[j], skipEmpty) && Lower(data[n].keywords[j]) == key &&
    EmojiCode(data[n].glyph) == code
  }

  /** An append `(key, code)` happens exactly when some glyph with identifier
      `code` has an indexed keyword that lower-cases to `key`. */
  lemma {:induction false} AppendsMembers(data: seq<Entry>, skipEmpty: bool, p: (string, Code))
    ensures p in Appends(data, skipEmpty) <==>
      exists n, j :: Source(data, skipEmpty, n, j, p.0, p.1)
    decreases |data|
  {
    if data != [] {
      var data' := data[..|data| - 1];
      var e := data[|data| - 1];
      AppendsMembers(data', skipEmpty, p);
      KeywordAppendsMembers(e.keywords, EmojiCode(e.glyph), skipEmpty, p);
      if p in Appends(data, skipEmpty) {
        if p in Appends(data', skipEmpty) {
          var n, j :| Source(data', skipEmpty, n, j, p.0, p.1);
          assert data[n] == data'[n];
          assert Source(data, skipEmpty, n, j, p.0, p.1);
        } else {
          var j :| 0 <= j < |e.keywords| && Indexed(e.keywords[j], skipEmpty) && Lower(e.keywords[j]) == p.0;
          assert Source(data, skipEmpty, |data| - 1, j, p.0, p.1);
        }
      }
      if exists n, j :: Source(data, skipEmpty, n, j, p.0, p.1)
      {
        var n, j :| Source(data, skipEmpty, n, j, p.0, p.1);
        if n < |data| - 1 {
          assert data'[n] == data[n];
          assert Source(data', skipEmpty, n, j, p.0, p.1);
        } else {
          assert 0 <= j < |e.keywords| && Indexed(e.keywords[j], skipEmpty) && Lower(e.keywords[j]) == p.0;
        }
      }
    }
  }

  /** `emoji_code_to_char`, filled in file order (the last writer wins). */
  function CodeMap(data: seq<Entry>): (m: map<Code, string>)
    decreases |data|
  {
    if data == [] then map[]
    else
      var e := data[|data| - 1];
      CodeMap(data[..|data| - 1])[EmojiCode(e.glyph) := e.glyph]
  }

  /** Every glyph of the lexicon is found again under its identifier, and
      every entry of the map is a glyph under its own identifier. */
  lemma {:induction false} CodeMapInverts(data: seq<Entry>)
    ensures forall n :: 0 <= n < |data| ==>
      EmojiCode(data[n].glyph) in CodeMap(data) && CodeMap(data)[EmojiCode(data[n].glyph)] == data[n].glyph
    ensures forall id :: id in CodeMap(data) ==> EmojiCode(CodeMap(data)[id]) == id
    decreases |data|
  {
    if data != [] {
      var data' := data[..|data| - 1];
      CodeMapInverts(data');
      var e := data[|data| - 1];
      forall n | 0 <= n < |data|
        ensures CodeMap(data)[EmojiCode(data[n].glyph)] == data[n].glyph
      {
        if n < |data| - 1 {
          assert data'[n] == data[n];
          if EmojiCode(data[n].glyph) == EmojiCode(e.glyph) {
            EmojiCodeInjective(data[n].glyph, e.glyph);
          }
        }
      }
    }
  }

  lemma KeywordAppendsStep(kws: seq<string>, j: nat, code: Code, skipEmpty: bool)
    requires j < |kws|
    ensures KeywordAppends(kws[..j + 1], code, skipEmpty) ==
      KeywordAppends(kws[..j], code, skipEmpty) + (if Indexed(kws[j], skipEmpty) then [(Lower(kws[j]), code)] else [])
  {
    assert kws[..j + 1][..j] == kws[..j];
  }

  lemma AppendsStep(data: seq<Entry>, n: nat, skipEmpty: bool)
    requires n < |data|
    ensures Appends(data[..n + 1], skipEmpty) ==
      Appends(data[..n], skipEmpty) + KeywordAppends(data[n].keywords, EmojiCode(data[n].glyph), skipEmpty)
    ensures CodeMap(data[..n + 1]) == CodeMap(data[..n])[EmojiCode(data[n].glyph) := data[n].glyph]
  {
    assert data[..n + 1][..n] == data[..n];
  }

  lemma InsertSnoc(ps: seq<(string, Code)>, p: (string, Code))
    ensures Insert(ps + [p]) == Append(Insert(ps), p.0, p.1)
  {
    assert (ps + [p])[..|ps|] == ps;
  }

  /** The inner loop of index building: append `code` under each indexed
      keyword of one glyph, in keyword order. */
  method AddKeywords(idx: Index, kws: seq<string>, code: Code, skipEmpty: bool, ghost before: seq<(string, Code)>)
    returns (idx': Index)
    requires idx == Insert(before)
    ensures idx' == Insert(before + KeywordAppends(kws, code, skipEmpty))
  {
    idx' := idx;
    var j := 0;
    assert kws[..0] == [] && before + [] == before;
    while j < |kws|
      invariant 0 <= j <= |kws|
      invariant idx' == Insert(before + KeywordAppends(kws[..j], code, skipEmpty))
    {
      var k := kws[j];
      ghost var done := before + KeywordAppends(kws[..j], code, skipEmpty);
      KeywordAppendsStep(kws, j, code, skipEmpty);
      if Indexed(k, skipEmpty) {
        InsertSnoc(done, (Lower(k), code));
        assert before + KeywordAppends(kws[..j + 1], code, skipEmpty) == done + [(Lower(k), code)];
        idx' := Append(idx', Lower(k), code);
      } else {
        assert before + KeywordAppends(kws[..j + 1], code, skipEmpty) == done;
      }
      j := j + 1;
    }
    assert kws[..j] == kws;
  }

  /** Index building (emoji_core.py:46-56, emoji_core_old.py:51-65,
      GiftoMp4.py:61-76): for each glyph in file order, compute its
      identifier, record it in the identifier map, then append it to the
      bucket of each of its (lower-cased) keywords. */
  method BuildIndex(data: seq<Entry>, skipEmpty: bool) returns (idx: Index, codeToChar: map<Code, string>)
    ensures idx == Insert(Appends(data, skipEmpty)) && ValidIndex(idx)
    ensures codeToChar == CodeMap(data)
    ensures forall n, j :: 0 <= n < |data| && 0 <= j < |data[n].keywords| && Indexed(data[n].keywords[j], skipEmpty) ==>
      Lower(data[n].keywords[j]) in idx.buckets && EmojiCode(data[n].glyph) in idx.buckets[Lower(data[n].keywords[j])]
    ensures forall n :: 0 <= n < |data| ==>
      EmojiCode(data[n].glyph) in codeToChar && codeToChar[EmojiCode(data[n].glyph)] == data[n].glyph
  {
    idx := Index([], map[]);
    codeToChar := map[];
    var n := 0;
    while n < |data|
      invariant 0 <= n <= |data|
      invariant idx == Insert(Appends(data[..n], skipEmpty))
      invariant codeToChar == CodeMap(data[..n])
    {
      var e := data[n];
      var code := EmojiCode(e.glyph);
      codeToChar := codeToChar[code := e.glyph];
      idx := AddKeywords(idx, e.keywords, code, skipEmpty, Appends(data[..n], skipEmpty));
      AppendsStep(data, n, skipEmpty);
      n := n + 1;
    }
    assert data[..n] == data;
    InsertShape(Appends(data, skipEmpty));
    CodeMapInverts(data);
    forall n, j | 0 <= n < |data| && 0 <= j < |data[n].keywords| && Indexed(data[n].keywords[j], skipEmpty)
      ensures Lower(data[n].keywords[j]) in idx.buckets && EmojiCode(data[n].glyph) in idx.buckets[Lower(data[n].keywords[j])]
    {
      BuildComplete(data, skipEmpty, n, j);
    }
  }

  /** Completeness of the index: every indexed keyword `k` of every glyph
      `g` has `EmojiCode(g)` in the bucket of `Lower(k)`. */
  lemma BuildComplete(data: seq<Entry>, skipEmpty: bool, n: nat, j: nat)
    requires n < |data| && j < |data[n].keywords|
    requires Indexed(data[n].keywords[j], skipEmpty)
    ensures var idx := Insert(Appends(data, skipEmpty));
      Lower(data[n].keywords[j]) in idx.buckets &&
      EmojiCode(data[n].glyph) in idx.buckets[Lower(data[n].keywords[j])]
  {
    var ps := Appends(data, skipEmpty);
    var p := (Lower(data[n].keywords[j]), EmojiCode(data[n].glyph));
    assert Source(data, skipEmpty, n, j, p.0, p.1);
    AppendsMembers(data, skipEmpty, p);
    InsertShape(ps);
    CodesForMembers(ps, p.0);
  }

  /** Soundness of the index: an identifier is in a bucket only because a
      glyph with that identifier has an indexed keyword with that key. */
  lemma BuildSound(data: seq<Entry>, skipEmpty: bool, key: string, code: Code)
    requires key in Insert(Appends(data, skipEmpty)).buckets
    requires code in Insert(Appends(data, skipEmpty)).buckets[key]
    ensures exists n, j :: Source(data, skipEmpty, n, j, key, code)
  {
    var ps := Appends(data, skipEmpty);
    InsertShape(ps);
    CodesForMembers(ps, key);
    AppendsMembers(data, skipEmpty, (key, code));
  }

  /** When empty keywords are skipped (emoji_core.py) the empty key is never
      created; otherwise (emoji_core_old.py, GiftoMp4.py) an empty keyword
      indexes its glyph under `""`. */
  lemma EmptyKeyword(data: seq<Entry>, skipEmpty: bool)
    ensures skipEmpty ==> [] !in Insert(Appends(data, skipEmpty)).buckets
    ensures (exists n :: 0 <= n < |data| && [] in data[n].keywords) && !skipEmpty ==>
      [] in Insert(Appends(data, skipEmpty)).buckets
  {
    var idx := Insert(Appends(data, skipEmpty));
    if skipEmpty {
      InsertShape(Appends(data, skipEmpty));
      forall key | key in idx.buckets
        ensures key != []
      {
        BuildSound(data, skipEmpty, key, idx.buckets[key][0]);
        var n, j :| Source(data, skipEmpty, n, j, key, idx.buckets[key][0]);
      }
    }
    if !skipEmpty && exists n :: 0 <= n < |data| && [] in data[n].keywords {
      var n :| 0 <= n < |data| && [] in data[n].keywords;
      var j :| 0 <= j < |data[n].keywords| && data[n].keywords[j] == [];
      BuildComplete(data, skipEmpty, n, j);
    }
  }
}

/** The data side of the desktop front end, emoji_video_maker_gui.py: the
    safe output file name, the per-word character counts, and the
    per-word emoji selection kept in step with the check state of the emoji
    buttons and of each word's "clear" button. Qt widgets become boolean
    check states; a `clicked` signal of a checkable button is delivered
    after the button has toggled, so each click handler first flips the
    state it is attached to. */
module GuiSelection {
  import opened Wrappers
  import opened Seqs
  import opened Lexicon
  import SequenceBuilder

  /** The characters the file-name substitution deletes: backslash, slash,
      star, question mark, colon, double quote, angle brackets and bar. */
  const Forbidden: set<char> := {'\\', '/', '*', '?', ':', '"', '<', '>', '|'}

  /** `self.fixed_output_dir`. */
  const OutputDir: string := "Z:\\2025\\1120-hanshi\\gif"

  /** The name used when nothing of the text survives. */
  const DefaultName: string := "output"

  /** The substitution itself: every forbidden character is deleted. */
  function RemoveForbidden(s: string): (r: string)
    ensures |r| <= |s|
    ensures forall i :: 0 <= i < |r| ==> r[i] !in Forbidden
    decreases |s|
  {
    if s == [] then []
    else
      var c := s[|s| - 1];
      RemoveForbidden(s[..|s| - 1]) + (if c in Forbidden then [] else [c])
  }

  /** The deletion keeps exactly the permitted characters. */
  lemma {:induction false} RemoveForbiddenMembers(s: string, c: char)
    ensures c in RemoveForbidden(s) <==> c in s && c !in Forbidden
    decreases |s|
  {
    if s != [] {
      var s' := s[..|s| - 1];
      RemoveForbiddenMembers(s', c);
      assert s == s' + [s[|s| - 1]];
    }
  }

  /** A text without forbidden characters is left as it is. */
  lemma {:induction false} RemoveForbiddenKeeps(s: string)
    requires forall i :: 0 <= i < |s| ==> s[i] !in Forbidden
    ensures RemoveForbidden(s) == s
    decreases |s|
  {
    if s != [] {
      RemoveForbiddenKeeps(s[..|s| - 1]);
    }
  }

  /** `s[:n]`. */
  function Head(s: string, n: nat): string
  {
    if |s| <= n then s else s[..n]
  }

  /** `safe_text` (emoji_video_maker_gui.py:70-72 and 466-468). */
  function SafeText(text: string): (r: string)
    ensures r != []
    ensures |r| <= 5 || r == DefaultName
    ensures forall i :: 0 <= i < |r| ==> r[i] !in Forbidden
  {
    var t := RemoveForbidden(Head(text, 5));
    if t == [] then DefaultName else t
  }

  /** The default name is used exactly when each of the first five
      characters is forbidden; otherwise the name is what remains of them. */
  lemma SafeTextCases(text: string)
    ensures SafeText(text) == DefaultName <==>
      forall i :: 0 <= i < |Head(text, 5)| ==> Head(text, 5)[i] in Forbidden
    ensures SafeText(text) != DefaultName ==> SafeText(text) == RemoveForbidden(Head(text, 5))
  {
    var h := Head(text, 5);
    var t := RemoveForbidden(h);
    if exists i :: 0 <= i < |h| && h[i] !in Forbidden {
      var i :| 0 <= i < |h| && h[i] !in Forbidden;
      RemoveForbiddenMembers(h, h[i]);
    } else if t != [] {
      RemoveForbiddenMembers(h, t[0]);
    }
  }

  /** A text whose first five characters are all permitted names the file
      by those characters. */
  lemma SafeTextPlain(text: string)
    requires text != []
    requires forall i :: 0 <= i < |Head(text, 5)| ==> Head(text, 5)[i] !in Forbidden
    ensures SafeText(text) == Head(text, 5)
  {
    RemoveForbiddenKeeps(Head(text, 5));
  }

  /** `os.path.join(self.fixed_output_dir, f"{safe_text}.mp4")`, with `sep`
      the platform's `os.sep`. */
  function OutputPath(text: string, sep: char): string
  {
    OutputDir + [sep] + SafeText(text) + ".mp4"
  }

  /** The file lands directly in the output directory: nothing after the
      directory's separator is a path separator, and the name ends in
      `.mp4`. */
  lemma OutputPathShape(text: string, sep: char)
    requires sep == '/' || sep == '\\'
    ensures var p := OutputPath(text, sep);
      |p| > |OutputDir| + 4 && p[..|OutputDir| + 1] == OutputDir + [sep] &&
      p[|p| - 4..] == ".mp4" &&
      forall i :: |OutputDir| < i < |p| ==> p[i] != '/' && p[i] != '\\'
  {
    var p := OutputPath(text, sep);
    var s := SafeText(text);
    assert p == (OutputDir + [sep]) + (s + ".mp4");
    forall i | |OutputDir| < i < |p|
      ensures p[i] != '/' && p[i] != '\\'
    {
      var k := i - |OutputDir| - 1;
      if k < |s| {
        assert p[i] == s[k];
      } else {
        assert p[i] == ".mp4"[k - |s|];
      }
    }
  }

  /** `word_char_counts = [len(word) for word in words]`
      (emoji_video_maker_gui.py:43). */
  function CharCounts(words: seq<string>): (r: seq<int>)
    ensures |r| == |words| && forall i :: 0 <= i < |words| ==> r[i] == |words[i]|
  {
    seq(|words|, i requires 0 <= i < |words| => |words[i]|)
  }

  /** `total_char_count = sum(word_char_counts)` is the length of the text
      the words spell (emoji_video_maker_gui.py:44). */
  lemma {:induction false} TotalChars(words: seq<string>)
    ensures SequenceBuilder.Sum(CharCounts(words)) == |Flatten(words)|
    decreases |words|
  {
    if words != [] {
      var w := words[..|words| - 1];
      TotalChars(w);
      assert CharCounts(words)[..|words| - 1] == CharCounts(w);
    }
  }

  /** The position of the first occurrence of `x`. */
  function FirstIndex(s: seq<Code>, x: Code): (i: nat)
    requires x in s
    ensures i < |s| && s[i] == x && forall j :: 0 <= j < i ==> s[j] != x
  {
    if s[0] == x then 0
    else
      var i := 1 + FirstIndex(s[1..], x);
      assert forall j :: 1 <= j < |s| ==> s[j] == s[1..][j - 1];
      i
  }

  /** `if x in lst: lst.remove(x)`: deletes the first occurrence, if any. */
  function RemoveFirst(s: seq<Code>, x: Code): seq<Code>
  {
    if x in s then s[..FirstIndex(s, x)] + s[FirstIndex(s, x) + 1..] else s
  }

  /** Removing an occurrence takes one copy out of the multiset; without
      one nothing changes. */
  lemma RemoveFirstMultiset(s: seq<Code>, x: Code)
    ensures x in s ==>
      (|RemoveFirst(s, x)| == |s| - 1 && multiset(RemoveFirst(s, x)) == multiset(s) - multiset{x})
    ensures x !in s ==> RemoveFirst(s, x) == s
  {
    if x in s {
      var i := FirstIndex(s, x);
      assert s == s[..i] + [x] + s[i + 1..];
    }
  }

  /** How many of the first `n` buttons of one word are checked and carry
      code `c`. */
  function CountChecked(es: seq<Code>, bs: seq<bool>, c: Code, n: nat): nat
    requires n <= |es| == |bs|
  {
    if n == 0 then 0
    else CountChecked(es, bs, c, n - 1) + (if bs[n - 1] && es[n - 1] == c then 1 else 0)
  }

  /** Toggling button `b` changes the count of its own code by one and no
      other count. */
  lemma {:induction false} CountUpdate(es: seq<Code>, bs: seq<bool>, b: nat, v: bool, c: Code, n: nat)
    requires n <= |es| == |bs| && b < |bs|
    ensures CountChecked(es, bs[b := v], c, n) + (if b < n && bs[b] && es[b] == c then 1 else 0) ==
            CountChecked(es, bs, c, n) + (if b < n && v && es[b] == c then 1 else 0)
  {
    if n > 0 {
      CountUpdate(es, bs, b, v, c, n - 1);
    }
  }

  /** `n` unchecked buttons. */
  function Unchecked(n: nat): (r: seq<bool>)
    ensures |r| == n && forall i :: 0 <= i < n ==> !r[i]
  {
    seq(n, i => false)
  }

  lemma {:induction false} CountNone(es: seq<Code>, c: Code, n: nat)
    requires n <= |es|
    ensures CountChecked(es, Unchecked(|es|), c, n) == 0
  {
    if n > 0 {
      CountNone(es, c, n - 1);
    }
  }

  /** One word's selection agrees with its buttons: each code is selected
      as often as a checked button carries it, and a checked clear button
      means an empty selection. */
  ghost predicate WordOk(es: seq<Code>, bs: seq<bool>, sel: seq<Code>, clear: bool)
  {
    |bs| == |es| && (forall c :: multiset(sel)[c] == CountChecked(es, bs, c, |es|)) &&
    (clear ==> sel == [])
  }

  /** Every displayed word agrees with its buttons; words past the
      displayed ones have neither buttons nor a selection. */
  ghost predicate ValidState(words: seq<string>, wordsEmojis: seq<seq<Code>>, selected: seq<seq<Code>>,
                             buttons: seq<seq<bool>>, clearChecked: seq<bool>)
  {
    |selected| == |words| && |buttons| == |words| &&
    |clearChecked| <= |words| && |clearChecked| <= |wordsEmojis| &&
    (forall i :: 0 <= i < |clearChecked| ==>
      WordOk(wordsEmojis[i], buttons[i], selected[i], clearChecked[i])) &&
    (forall i :: |clearChecked| <= i < |words| ==> buttons[i] == [] && selected[i] == [])
  }

  /** Replacing one displayed word's state by an agreeing one keeps the
      whole state valid. */
  lemma UpdateValid(words: seq<string>, wordsEmojis: seq<seq<Code>>, selected: seq<seq<Code>>,
                    buttons: seq<seq<bool>>, clearChecked: seq<bool>,
                    idx: nat, bs: seq<bool>, sel: seq<Code>, clear: bool)
    requires ValidState(words, wordsEmojis, selected, buttons, clearChecked)
    requires idx < |clearChecked| && WordOk(wordsEmojis[idx], bs, sel, clear)
    ensures ValidState(words, wordsEmojis, selected[idx := sel], buttons[idx := bs], clearChecked[idx := clear])
  {
  }

  /** The state an emoji-button click leaves one word in agrees with the
      buttons, and its clear button shows whether the selection is
      empty. */
  lemma ClickOk(es: seq<Code>, bs: seq<bool>, sel: seq<Code>, clear: bool, b: nat)
    requires WordOk(es, bs, sel, clear) && b < |bs|
    ensures var on := !bs[b];
      var sel' := if on then sel + [es[b]] else RemoveFirst(sel, es[b]);
      WordOk(es, bs[b := on], sel', sel' == [])
  {
    var on := !bs[b];
    var code := es[b];
    var sel' := if on then sel + [code] else RemoveFirst(sel, code);
    if !on {
      UncheckRemovesOne(sel, code, es, bs, b);
    }
    forall c
      ensures multiset(sel')[c] == CountChecked(es, bs[b := on], c, |es|)
    {
      CountUpdate(es, bs, b, on, c, |es|);
    }
  }

  /** `zip(words, words_emojis, word_char_counts)` stops at the shortest. */
  function Zipped(a: nat, b: nat, c: nat): (n: nat)
    ensures n <= a && n <= b && n <= c && (n == a || n == b || n == c)
  {
    if a <= b && a <= c then a else if b <= c then b else c
  }

  /** The button states `on_text_processed` (emoji_video_maker_gui.py:301-377)
      creates: for each of the first `Zipped` words a checked clear button
      and one unchecked button per candidate code; the other words get no
      buttons. */
  method InitialButtons(ws: seq<string>, es: seq<seq<Code>>, cs: seq<int>)
    returns (bs: seq<seq<bool>>, clear: seq<bool>)
    ensures clear == seq(Zipped(|ws|, |es|, |cs|), i => true)
    ensures bs == seq(|ws|, i requires 0 <= i < |ws| =>
      if i < Zipped(|ws|, |es|, |cs|) then Unchecked(|es[i]|) else [])
  {
    bs := seq(|ws|, i => []);
    clear := [];
    var i := 0;
    while i < |ws| && i < |es| && i < |cs|
      invariant 0 <= i <= Zipped(|ws|, |es|, |cs|)
      invariant clear == seq(i, k => true)
      invariant bs == seq(|ws|, k requires 0 <= k < |ws| => if k < i then Unchecked(|es[k]|) else [])
      decreases |ws| - i
    {
      clear := clear + [true];
      if es[i] != [] {
        bs := bs[i := Unchecked(|es[i]|)];
      }
      i := i + 1;
    }
  }

  /** Freshly created buttons agree with the empty selections. */
  lemma InitialValid(ws: seq<string>, es: seq<seq<Code>>, cs: seq<int>)
    ensures var n := Zipped(|ws|, |es|, |cs|);
      ValidState(ws, es, seq(|ws|, i => []),
        seq(|ws|, i requires 0 <= i < |ws| => if i < n then Unchecked(|es[i]|) else []),
        seq(n, i => true))
  {
    var n := Zipped(|ws|, |es|, |cs|);
    forall k | 0 <= k < n
      ensures WordOk(es[k], Unchecked(|es[k]|), [], true)
    {
      forall c {
        CountNone(es[k], c, |es[k]|);
      }
    }
  }

  /** The selection state of the main window. */
  class SelectionModel {
    var words: seq<string>
    var wordsEmojis: seq<seq<Code>>
    var charCounts: seq<int>
    var text: string
    /** `self.selected_emojis`. */
    var selected: seq<seq<Code>>
    /** The check state of `self.emoji_buttons[i][b]`. */
    var buttons: seq<seq<bool>>
    /** The check state of the clear button of each displayed word. */
    var clearChecked: seq<bool>

    ghost predicate Valid()
      reads this
    {
      ValidState(words, wordsEmojis, selected, buttons, clearChecked)
    }

    /** The data model of `__init__` (emoji_video_maker_gui.py:115-121). */
    constructor ()
      ensures Valid()
      ensures words == [] && wordsEmojis == [] && charCounts == [] && text == []
      ensures selected == [] && buttons == [] && clearChecked == []
    {
      words, wordsEmojis, charCounts, text := [], [], [], [];
      selected, buttons, clearChecked := [], [], [];
    }

    /** `reset_emoji_selection` (emoji_video_maker_gui.py:250-264). */
    method Reset()
      modifies this
      ensures Valid()
      ensures words == [] && wordsEmojis == [] && charCounts == [] && text == []
      ensures selected == [] && buttons == [] && clearChecked == []
    {
      words, wordsEmojis, charCounts, text := [], [], [], [];
      selected, buttons, clearChecked := [], [], [];
    }

    /** `on_text_processed` (emoji_video_maker_gui.py:295-377): one empty
        selection per word, and for each displayed word a checked clear
        button and one unchecked button per candidate code. */
    method OnTextProcessed(ws: seq<string>, es: seq<seq<Code>>, cs: seq<int>, t: string)
      modifies this
      ensures Valid()
      ensures words == ws && wordsEmojis == es && charCounts == cs && text == t
      ensures selected == seq(|ws|, i => [])
      ensures clearChecked == seq(Zipped(|ws|, |es|, |cs|), i => true)
      ensures buttons == seq(|ws|, i requires 0 <= i < |ws| =>
        if i < Zipped(|ws|, |es|, |cs|) then Unchecked(|es[i]|) else [])
    {
      words, wordsEmojis, charCounts, text := ws, es, cs, t;
      selected := seq(|ws|, i => []);
      buttons, clearChecked := InitialButtons(ws, es, cs);
      InitialValid(ws, es, cs);
    }

    /** `on_emoji_button_click` (emoji_video_maker_gui.py:427-443): button
        `b` of word `idx` toggles; checking appends its code and unchecks
        the clear button, unchecking removes one occurrence of the code;
        the clear button then shows whether the selection is empty. */
    method OnEmojiButtonClick(idx: nat, b: nat)
      requires Valid() && idx < |clearChecked| && b < |buttons[idx]|
      modifies this
      ensures Valid()
      ensures words == old(words) && wordsEmojis == old(wordsEmojis)
      ensures charCounts == old(charCounts) && text == old(text)
      ensures var code := wordsEmojis[idx][b];
        var on := !old(buttons[idx][b]);
        buttons == old(buttons)[idx := old(buttons[idx])[b := on]] &&
        selected == old(selected)[idx := if on then old(selected[idx]) + [code]
                                         else RemoveFirst(old(selected[idx]), code)]
      ensures clearChecked == old(clearChecked)[idx := selected[idx] == []]
    {
      var code := wordsEmojis[idx][b];
      var on := !buttons[idx][b];
      var bs, sel, clear := buttons[idx][b := on], selected[idx], clearChecked[idx];
      assert WordOk(wordsEmojis[idx], buttons[idx], sel, clear);
      if on {
        sel := sel + [code];
        if clear {
          clear := false;
        }
      } else {
        UncheckRemovesOne(sel, code, wordsEmojis[idx], buttons[idx], b);
        if code in sel {
          sel := RemoveFirst(sel, code);
        }
      }
      if sel == [] {
        clear := true;
      }
      ClickOk(wordsEmojis[idx], buttons[idx], selected[idx], clearChecked[idx], b);
      UpdateValid(words, wordsEmojis, selected, buttons, clearChecked, idx, bs, sel, clear);
      buttons, selected, clearChecked := buttons[idx := bs], selected[idx := sel], clearChecked[idx := clear];
    }

    /** `on_clear_button_click` (emoji_video_maker_gui.py:399-425): the
        clear button toggles; when it ends up checked, this word's
        selection is emptied and all its emoji buttons are unchecked. */
    method OnClearButtonClick(idx: nat)
      requires Valid() && idx < |clearChecked|
      modifies this
      ensures Valid()
      ensures words == old(words) && wordsEmojis == old(wordsEmojis)
      ensures charCounts == old(charCounts) && text == old(text)
      ensures clearChecked == old(clearChecked)[idx := !old(clearChecked[idx])]
      ensures clearChecked[idx] ==>
        (selected == old(selected)[idx := []] && buttons == old(buttons)[idx := Unchecked(|old(buttons[idx])|)])
      ensures !clearChecked[idx] ==> selected == old(selected) && buttons == old(buttons)
    {
      clearChecked := clearChecked[idx := !clearChecked[idx]];
      if clearChecked[idx] {
        selected := selected[idx := []];
        if buttons[idx] == [] {
          return;
        }
        forall c {
          CountNone(wordsEmojis[idx], c, |wordsEmojis[idx]|);
        }
        buttons := buttons[idx := Unchecked(|buttons[idx]|)];
      }
    }

    /** `start_generate_video` (emoji_video_maker_gui.py:457-476) up to
        starting the worker. `confirmEmpty` and `confirm` are the answers
        to the two dialogs; the first is asked exactly when no word has a
        selection, and a "No" to it returns before the path is formed. */
    method StartGenerateVideo(sep: char, confirmEmpty: bool, confirm: bool)
      returns (askedEmpty: bool, path: Option<string>, started: bool)
      ensures askedEmpty <==> forall i :: 0 <= i < |selected| ==> selected[i] == []
      ensures path == if askedEmpty && !confirmEmpty then None else Some(OutputPath(text, sep))
      ensures started <==> path.Some? && confirm
    {
      var anySelected := exists i :: 0 <= i < |selected| && selected[i] != [];
      askedEmpty := !anySelected;
      if askedEmpty && !confirmEmpty {
        return askedEmpty, None, false;
      }
      path := Some(OutputPath(text, sep));
      started := confirm;
    }
  }

  /** After an unchecking click the code is still selected, so exactly one
      copy of it goes, the first one. */
  lemma UncheckRemovesOne(sel: seq<Code>, code: Code, es: seq<Code>, bs: seq<bool>, b: nat)
    requires |es| == |bs| && b < |bs| && bs[b] && es[b] == code
    requires forall c :: multiset(sel)[c] == CountChecked(es, bs, c, |es|)
    ensures code in sel
    ensures multiset(RemoveFirst(sel, code)) == multiset(sel) - multiset{code}
  {
    CountUpdate(es, bs, b, false, code, |es|);
    assert multiset(sel)[code] > 0;
    RemoveFirstMultiset(sel, code);
  }
}

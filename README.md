# Emoji text-to-video pipeline, modelled in Dafny

This project models the in-memory logic of an emoji text-to-video tool. The
tool takes a Chinese (or mixed) text and builds a lexicon index from the
names of the emoji. It cuts the text into words, with greedy
priority-phrase splitting, and searches the index for pictograms that match
each word. It then lays the chosen emoji codes out one per character slot of
the final video. Around that core sit a few smaller stateful pieces, each
modelled here too:

- the per-word selection bookkeeping of the desktop GUI;
- the element list of the 2D drawing canvas;
- the `U+XXXX` code-sequence helpers and load-progress counter of the 3D
  viewers;
- the contrast curve and clock formatter of the GIF batch tool.

One Dafny module per concern, one file per module:

| file | module | models |
|---|---|---|
| wrappers.dfy | Wrappers | `Option` |
| seqs.dfy | Seqs | concatenation (`Flatten`, `FlatMap`), de-duplication, set of elements |
| strings.dfy | Strings | ASCII `lower()`, Python `strip()`, the substring test `in` |
| hex.dfy | Hex | uppercase hex digits, `'-'.join` and splitting |
| lexicon.dfy | Lexicon | emoji identifiers and the keyword index built by `init` / `load_emoji_data` |
| search.dfy | Search | the three `search_emoji` variants |
| phrase_split.dfy | PhraseSplit | `_split_token_recursively` |
| tokenizer.dfy | Tokenizer | both `tokenize_text` variants |
| recursive_match.dfy | RecursiveMatch | `find_emojis_recursive` |
| sequence_builder.dfy | SequenceBuilder | the validation and slot-building prefix of `create_emoji_video`, with its `Result` of a plan or an error |
| phrase_extraction.dfy | PhraseExtraction | the priority-phrase extraction of `emojiVideoJson.py` |
| gui_selection.dfy | GuiSelection | file naming and the selection model of the Qt window |
| canvas.dfy | Canvas | `extractIcons`, the element list and the event handlers of `drawing.js` |
| viewer.dfy | Viewer | code sequences, the hidden-code filter, asset paths and the progress counter of the 3D viewers |
| gif_tools.dfy | GifTools | `create_contrast_curve` and `format_time` |

Some parts of the source cannot be run inside a proof, and the model takes
each of them as a parameter:

- the external segmenters: jieba's `cut` / `lcut` and its POS tagger;
- the emoji search passed to the recursive matcher;
- the clipboard text;
- the page host test;
- the platform path separator;
- the GUI's confirmation answers.

Python strings are Dafny strings. The canvas works on JavaScript UTF-16
code units, which the model holds as a `seq<int>`. An unordered Python set or
dict-of-set converted to a list has no specified order. Wherever the source
does that, the model picks elements nondeterministically (`:|`) and states
only properties that every order satisfies.

Where the code and its own comments disagree, the model follows the code:

- The forward tier of both `search_emoji` variants keeps a contained key
  `kw` only when `kw not in exact_match`, so it skips a key that IS in that
  list. The list holds emoji identifiers, not keys, so the skip almost never
  fires. It is kept literally: `Search.ExclusionInert`
  says when it changes nothing, and `Search.ExclusionNeedsDigitKey` says
  that it can only fire for a key made of digits and `-`.
- `addIcons` reads the live `elements.length` while it pushes, so icon `i`
  goes to `x = 60 + (L0 + 2i) * 70`, not `60 + (L0 + i) * 70`.
- `MouseMove` with a stale `dragIndex` throws a `TypeError` in the browser
  and changes nothing; the model leaves the state unchanged.

## Model

| member | source | states |
|---|---|---|
| Hex.ToHex | emoji_core.py:49 | `hex(n)[2:].upper()`: non-empty, uppercase hex digits only, no leading zero |
| Hex.ParseToHex | emoji_core.py:49 | the hex text of a code point reads back as that code point |
| Hex.SplitJoin | emoji_core.py:50 | splitting a `sep`-join of parts without `sep` gives back exactly the parts |
| Hex.HexHasNoDash | emoji_core.py:50 | a hex field never contains the `-` separator |
| Lexicon.EmojiCode | emoji_core.py:49-50 | the identifier `'-'.join(hex(ord(c))[2:].upper() for c in g)`; `Lexicon.EmojiCodeDecodes`, `Lexicon.EmojiCodeInjective` and `Lexicon.EmojiCodeChars` state what it means |
| Lexicon.CodePointHexes | emoji_core.py:49 | one hex field per code point of the glyph, in order |
| Lexicon.EmojiCodeDecodes | emoji_core.py:49-50 | splitting an identifier on `-` and parsing each field gives back exactly the glyph's code points |
| Lexicon.EmojiCodeInjective | emoji_core.py:49-50 | distinct glyphs get distinct identifiers |
| Lexicon.EmojiCodeChars | emoji_core.py:49-50 | an identifier holds only uppercase hex digits and `-` |
| Lexicon.Append | emoji_core.py:56 | appending a code to a key's bucket keeps the index well formed (insertion-ordered keys, one per bucket) |
| Lexicon.CodesForMembers | emoji_core.py:54-56 | a key's bucket holds exactly the codes appended under that key |
| Lexicon.InsertShape | emoji_core.py:46-56 | the index built from a list of appends has the first-occurrence order of the keys, and each bucket is the in-order list of codes under its key |
| Lexicon.KeywordAppendsMembers | emoji_core.py:54-56 | one glyph's keywords contribute `(lower(k), code)` exactly for its indexed keywords `k` |
| Lexicon.AppendsMembers | emoji_core.py:46-56 | an append comes from the data exactly when some glyph has a keyword whose lowercase is the key |
| Lexicon.CodeMap | emoji_core.py:53 | the `emoji_code_to_char` map, later glyphs overwriting earlier ones under the same identifier; `Lexicon.CodeMapInverts` states that it inverts the identifiers |
| Lexicon.CodeMapInverts | emoji_core.py:53 | `emoji_code_to_char[code(g)] == g` for every glyph, and every stored glyph maps back to its identifier |
| Lexicon.AddKeywords | emoji_core.py:54-56 | the keyword loop of one glyph builds the index of the appends so far plus that glyph's appends |
| Lexicon.BuildIndex | emoji_core.py:46-56 | the `init` loop builds the index of all appends and the code-to-glyph map; every indexed keyword's bucket holds its glyph's identifier |
| Lexicon.BuildComplete | GiftoMp4.py:63-76 | for every indexed keyword `k` of glyph `g`, `code(g)` is in the bucket of `lower(k)` |
| Lexicon.BuildSound | emoji_core_old.py:55-65 | every code in a bucket comes from a glyph with a keyword whose lowercase is that key |
| Lexicon.EmptyKeyword | emoji_core.py:55 | with the `if keyword:` guard the empty key is never indexed; without it (old variant, GiftoMp4) an empty keyword is indexed |
| Strings.LowerChar | emoji_core.py:91 | ASCII upper case moves down by 32, every other character is unchanged |
| Strings.Lower | emoji_core.py:91 | `lower()` maps each character and keeps the length |
| Strings.LowerIdempotent | emoji_core.py:91 | lowering twice is lowering once |
| Strings.Strip | emoji_core.py:91 | `strip()` is the slice between the leading and trailing whitespace runs, and neither end of it is whitespace |
| Strings.StripEmpty | emoji_core.py:92-93 | the stripped text is empty exactly when the text is all whitespace |
| Strings.StripNoSpace | emoji_core.py:91 | a text whose ends are not whitespace strips to itself |
| Strings.StripIdempotent | emoji_core.py:91 | stripping twice is stripping once |
| Strings.ContainsAt | emoji_core.py:102 | the `in` test holds exactly when the needle occurs at some position |
| Strings.ContainsSelf | emoji_core.py:102 | every text contains itself |
| Strings.TokenCharNotSpace | emoji_core.py:172 | a kept token character is never whitespace |
| Search.Exact | emoji_core.py:98 | `index.get(keyword, [])`: the bucket when the key exists, `[]` otherwise |
| Search.CollectMembers | emoji_core.py:101-109 | a code is gathered by a tier exactly when some key hitting that tier has it in its bucket |
| Search.Enumerate | emoji_core.py:111 | `list(set)`: a duplicate-free listing of exactly the set's elements |
| Search.GatherSet | emoji_core.py:95-109 | each tier loop adds exactly the codes of the keys that hit the tier |
| Search.GatherList | emoji_core_old.py:118-131 | each tier loop extends its list with the buckets of the keys that hit, in key order |
| Search.SliceLen | emoji_core.py:115 | `len(xs[:n])` for Python slices, negative `n` included |
| Search.Truncate | emoji_core.py:114-115 | the cap keeps a prefix of Python-slice length |
| Search.MatchedSet | emoji_core.py:95-109 | the `matched_emojis` set: the exact bucket, the reverse tier and the forward tier with its exclusion; `Search.MatchedSetSound` and `Search.MatchedSetComplete` characterise it |
| Search.SearchSet | emoji_core.py:84-117 | blank input gives `[]`; otherwise the codes are duplicate-free and matched, at most the cap, and with no cap exactly the matched set |
| Search.MatchedSetSound | emoji_core.py:95-109 | every returned code comes from a key equal to, containing, or contained in the query |
| Search.MatchedSetComplete | emoji_core.py:95-109 | every code of a key equal to the query, containing it, or (outside the exclusion) contained in it is matched |
| Search.UnseenStep | emoji_core_old.py:138-153 | one step of a `seen`-guarded append extends the first-occurrence de-duplication |
| Search.AppendUnseen | emoji_core_old.py:138-153 | a `seen`-guarded append loop yields the first-occurrence de-duplication of all codes so far, with `seen` its set |
| Search.OrderedResult | emoji_core_old.py:134-155 | the de-duplicated exact ++ reverse ++ forward list; `Search.OrderedResultSpec` states its meaning |
| Search.SearchOrdered | emoji_core_old.py:94-155 | blank input gives `[]`; otherwise the result is the de-duplication of exact ++ reverse ++ forward |
| Search.OrderedResultSpec | emoji_core_old.py:134-155 | the ordered result is duplicate-free, holds exactly the union of the three tiers, starts with the de-duplicated exact bucket, and no later code is an exact one |
| Search.ExclusionNeedsDigitKey | emoji_core_old.py:129 | the forward-tier exclusion can fire only for a key made of digits and `-` |
| Search.LowerKeyChars | emoji_core.py:56 | index keys hold no ASCII upper case |
| Search.ExclusionInert | emoji_core.py:108 | when no key is an exact identifier, the forward tier is the plain "key contained in query" tier |
| Search.CollectSameHits | emoji_core.py:101-109 | two tiers that admit the same keys gather the same codes |
| Search.AppendMissing | GiftoMp4.py:128-131 | after the prefix no code repeats or reappears from the prefix, and the whole result holds the prefix and the set |
| Search.GiftoMatched | GiftoMp4.py:108-121 | the `matched_emojis` set of the GiftoMp4 variant: the exact bucket and both containment tiers; `Search.SearchGifto` states the listing built from it |
| Search.SearchGifto | GiftoMp4.py:105-133 | the result starts with the exact bucket verbatim; after it no code repeats or repeats an exact one; its codes are exactly the union of the three tiers |
| Search.GiftoEmptyQuery | GiftoMp4.py:107-116 | with no trimming the empty query matches every code of every bucket, in both directions |
| Search.GiftoEmptyQueryIn | GiftoMp4.py:115-116 | the empty string is in every key, so every bucket's codes are gathered |
| Search.MatchedKey | GiftoMp4.py:108-122 | for every query, every matched code comes from some bucket |
| PhraseSplit.Scan | emoji_core.py:135-141 | the inner loop finds the rightmost phrase start at or below `i`, and none lies between it and `i` |
| PhraseSplit.BestMatch | emoji_core.py:133-146 | the chosen match has length 3 (a three-phrase) or 2 (a two-phrase) and lies inside the token |
| PhraseSplit.BestMatchRule | emoji_core.py:122-146 | a three-phrase always wins and is the rightmost one; with no three-phrase the rightmost two-phrase is chosen; there is no match exactly when no phrase of either length occurs |
| PhraseSplit.Chars | emoji_core.py:153 | `list(s)`: one single-character string per character |
| PhraseSplit.Split | emoji_core.py:125-126 | the result is empty exactly for the empty token |
| PhraseSplit.FindBestMatch | emoji_core.py:133-146 | the search loops with their `break`s compute the best match |
| PhraseSplit.SplitTokenRecursively | emoji_core.py:119-160 | the recursive splitter computes the specified split |
| PhraseSplit.FlattenChars | emoji_core.py:153 | single characters concatenate back to the text |
| PhraseSplit.SplitFlatten | emoji_core.py:119-160 | the pieces concatenate back to the token |
| PhraseSplit.SplitPieces | emoji_core.py:133-160 | every piece is one character, a two-character phrase or a three-character phrase |
| PhraseSplit.SplitRightmostThree | emoji_core.py:133-155 | when a three-phrase occurs, the first phrase emitted is the rightmost one and everything left of it is single characters, whatever the two-phrases |
| PhraseSplit.SplitNoPhrase | emoji_core.py:158-160 | with no phrase of either length in the token, the output is its characters |
| Tokenizer.Clean | emoji_core.py:172-173 | the cleaned text keeps only `[一-龥a-zA-Z0-9]` characters and is no longer than the input |
| Tokenizer.CleanEmpty | emoji_core.py:173-175 | the cleaned text is empty exactly when the input has no token character |
| Tokenizer.CleanValid | emoji_core.py:172-173 | a text of token characters only is unchanged by cleaning |
| Tokenizer.Tokenize | emoji_core.py:162-194 | `[]` for a text with no token character, otherwise the segmenter's tokens of the cleaned text, each re-split by the phrase splitter; `Tokenizer.TokenizeEmpty`, `Tokenizer.TokenizeFlatten` and `Tokenizer.ResegmentPieces` state its meaning |
| Tokenizer.TokenizeText | emoji_core.py:162-194 | the token loop computes the specified tokenization |
| Tokenizer.TokenizeEmpty | emoji_core.py:166-175 | an input without a token character gives `[]` |
| Tokenizer.ResegmentSnoc | emoji_core.py:180-192 | handling one more segmenter token appends its pieces |
| Tokenizer.ResegmentAppend | emoji_core.py:180-192 | the token loop distributes over concatenation of the segmenter output |
| Tokenizer.PiecesFlatten | emoji_core.py:183-192 | the pieces of one token concatenate back to it |
| Tokenizer.ResegmentFlatten | emoji_core.py:180-192 | the final tokens concatenate back to the segmenter's tokens |
| Tokenizer.TokenizeFlatten | emoji_core.py:162-194 | with a concatenation-preserving segmenter, the final tokens concatenate to the cleaned text |
| Tokenizer.ResegmentPieces | emoji_core.py:180-192 | every final token is one character or a priority phrase of its length |
| Tokenizer.PriorityKept | emoji_core.py:183-186 | a whole segmenter token that is a priority phrase is kept verbatim in place |
| Tokenizer.TokenizeOld | emoji_core_old.py:157-175 | `[]` for an empty text, otherwise the segmenter's tokens with a token character, stripped; `Tokenizer.StripValidWords` and `Tokenizer.StripValidAll` state its meaning |
| Tokenizer.StripValid | emoji_core_old.py:172-173 | the old filter keeps at most the segmenter's tokens |
| Tokenizer.StripValidAppend | emoji_core_old.py:173 | the filter distributes over concatenation, so the words keep the segmenter's order |
| Tokenizer.StripKeepsTokenChar | emoji_core_old.py:173 | stripping a word does not lose its token characters |
| Tokenizer.StripValidWords | emoji_core_old.py:164-175 | every word is stripped, has a token character, and is the stripped form of a segmenter token |
| Tokenizer.StripAll | emoji_core_old.py:173 | stripping every token, position by position |
| Tokenizer.StripValidAll | emoji_core_old.py:173 | when every token has a token character, the result is every token stripped, in order |
| RecursiveMatch.Find | emoji_core_old.py:177-224 | success is reported exactly when the code list is non-empty |
| RecursiveMatch.FindEmojisRecursive | emoji_core_old.py:177-224 | the recursive method with its accumulating loop computes the specified outcome |
| RecursiveMatch.FindGuards | emoji_core_old.py:188-193 | at or past the depth bound, or for blank text, the result is `(False, [])` |
| RecursiveMatch.FindDirect | emoji_core_old.py:196-198 | a non-empty direct search result is returned unchanged with `True` |
| RecursiveMatch.FindSingleChar | emoji_core_old.py:200-221 | a one-character text whose direct search fails gives `(False, [])` when the tokenizer gives it back unchanged (the exit at lines 205-208) or gives no words (an empty gather at lines 213-221) |
| RecursiveMatch.FindSound | emoji_core_old.py:213-224 | every returned code is a direct search result for some text |
| RecursiveMatch.GatherSound | emoji_core_old.py:213-217 | every code gathered over the sub-words is a direct search result for some text |
| SequenceBuilder.WordSlots | emoji_core.py:218-224 | one slot per character of the word, none for a non-positive count |
| SequenceBuilder.WordSlotAt | emoji_core.py:218-224 | slot `p` holds `sel[p % len(sel)]`, or `None` when nothing is selected |
| SequenceBuilder.FillWord | emoji_core.py:218-224 | the inner loop appends exactly the word's slots |
| SequenceBuilder.BuildSequence | emoji_core.py:217-224 | the nested loop builds the specified slot sequence |
| SequenceBuilder.TotalChars | emoji_core.py:203 | `sum(word_char_counts)` |
| SequenceBuilder.EverySlotEmpty | emoji_core.py:226 | `all(e is None ...)` over the slots |
| SequenceBuilder.Expand | emoji_core.py:217-224 | the slots of all words, in word order; `SequenceBuilder.ExpandLength` and `SequenceBuilder.ExpandSlot` state its length and each slot |
| SequenceBuilder.Prepare | emoji_core.py:200-227 | the outcome of the validation prefix: the two `ValueError`s, the all-empty `Warning`, otherwise the plan; `SequenceBuilder.PrepareOk` states what a plan guarantees |
| SequenceBuilder.CreateEmojiVideoPlan | emoji_core.py:200-227 | the method returns the specified outcome: `ValueError` for unequal lengths or a zero total, `Warning` for all-empty slots, otherwise the plan |
| SequenceBuilder.ExpandLength | emoji_core.py:217-224 | the slot sequence is as long as the sum of the (non-negative parts of the) counts |
| SequenceBuilder.SumClampedNat | emoji_core.py:203 | for non-negative counts that is `sum(word_char_counts)` |
| SequenceBuilder.ExpandSlot | emoji_core.py:217-224 | slot `p` of word `i` sits after the earlier words' slots and holds `sel[i][p % len(sel[i])]`, or `None` |
| SequenceBuilder.AllNoneIff | emoji_core.py:226-227 | every slot is `None` exactly when every word with a positive count has an empty selection |
| SequenceBuilder.PrepareOk | emoji_core.py:200-227 | a plan is produced only for equal lengths and a non-zero total; its width is total × cell size, its duration positive, its slots the specified ones, and some slot is filled |
| PhraseExtraction.Bump | emojiVideoJson.py:55-75 | incrementing a counter adds the word to its keys and keeps all counts positive |
| PhraseExtraction.AddKeywords | emojiVideoJson.py:45-48 | the keyword loop of one emoji adds exactly its stripped all-CJK keywords |
| PhraseExtraction.CollectKeywords | emojiVideoJson.py:41-48 | the collection loop gathers exactly the considered keywords |
| PhraseExtraction.KeywordSetMembers | emojiVideoJson.py:45-48 | a keyword is added exactly when it is the strip of a listed keyword and all CJK |
| PhraseExtraction.Considered | emojiVideoJson.py:38-48 | the `all_keywords` set of the list-valued entries; `PhraseExtraction.ConsideredMembers` states exactly its elements |
| PhraseExtraction.ConsideredMembers | emojiVideoJson.py:38-48 | the considered set is exactly the stripped all-CJK keywords of list-valued entries |
| PhraseExtraction.AcceptedOfMembers | emojiVideoJson.py:63-71 | a tagged word is accepted exactly when it has the length, an acceptable tag, no stop character and is not a considered keyword |
| PhraseExtraction.CountPair | emojiVideoJson.py:64-75 | counting one tagged word keeps the counters equal to the accepted words so far |
| PhraseExtraction.CountSubWords | emojiVideoJson.py:63-75 | the tagged-word loop adds exactly the accepted two- and three-character words |
| PhraseExtraction.CountKeyword | emojiVideoJson.py:52-75 | counting one keyword keeps the counters equal to the candidates of the keywords so far |
| PhraseExtraction.CandidatesOfElems | emojiVideoJson.py:52-75 | the candidates of a listing of keywords are those of the set it lists |
| PhraseExtraction.CountCandidates | emojiVideoJson.py:52-75 | the counters' keys are exactly the candidates of every considered keyword, with positive counts |
| PhraseExtraction.LessIrreflexive | emojiVideoJson.py:91-92 | string order is irreflexive |
| PhraseExtraction.LessTransitive | emojiVideoJson.py:91-92 | string order is transitive |
| PhraseExtraction.LessTotal | emojiVideoJson.py:91-92 | string order is total on distinct strings |
| PhraseExtraction.Least | emojiVideoJson.py:91-92 | the least string of a non-empty set |
| PhraseExtraction.SortedList | emojiVideoJson.py:87-92 | `sorted(set(...))`: exactly the set's elements, strictly ascending, duplicate-free |
| PhraseExtraction.Candidates | emojiVideoJson.py:51-88 | whole keywords of the length plus the accepted sub-words of keywords of length four or more; `PhraseExtraction.ConsideredKept` and `PhraseExtraction.SubWordSource` state both halves |
| PhraseExtraction.Phrases | emojiVideoJson.py:33-92 | the final phrase set of one length; `PhraseExtraction.ExtractPhrases` states that each list holds exactly it, sorted |
| PhraseExtraction.ExtractPhrases | emojiVideoJson.py:33-92 | both final lists hold exactly the extracted phrases of their length, duplicate-free and ascending |
| PhraseExtraction.PhraseLengths | emojiVideoJson.py:54-57 | every two-word entry has length 2 and every three-word entry length 3 |
| PhraseExtraction.ConsideredKept | emojiVideoJson.py:54-57 | every considered keyword of length 2 or 3 ends up in its list |
| PhraseExtraction.SubWordSource | emojiVideoJson.py:60-75 | an entry that is not a considered keyword is a tagged sub-word, with an acceptable tag and no stop character, of a considered keyword of length ≥ 4 |
| PhraseExtraction.ThresholdKeepsAll | emojiVideoJson.py:79-84 | with a threshold of 1 every counted candidate survives |
| GuiSelection.RemoveForbidden | emoji_video_maker_gui.py:71 | no forbidden character remains and the text does not grow |
| GuiSelection.RemoveForbiddenMembers | emoji_video_maker_gui.py:71 | a character remains exactly when it was there and is allowed |
| GuiSelection.RemoveForbiddenKeeps | emoji_video_maker_gui.py:71 | a text with no forbidden character is unchanged |
| GuiSelection.SafeText | emoji_video_maker_gui.py:70-72 | the safe name is non-empty, at most 5 characters (or `"output"`), and has no forbidden character |
| GuiSelection.SafeTextCases | emoji_video_maker_gui.py:70-72 | it is `"output"` exactly when the first 5 characters are all forbidden, otherwise their filtered form |
| GuiSelection.SafeTextPlain | emoji_video_maker_gui.py:70-72 | with no forbidden character the name is the first 5 characters |
| GuiSelection.OutputPath | emoji_video_maker_gui.py:469 | `os.path.join(fixed_output_dir, safe_text + ".mp4")`, with `fixed_output_dir` = `Z:\2025\1120-hanshi\gif`; `GuiSelection.OutputPathShape` states its shape |
| GuiSelection.OutputPathShape | emoji_video_maker_gui.py:466-469 | the path is the output directory, one separator, and a separator-free name ending in `.mp4` |
| GuiSelection.CharCounts | emoji_video_maker_gui.py:43 | `word_char_counts[i] == len(words[i])` |
| GuiSelection.TotalChars | emoji_video_maker_gui.py:44 | the total is the length of the joined words |
| GuiSelection.FirstIndex | emoji_video_maker_gui.py:438 | the first position holding the code |
| GuiSelection.RemoveFirstMultiset | emoji_video_maker_gui.py:437-438 | `remove` takes out one occurrence when present, and nothing otherwise |
| GuiSelection.CountUpdate | emoji_video_maker_gui.py:429-431 | flipping one button changes the checked count of its code by the flip |
| GuiSelection.CountNone | emoji_video_maker_gui.py:364-377 | fresh buttons are all unchecked, so no code is counted |
| GuiSelection.UpdateValid | emoji_video_maker_gui.py:399-443 | replacing one word's consistent state keeps the window consistent |
| GuiSelection.ClickOk | emoji_video_maker_gui.py:429-443 | one emoji click keeps a word's selection equal to its checked buttons, with the clear button showing emptiness |
| GuiSelection.InitialButtons | emoji_video_maker_gui.py:301-377 | a checked clear button per displayed word, one unchecked button per candidate code, none for the other words |
| GuiSelection.InitialValid | emoji_video_maker_gui.py:301-377 | the freshly created buttons agree with the empty selections |
| GuiSelection.SelectionModel.constructor | emoji_video_maker_gui.py:115-121 | the window starts with empty lists |
| GuiSelection.SelectionModel.Reset | emoji_video_maker_gui.py:250-264 | resetting empties every list and keeps the window consistent |
| GuiSelection.SelectionModel.OnTextProcessed | emoji_video_maker_gui.py:295-377 | stores the inputs, one empty selection per word, and the initial buttons; the window is consistent |
| GuiSelection.SelectionModel.OnEmojiButtonClick | emoji_video_maker_gui.py:427-443 | checking appends the code, unchecking removes one occurrence, the clear button then shows emptiness, and nothing else changes |
| GuiSelection.SelectionModel.OnClearButtonClick | emoji_video_maker_gui.py:399-425 | a clear click that checks the button empties only that word's selection and unchecks its buttons; one that unchecks it changes nothing else |
| GuiSelection.SelectionModel.StartGenerateVideo | emoji_video_maker_gui.py:457-476 | confirmation is asked exactly when no word has a selection; a declined confirmation stops; otherwise the safe path is derived and generation starts on confirmation |
| Canvas.MatchLen | js/drawing.js:28 | a match at a position is one code unit or a surrogate pair, and is an icon |
| Canvas.ExtractFrom | js/drawing.js:28-29 | every match from a position on is an icon |
| Canvas.ExtractIcons | js/drawing.js:27-30 | every extracted match is an icon |
| Canvas.NoMatchInsidePair | js/drawing.js:28 | a low surrogate right after a high one never starts a match |
| Canvas.ExtractFromMembers | js/drawing.js:28-29 | the matches from a position on are exactly the matches found at or after it |
| Canvas.ExtractIconsMembers | js/drawing.js:27-30 | the result holds exactly the left-to-right non-overlapping matches |
| Canvas.ExtractFromEmpty | js/drawing.js:29 | no match from a position on exactly when no position there starts one |
| Canvas.ExtractIconsEmpty | js/drawing.js:29 | the result is `[]` exactly when no position starts a match |
| Canvas.ExtractFromShift | js/drawing.js:28-29 | matching from a position equals matching the suffix |
| Canvas.ExtractFlatten | js/drawing.js:27-30 | extracting from a concatenation of icons gives back those icons |
| Canvas.Placed | js/drawing.js:36-41 | the element `addIcons` pushes for icon `i`, at `x = 60 + (L0 + 2i) * 70`; `Canvas.PlacedSpacing` states the spacing |
| Canvas.Batch | js/drawing.js:33-42 | one element per icon, in order, each placed as `addIcons` places it |
| Canvas.PlacedSpacing | js/drawing.js:37 | consecutive pasted icons lie 140 pixels apart |
| Canvas.Hits | js/drawing.js:96-97 | the point lies strictly inside the element's square of side `size`; `Canvas.TopHitSpec` states the topmost such element is chosen |
| Canvas.TopHit | js/drawing.js:94-105 | the hit index is within range |
| Canvas.TopHitSpec | js/drawing.js:94-105 | the hit is the highest index whose box contains the point; no hit means no box contains it |
| Canvas.RemoveAt | js/drawing.js:146 | `splice(i, 1)`: the others kept in order |
| Canvas.RemoveAtMultiset | js/drawing.js:146 | exactly that element is removed |
| Canvas.MoveToEnd | js/drawing.js:177-179 | the hit element goes last, the others keep their order |
| Canvas.MoveToEndMultiset | js/drawing.js:177-179 | bringing to front permutes the list |
| Canvas.Resize | js/drawing.js:134-137 | the size changes by ±6, never below 20; nothing else changes |
| Canvas.PasteTargets | js/drawing.js:204-206 | the glyph targets of a paste; `Canvas.PasteTargetsSpec` states what they are |
| Canvas.PasteTargetsSpec | js/drawing.js:204-206 | targets are the selection then a distinct drag index, duplicate-free, empty exactly when neither is set |
| Canvas.Retarget | js/drawing.js:208-212 | retargeting keeps the list length |
| Canvas.LastSlot | js/drawing.js:209-210 | the last icon index dealt to a target under round-robin |
| Canvas.RetargetOthers | js/drawing.js:208-212 | a paste changes only glyphs, and only those of targets |
| Canvas.RetargetGlyph | js/drawing.js:208-212 | each target shows the last icon dealt to it round-robin |
| Canvas.Board.constructor | js/drawing.js:4-8 | the empty board |
| Canvas.Board.AddIcons | js/drawing.js:33-42 | the icons' elements are appended in order and nothing else changes |
| Canvas.Board.HitTest | js/drawing.js:94-105 | the backward loop finds the topmost hit |
| Canvas.Board.MouseDown | js/drawing.js:88-108 | the selection becomes the hit and `dragging` becomes whether there was a hit; on a hit `dragIndex` and the grab offset are set, on a miss `dragIndex` and the offsets are kept |
| Canvas.Board.MouseMove | js/drawing.js:111-117 | while dragging, the dragged element moves to the mouse minus the offset; nothing else changes |
| Canvas.Board.MouseUp | js/drawing.js:120-123 | dragging stops and the drag index is cleared |
| Canvas.Board.Wheel | js/drawing.js:126-141 | only the hit element is resized |
| Canvas.Board.KeyDown | js/drawing.js:144-167 | Delete removes the selected element and clears the selection, and with no selection changes nothing; Escape clears it; the arrows rotate the selected element; every other key, or no selection, changes nothing |
| Canvas.Board.DoubleClick | js/drawing.js:170-185 | the hit element moves to the end and becomes selected |
| Canvas.Board.Paste | js/drawing.js:188-226 | no icons: no change; no targets: the icons are added; otherwise the targets are retargeted round-robin |
| Viewer.CodeSequence | js/emojiobjs.js:155-157 | one `U+` code per code point, in order |
| Viewer.CodeOfDecodes | js/emojiobjs.js:156 | a code is `U+` followed by the hex that reads back as the code point |
| Viewer.CodeOfInjective | js/emojiobjCC.js:39-41 | distinct code points give distinct codes |
| Viewer.Visible | js/emojiobjs.js:415 | the filter drops hidden codes and never grows the list |
| Viewer.VisibleMembers | js/emojiobjs.js:415 | a code survives exactly when it was there and is neither `U+200D` nor `U+FE0F` |
| Viewer.VisibleAppend | js/emojiobjCC.js:288 | the filter distributes over concatenation, so it keeps the order |
| Viewer.VisibleNoHidden | js/emojiobjs.js:542 | a list without hidden codes is unchanged |
| Viewer.HexJoiner | js/emojiobjs.js:156 | the joiner's code is `U+200D` |
| Viewer.HexSelector | js/emojiobjs.js:156 | the variation selector's code is `U+FE0F` |
| Viewer.HiddenCodeOf | js/emojiobjs.js:542 | a code is hidden exactly when its character is ZWJ or VS16 |
| Viewer.Drop | js/emojiobjs.js:542 | dropping ZWJ and VS16 leaves none of them |
| Viewer.CodeOf | js/emojiobjs.js:155-157 | `'U+' + hex` of one code point; `Viewer.CodeOfDecodes` and `Viewer.CodeOfInjective` state what it means |
| Viewer.VisibleCodeSequence | js/emojiobjs.js:541-542 | the visible codes are the codes of the glyph without ZWJ and VS16 |
| Viewer.CodeDisplay | js/emojiobjs.js:540-543 | the visible codes joined with `_`; `Viewer.CodeDisplaySplits` states that it splits back |
| Viewer.CodeDisplaySplits | js/emojiobjs.js:543 | the display text splits on `_` back into the visible codes |
| Viewer.AssetPaths | js/emojiobjs.js:427-431 | the paths are `base + code + "/" + code` with `.mtl` and `.obj` |
| Viewer.Requests | js/emojiobjs.js:425-437 | one material-and-mesh path pair per code, in order; the mesh is loaded only after its material loads |
| Viewer.CcLoadRequests | js/emojiobjCC.js:287-300 | nothing is loaded exactly when no visible code remains; otherwise one local path pair per visible code |
| Viewer.Bump | js/emojiobjs.js:82-83 | `min(completed + 1, total)`: stays within the bound and stops only at it |
| Viewer.StepsReach | js/emojiobjs.js:82-83 | `k` increments reach `min(completed + k, total)` |
| Viewer.ProgressManager.constructor | js/emojiobjs.js:69-71 | an empty counter |
| Viewer.ProgressManager.Init | js/emojiobjs.js:74-79 | `total = 2 * len(codes)`, `completed = 0` |
| Viewer.ProgressManager.Increment | js/emojiobjs.js:82-89 | `completed` bumps without passing `total` |
| Viewer.ProgressManager.Reset | js/emojiobjs.js:113-117 | both counts return to 0 |
| Viewer.LoadEmojiSequence | js/emojiobjs.js:414-437 | no visible code: no change and no request; otherwise the counter is set up for the visible codes (two reports each) and one path pair is formed per visible code |
| Viewer.StartLoads | js/emojiobjs.js:425-437 | the `forEach` forms the path pairs in order |
| GifTools.Segment | gifall.py:20-25 | the piecewise-linear brightening before capping; `GifTools.SegmentMonotone` and `GifTools.SegmentJoins` state that its pieces rise and meet |
| GifTools.CurveEntry | gifall.py:20-27 | `v <= curve[v] <= 255` |
| GifTools.CreateContrastCurve | gifall.py:16-29 | 256 entries, each the clamped piecewise value |
| GifTools.SegmentMonotone | gifall.py:21-26 | each linear piece rises with its input |
| GifTools.SegmentJoins | gifall.py:21-26 | the pieces meet without a drop |
| GifTools.CurveEnds | gifall.py:16-29 | black lifts to 10 and white stays 255 |
| GifTools.CurveMonotone | gifall.py:16-29 | the table never maps a brighter level below a darker one |
| GifTools.Trunc | gifall.py:142 | `int(seconds)` truncates toward zero |
| GifTools.TimeParts | gifall.py:143-145 | hours, minutes and seconds by `//` and `%`; `GifTools.TimePartsSpec` states that they recombine |
| GifTools.TimePartsSpec | gifall.py:143-145 | `h*3600 + m*60 + s == n` with `m < 60` and `s < 60`, and `h >= 0` for `n >= 0` |
| GifTools.Decimal | gifall.py:146 | decimal digits only, non-empty |
| GifTools.ParseDecimalOf | gifall.py:146 | a number's digits read back as the number |
| GifTools.Pad2 | gifall.py:146 | `{:02d}` is at least two characters |
| GifTools.Pad2Reads | gifall.py:146 | a padded field is digits only, reads back as its number, and is exactly two wide below 100 |
| GifTools.FormatSeconds | gifall.py:146 | the three `{:02d}` fields joined with `:`; `GifTools.FormatSecondsReads` states that they read back |
| GifTools.FormatSecondsReads | gifall.py:141-146 | the text is three `:`-separated digit fields, the last two two wide, that read back as hours, minutes and seconds summing to the whole seconds |
| GifTools.FormatTime | gifall.py:141-146 | `format_time` on the truncated seconds; `GifTools.FormatTimeReads` states that it reads back |
| GifTools.FormatTimeReads | gifall.py:141-146 | `format_time` of a non-negative time reads back as its whole seconds |
| Seqs.FlattenAppend | emoji_core.py:192 | `extend` over a concatenation is the concatenation of the extends |
| Seqs.FlatMapAppend | emoji_core.py:180-192 | a per-item `extend` loop distributes over concatenation |
| Seqs.NoDupCard | emoji_core.py:111 | a duplicate-free list is as long as its set |
| Seqs.DedupSpec | emoji_core_old.py:134-153 | the first-occurrence de-duplication is duplicate-free and keeps the set of elements |
| Seqs.DedupPrefix | emoji_core_old.py:141-153 | de-duplicating more codes extends the earlier result |
| Seqs.DedupSuffix | emoji_core_old.py:141-153 | codes added later are new and come from the later part |

## Left out

- Video and GIF compositing and encoding (the rest of `create_emoji_video` in every variant): image libraries, float scaling and file writes.
- File lookups, JSON loading, `sys.exit` and the lazy global `init`: the lexicon data and phrase sets are inputs.
- The jieba segmenter and POS tagger are function parameters. The tokenizer properties require that the segmenter returns tokens that concatenate back to its input.
- Python `lower()` and `strip()` are modelled as ASCII lowercasing and Python whitespace trimming. Both are the identity on CJK text; non-ASCII case mappings are not modelled.
- The order of `list(set(...))` and of `list(matched_emojis)` is unspecified: the model picks any order, and its contracts hold for all of them.
- `Counter.most_common()` ordering is not modelled. Only the set of counted words matters once the lists are merged, de-duplicated and sorted.
- `list.sort()` in place is modelled as building the sorted list of the set by repeated minimum extraction. The final lists come from a set, so their content is the same.
- PhraseExtraction.CountCandidates: states the counted words (the keys) and that every count is positive, not the counts themselves; only the keys survive thresholding at 1.
- The `QThread` workers, the simulated progress, the Qt widgets, styles and message boxes. The GUI's confirmation answers and the path separator of `os.path` are parameters.
- `on_emoji_button_click` receives a button object; the model addresses it by its index in the word's button list. Qt toggles a checkable button before `clicked` fires, and the model folds that into the click.
- The clear button is modelled only to the invariant "checked implies the word's selection is empty". Its checked state can also be false for an empty selection, as in the source.
- GuiSelection.SelectionModel.OnClearButtonClick: the style refresh of the buttons is not modelled, only their checked states.
- The Three.js scenes, loaders, disposal, camera fitting, animation loops, timers, DOM binding and the progress bar's display. The page host test is the `onPages` parameter.
- Load outcomes in the 3D viewers are not modelled: the model forms each code's material and mesh paths, but the mesh is requested only inside the material's success callback (js/emojiobjs.js:441-460, js/emojiobjCC.js:303-318). A failed material load reports once and never loads the mesh, so `completed` stays below the `2n` that `init` set and the bar's hide at js/emojiobjs.js:86-88 never runs.
- The `.trim()` of the hovered element's text before computing its code sequence is not modelled.
- `drawAll` rendering and `setScene`. The rotation step (π/18) is taken as a real parameter of `KeyDown`.
- Canvas: the `elements` entries are objects shared with `setScene`; the model holds them as values, so aliasing is not modelled.
- Clipboard access in `Paste` is an `Option` parameter: `None` stands for an unavailable clipboard or a failed read; both end without change in the source.
- `extractIcons` works on UTF-16 code units given as integers; the JavaScript string conversion is not modelled.
- The text-box `input` listener and `resizeCanvas` are not modelled; the listener's effect on the list is `Board.AddIcons` of `ExtractIcons`.
- gifall.py's float division in the contrast curve is modelled as integer division. The operands are small non-negative integers, so the truncated float and integer quotients agree.
- gifall.py's per-pixel image processing and `batch_process_gifs` (globbing, timing, progress bars).
- js/animation.js, js/button.js, js/pop.js, Gifemoji.py, in.py and the console `select_emoji` of GiftoMp4.py are not part of this model.

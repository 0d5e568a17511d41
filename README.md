# Orthography plugin: offset reconciliation, in Dafny

This project models the algorithmic core of the Obsidian orthography plugin
(`Obsidian/.obsidian/plugins/obsidian-orthography/main.js`). The remote grammar
checker reports each alert by a flat character offset (`begin`) into the
document text. The plugin turns these offsets into line/column edits on the
editor's line buffer. The model covers:

- `OrthographyEditor.getColRow`, which maps a flat offset to `{col, row}` or
  `undefined` (module `ColRow` for the specification, the loop in
  `Editor.OrthographyEditor.GetColRow`);
- `formatAlerts` and `sortAlerts` (module `AlertList`);
- `highlightWords`, `highlightWord`, `replaceWord`, `clearHighlightWords` and
  `destroy` of `OrthographyEditor` (module `Editor`, class `OrthographyEditor`);
- the anchor that `OrthographyPlugin.onReplaceWord` builds from the clicked
  span's data attributes (module `Plugin`);
- JavaScript's rendering and reading of integers (`${n}`, `+s`) where the
  plugin goes through strings (module `Decimal`).

The buffer is `seq<seq<char>>`: the lines without separators, each character a
UTF-16 code unit, because that is what `.length` counts. The text the checker
sees is the lines joined by one `'\n'` each (`ColRow.Join`). The editor's
highlights are a `seq<Highlight>` field of the class. Each highlight is the
line, the two columns and the class name that `addHighlights` receives.

Behaviour of the code that the model keeps:

- `getColRow` tests the start of a line's range with `ttl === 0`, not with the
  row index. When line 0 is empty, line 1's range starts at 0. The loop has no
  `break`, so offset 0 then resolves to row 1, column -1
  (`ColRow.EmptyFirstLineQuirk`). Apart from that one offset, the ranges are
  disjoint, and offsets and in-line positions are in one-to-one
  correspondence (`ColRowInLine`, `ColRowOfPosition`).
- Ties between lines resolve to the LAST matching line: the loop has no
  `break`, so a later match overwrites an earlier one. A tie only happens at
  offset 0 after an empty line 0; in every other case at most one line
  matches.
- `replaceWord` does nothing for an empty replacement string (it is falsy).
  A suggestion to remove text whose replacement is `""` is therefore never
  applied.
- The length `onReplaceWord` replaces comes from `data-text`. That is
  `highlightText` for Prepositions and `text` otherwise. It can differ from
  the highlighted length (`text.length || highlightText.length`); see
  `Plugin.ReplaceLengthMatchesHighlight`.
- `end` in `onReplaceWord` is a string concatenation (`"12" + 3` is `"123"`).
  `replaceWord` never reads it.
- `runChecker` paints the deduplicated list before it sorts it (main.js:768-771).
  Only the order of the painted ranges depends on this.
- `replaceWord` does not remove the highlight or the alert. The popup removes
  the alert's DOM node (not modelled).

The host editor (CodeMirror 5) is modelled by the class's two fields. Two host
behaviours of `replaceRange` are assumed, as CodeMirror 5's `clipToLen` and
`replaceRange` behave. First, a column past the line's end becomes the line
length, and a negative column counts back from the end (`Editor.Clip`).
Second, the two ends are swapped when `to` then lies before `from`
(`Editor.Splice`). So for the lines "", "cd", offset 0 and length 1 give
(1, -1) to (1, 0); the ends become (1, 1) and (1, 0), and the 'c' is replaced
(`Editor.ReplaceAfterEmptyFirstLine`).

## Model

| member | source | states |
|---|---|---|
| `Editor.OrthographyEditor.GetColRow` | Obsidian/.obsidian/plugins/obsidian-orthography/main.js:605-629 | the loop with running total `ttl` returns exactly `ColRowOf(lines, begin)`: the last line whose range `[s, ttl]` holds the offset, with column `begin - (ttl - len)`; no position without an editor |
| `ColRow.RangeLow` | Obsidian/.obsidian/plugins/obsidian-orthography/main.js:615 | a line's range starts at the line's flat start, except for line 1 after an empty line 0, where `ttl === 0` makes it start at 0 |
| `ColRow.Matches` | Obsidian/.obsidian/plugins/obsidian-orthography/main.js:621 | an offset in a line's range is at most one before the line's start and at most the line's length past it |
| `ColRow.LastMatch` | Obsidian/.obsidian/plugins/obsidian-orthography/main.js:613-627 | after k lines, a result lies in one of them and that line's range holds the offset; its column is between -1 and the line's length |
| `ColRow.ColRowOf` | Obsidian/.obsidian/plugins/obsidian-orthography/main.js:605-629 | a resolved position has a row of the buffer and a column between -1 and the line's length, and the offset is not negative |
| `ColRow.LastMatchIsLast` | Obsidian/.obsidian/plugins/obsidian-orthography/main.js:613-627 | because the loop does not break, the result is the last matching line: it matches, no later line does, and the result is None exactly when no line matches |
| `ColRow.RangesCover` | Obsidian/.obsidian/plugins/obsidian-orthography/main.js:615-621 | the ranges of lines 0..k-1 together cover exactly the offsets 0..LineEnd(k-1), with no gap at a separator |
| `ColRow.ColRowNone` | Obsidian/.obsidian/plugins/obsidian-orthography/main.js:612-628 | no position exactly when the buffer has no lines, the offset is negative, or the offset is past the joined text's length (line lengths plus one per separator) |
| `ColRow.RangesDisjoint` | Obsidian/.obsidian/plugins/obsidian-orthography/main.js:615-621 | with a non-empty line 0 or a positive offset, no two lines' ranges share the offset |
| `ColRow.ColRowInLine` | Obsidian/.obsidian/plugins/obsidian-orthography/main.js:615-624 | with a non-empty line 0 or a positive offset, a resolved position has 0 <= col <= line length and LineStart(row) + col == begin |
| `ColRow.ColRowOfPosition` | Obsidian/.obsidian/plugins/obsidian-orthography/main.js:615-624 | with a non-empty line 0, or for any position other than (row 0, col 0), every in-line position (end of line included) is what its own flat offset resolves to |
| `ColRow.PositionSlice` | Obsidian/.obsidian/plugins/obsidian-orthography/main.js:612-628 | with a non-empty line 0 or a positive offset, the text of the checker at [begin, begin + len) is the text of the resolved line at [col, col + len), when that fits the line |
| `ColRow.PositionSplice` | Obsidian/.obsidian/plugins/obsidian-orthography/main.js:612-628 | with a non-empty line 0 or a positive offset, splicing a word into the resolved line at [col, col + len) splices it into the joined text at [begin, begin + len) |
| `ColRow.EmptyFirstLineQuirk` | Obsidian/.obsidian/plugins/obsidian-orthography/main.js:615-625 | with an empty line 0 and a second line, offset 0 matches lines 0 and 1, and resolves to row 1, column -1 |
| `ColRow.TwoLineExample` | Obsidian/.obsidian/plugins/obsidian-orthography/main.js:608-628 | for "ab","cd": offset 2 gives (row 0, col 2), 3 gives (1, 0), 5 gives (1, 2), 6 gives nothing |
| `ColRow.JoinLength` | Obsidian/.obsidian/plugins/obsidian-orthography/main.js:759 | the text sent to the checker is as long as the line lengths plus one per separator |
| `ColRow.JoinAt` | Obsidian/.obsidian/plugins/obsidian-orthography/main.js:759 | character c of line i is at flat offset LineStart(i) + c of the text sent to the checker |
| `ColRow.JoinSeparator` | Obsidian/.obsidian/plugins/obsidian-orthography/main.js:759 | every line but the last is followed by one '\n' at flat offset LineEnd(i) |
| `ColRow.JoinUpdate` | Obsidian/.obsidian/plugins/obsidian-orthography/main.js:759 | rewriting one line rewrites exactly that line's span of the joined text |
| `AlertList.WithoutHidden` | Obsidian/.obsidian/plugins/obsidian-orthography/main.js:652 | the filter keeps no alert whose hidden is strictly true, every kept alert is from the input, every other alert is kept, and the result is no longer than the input |
| `AlertList.WithoutHiddenCounts` | Obsidian/.obsidian/plugins/obsidian-orthography/main.js:652 | the filter keeps each visible alert exactly as many times as the input holds it, and no hidden alert |
| `AlertList.DedupStep` | Obsidian/.obsidian/plugins/obsidian-orthography/main.js:653-661 | the reducer either leaves the accumulator as it is or appends the current alert, and it appends exactly when no alert of the accumulator has the current alert's explanation |
| `AlertList.Dedup` | Obsidian/.obsidian/plugins/obsidian-orthography/main.js:653-661 | the reduce only appends: the result starts with the initial accumulator and adds at most one alert per element |
| `AlertList.FormatAlerts` | Obsidian/.obsidian/plugins/obsidian-orthography/main.js:651-663 | formatAlerts never returns more alerts than it receives |
| `AlertList.Find` | Obsidian/.obsidian/plugins/obsidian-orthography/main.js:654 | `find` returns nothing exactly when no kept alert has the explanation (absent equals absent), otherwise the first such alert |
| `AlertList.FormatAlertsIsFirstOccurrences` | Obsidian/.obsidian/plugins/obsidian-orthography/main.js:651-663 | the filter-then-reduce equals a reference definition: in order, each visible alert that no earlier visible alert shares an explanation with |
| `AlertList.FormatAlertsIsSubsequence` | Obsidian/.obsidian/plugins/obsidian-orthography/main.js:651-663 | the result is the input with some alerts left out, in the input's order |
| `AlertList.FormatAlertsNoHidden` | Obsidian/.obsidian/plugins/obsidian-orthography/main.js:652 | no alert in the result has hidden strictly true |
| `AlertList.FormatAlertsDistinct` | Obsidian/.obsidian/plugins/obsidian-orthography/main.js:653-661 | the result's explanations are pairwise distinct under `===`; two absent explanations count as equal |
| `AlertList.FormatAlertsFirstPerExplanation` | Obsidian/.obsidian/plugins/obsidian-orthography/main.js:653-661 | each survivor is the first visible alert with its explanation, and every visible explanation survives |
| `AlertList.SortAlerts` | Obsidian/.obsidian/plugins/obsidian-orthography/main.js:648-650 | sorts the array in place and returns the same array; its contents become `SortByBegin` of the old contents |
| `AlertList.SortByBeginFacts` | Obsidian/.obsidian/plugins/obsidian-orthography/main.js:648-650 | that order is non-decreasing by begin, a permutation of the input, and stable: alerts with equal begin keep their relative order |
| `AlertList.FormatThenSortExample` | Obsidian/.obsidian/plugins/obsidian-orthography/main.js:767-772 | alerts A@5, B@1, A@9 format to A@5, B@1 (the first "A" in the checker's order survives) and sort to B@1, A@5 |
| `Types.IsHidden` | Obsidian/.obsidian/plugins/obsidian-orthography/main.js:652 | an alert passes the filter exactly when hidden is absent or false |
| `Types.WordOf` | Obsidian/.obsidian/plugins/obsidian-orthography/main.js:558-563 | the anchor highlightWords builds has the alert's begin and end, and the highlighted length |
| `Types.HighlightLen` | Obsidian/.obsidian/plugins/obsidian-orthography/main.js:558 | the highlighted length is text's length, or highlightText's length when text is empty |
| `Editor.OrthographyEditor.constructor` | Obsidian/.obsidian/plugins/obsidian-orthography/main.js:542-546 | a new editor wrapper holds the given buffer and no highlights |
| `Editor.OrthographyEditor.ClearHighlightWords` | Obsidian/.obsidian/plugins/obsidian-orthography/main.js:630-635 | afterwards no highlight of the plugin is left |
| `Editor.OrthographyEditor.Destroy` | Obsidian/.obsidian/plugins/obsidian-orthography/main.js:550-552 | afterwards no highlight of the plugin is left |
| `Editor.OrthographyEditor.HighlightWord` | Obsidian/.obsidian/plugins/obsidian-orthography/main.js:567-586 | appends the anchor's one range if its offset resolves, and nothing otherwise (or without an editor) |
| `Editor.OrthographyEditor.HighlightWords` | Obsidian/.obsidian/plugins/obsidian-orthography/main.js:553-566 | clears first, then the highlights are exactly `PaintAll(lines, alerts)`; none without an editor or without alerts |
| `Editor.PaintWord` | Obsidian/.obsidian/plugins/obsidian-orthography/main.js:567-586 | an anchor is painted exactly when its offset resolves, as one single-line range of length len at the resolved position, named `obsidian-orthography-highlight begin-<begin>` |
| `Editor.PaintAll` | Obsidian/.obsidian/plugins/obsidian-orthography/main.js:557-565 | the forEach adds at most one range per alert |
| `Editor.PaintAllFromAlerts` | Obsidian/.obsidian/plugins/obsidian-orthography/main.js:557-565 | every painted range is the range of one of the alerts |
| `Editor.PaintAllComplete` | Obsidian/.obsidian/plugins/obsidian-orthography/main.js:557-565 | every alert whose offset resolves is painted |
| `Editor.PaintAllCount` | Obsidian/.obsidian/plugins/obsidian-orthography/main.js:557-572 | an alert adds one range or none: at most as many ranges as alerts, and as many exactly when every alert resolves |
| `Editor.HighlightCoversFlaggedText` | Obsidian/.obsidian/plugins/obsidian-orthography/main.js:570-585 | with a non-empty line 0 or a positive offset, and a range that fits its line, the range covers exactly the characters at [begin, begin + len) of the text sent to the checker |
| `Editor.HighlightClassName` | Obsidian/.obsidian/plugins/obsidian-orthography/main.js:585 | the class name starts with `obsidian-orthography-highlight begin-`, followed by an optionally signed string of digits |
| `Editor.HighlightClassNameReadsBack` | Obsidian/.obsidian/plugins/obsidian-orthography/main.js:585 | `+` applied to the digits after the prefix gives the begin offset back |
| `Editor.HighlightClassNameInjective` | Obsidian/.obsidian/plugins/obsidian-orthography/main.js:585 | two anchors get the same class name exactly when their begin offsets are equal |
| `Editor.Clip` | Obsidian/.obsidian/plugins/obsidian-orthography/main.js:595-603 | the column the host uses is within the line: unchanged in range, the line length past the end, counted back from the end when negative |
| `Editor.Splice` | Obsidian/.obsidian/plugins/obsidian-orthography/main.js:595-603 | the line after replaceRange loses the characters between the clipped ends and gains the word; in range it is the line with [from, to) replaced by the word |
| `Editor.OrthographyEditor.ReplaceWord` | Obsidian/.obsidian/plugins/obsidian-orthography/main.js:587-604 | no change without an editor, for an empty replacement, or for an offset that does not resolve; otherwise the buffer becomes `ReplaceAt`: the resolved line with [col, col + len) replaced |
| `Editor.ReplaceAt` | Obsidian/.obsidian/plugins/obsidian-orthography/main.js:587-604 | the buffer replaceWord leaves: the line count is kept, an unresolved offset changes nothing, and every line but the resolved one is untouched |
| `Editor.ReplaceIsFlatSplice` | Obsidian/.obsidian/plugins/obsidian-orthography/main.js:590-603 | with a non-empty line 0 or a positive offset, and the word inside its line, the new joined text is the old one with [begin, begin + len) replaced by the new word |
| `Editor.ReplaceAfterEmptyFirstLine` | Obsidian/.obsidian/plugins/obsidian-orthography/main.js:590-603 | with lines "", "cd", offset 0 resolves to (row 1, col -1), so replaceRange receives (1, -1) to (1, 0); with the host's clipping and swapping of the ends this replaces the 'c', giving "", "Xd" |
| `Plugin.Anchor` | Obsidian/.obsidian/plugins/obsidian-orthography/main.js:794-801 | the anchor's begin reads back the span's offset, its len is the length of data-text, and its end is begin with len's decimal digits appended |
| `Plugin.OnReplaceWord` | Obsidian/.obsidian/plugins/obsidian-orthography/main.js:793-803 | the buffer becomes what replaceWord makes of the span's anchor and data-toreplace |
| `Plugin.DataText` | Obsidian/.obsidian/plugins/obsidian-orthography/main.js:125-187 | data-text is highlightText for Prepositions and text for every other category |
| `Plugin.SpanFor` | Obsidian/.obsidian/plugins/obsidian-orthography/main.js:125-187 | the span of a replacement carries the alert's begin, the replacement as data-toreplace, and highlightText for Prepositions or text otherwise as data-text |
| `Plugin.AnchorEndExample` | Obsidian/.obsidian/plugins/obsidian-orthography/main.js:796-800 | begin 12 and a three-character word give end 123, not 15 |
| `Plugin.ReplaceIgnoresEnd` | Obsidian/.obsidian/plugins/obsidian-orthography/main.js:587-604 | anchors that differ only in end replace the same range |
| `Plugin.ReplaceLengthMatchesHighlight` | Obsidian/.obsidian/plugins/obsidian-orthography/main.js:794-801 | the replaced length equals the highlighted length (line 558) exactly when: for Prepositions, text is empty or as long as highlightText; otherwise, text is non-empty or highlightText is empty |
| `Plugin.SpanAnchorsAtAlert` | Obsidian/.obsidian/plugins/obsidian-orthography/main.js:794-801 | a click anchors at the alert's begin, and with the highlighted length when the category is not Prepositions and text is non-empty |
| `Decimal.ParseShow` | Obsidian/.obsidian/plugins/obsidian-orthography/main.js:796-799 | `+` applied to the rendering `${n}` of an integer gives n back |
| `Decimal.ShowInjective` | Obsidian/.obsidian/plugins/obsidian-orthography/main.js:585 | different integers render to different strings |
| `Decimal.ParseConcat` | Obsidian/.obsidian/plugins/obsidian-orthography/main.js:797-800 | `+(String(b) + String(len))` is b shifted by len's number of digits, plus len (minus len for negative b) |

## Left out

- Network: `fetchData` (main.js:804-829) with `AbortController`, `fetch` and `response.json()` is I/O.
- Orchestration: `runChecker`, `onChangeText` and `onRunFromPopup` (main.js:731-780) are asynchronous glue around the network call. Their error branches (only a `TypeError` counts as a server error) are not modelled.
- Timers: `debounce` and the start-up `setTimeout` (main.js:638-646, 691-696) are scheduling primitives.
- HTML templating: `UIControls`, `renderHints`, `UIHints`, `UIBar` (main.js:113-249) only build strings for the DOM. The one exception is the choice of `data-text`, which is modelled as `Plugin.DataText`.
- Popup and runner button: `OrthographyPopup` and `OrthographyToggler` (main.js:252-539) are DOM and UI state. This includes deleting an alert's card after a replacement.
- Settings, the `__awaiter` helper, event wiring and the module-level `self` reference (main.js:20-89, 668-730) are host plumbing.
- CodeMirror calls (`lineCount`, `getLine`, `addHighlights`, `removeHighlights`, `replaceRange`) are foreign. They are modelled as reads and writes of the class's `lines` and `highlights` fields.
- Editor.OrthographyEditor.ReplaceWord: a replacement containing a line break is kept inside one line of the model; CodeMirror would split it into several lines.
- Editor.OrthographyEditor.ReplaceWord: the host moves existing highlight marks when text is edited; the model leaves `highlights` unchanged.
- Editor.OrthographyEditor.ClearHighlightWords: the source finds the highlight spans through a DOM query and removes each by its class name. The model empties the plugin's highlight set. Spans carrying an extra "focused" class are not modelled.
- AlertList.SortAlerts: `Array.prototype.sort` is host code. The model sorts by insertion and claims only the result: sorted by begin, a permutation, stable.
- Types.Alert: `explanation` is an `Option<string>`, so a JSON `null` and an absent field are the same value here. In the source `null !== undefined` (main.js:654), so an alert with a null explanation and one without any are not duplicates of each other.
- Decimal.Show: `${n}` is modelled as plain decimal digits for every integer. JavaScript switches to exponent form from 1e21, and its numbers lose integer precision above 2^53. Offsets of a note are far below either bound.
- Types.Alert: `begin` is an integer, and `text` and `highlightText` are strings. A missing `text` (a `TypeError` at main.js:558) and a `NaN` offset are not modelled.
- Plugin.DataText: the model takes `data-text` to be the alert's string itself. The source writes it unescaped into `data-text="${text}"` (main.js:135, 151, 165, 182), and the HTML parser then gives back something else in three cases. A `"` in the text ends the attribute early, so for `say "hi"` the length read back is 4, not 8. Character references such as `&amp;` are decoded. An undefined text becomes the string "undefined".
- Plugin.OnReplaceWord: `data-toreplace` is taken to be the replacement string itself, with the same HTML caveats as `data-text` (main.js:132, 152, 162, 179). For a removal hint with an empty `replacements`, `${replacements[0]}` is the string "undefined". That string is truthy, so the source writes "undefined" into the buffer; the model does not cover that case.
- Editor.OrthographyEditor.ReplaceWord: the model assumes one editor whose buffer does not change between `getValue` (main.js:759) and `highlightWords` / `replaceWord`. In the source the checked text comes from `activeEditor`, which is read again at main.js:744. `OrthographyEditor` keeps the editor it captured at start-up (main.js:692, 723). After a switch of pane, offsets from one document are resolved in another. The buffer can also be edited while the fetch is pending (main.js:760). In both cases the offsets no longer match the text.
- Editor.Clip: CodeMirror 5 is not part of this model. Clip and Splice follow its `clipToLen` and `replaceRange` as described above; another host could clip a negative column differently.

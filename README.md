# Excel Data Selector — a Dafny model

The Excel Data Selector is a small viewer over one spreadsheet. It loads rows with the
columns `Model`, `Property Name`, `Subject Data`, `Comp Data` and `Narrative`. It offers
two pick-lists, one for models and one for property names. Once both are chosen, it shows
every row that has that model and that property name. Each row's three text fields are
rendered through `format_text`, a four-step text-to-markup transform:

1. a line-start `o ` becomes the bullet `* `;
2. every newline becomes `<br>`, or `<br><br>` for the narrative;
3. every word with an inner `italic` is wrapped in `<i>…</i>`;
4. every `$` is escaped as `\$`.

The project has three modules:

- `TextFormat` (`text_format.dfy`) holds the transform as pure functions, one per step,
  composed in `FormatText`. The italic step is given twice. `Italics` walks maximal word
  runs. The ghost `RegexScan` follows the left-to-right scan that `re.sub` performs with
  the pattern `\b(\w+italic\w+)\b`. A lemma proves that the two agree.
- `Selector` (`selector.dfy`) holds the records, the pick-lists (a method with a loop,
  specified by the function `Unique`), the guard, and the filter (the function `Where` and
  its lemmas). It also holds the outcome `NeedBoth | NoMatch | Rows(rows)`. The method
  `Show` runs the page logic: guard, filter loop, empty check, render loop. It is proved
  equal to the function `Decide`.
- `FormatExamples` (`format_examples.dfy`) proves the transform on the kinds of text the
  viewer shows, including fully concrete inputs.

The regular expression at `app.py:88` requires at least one word character before
`italic` and one after it, so `italicized` and a bare `italic` are left unchanged and
`unitalicized` is wrapped (`FormatExamples.ItalicSentences`).

## Model

| member | source | states |
|---|---|---|
| `TextFormat.BulletsPointwise` | app.py:80 | the bullet step keeps the length; a position becomes `*` exactly when it holds the `o` of an `o ` at the start of the text or right after a newline; every other character is kept, so an `o ` mid-line or an `O ` is unchanged |
| `TextFormat.BulletsFromAcrossNewline` | app.py:80 | lines are rewritten independently: after a newline the scan is at a line start again, whatever came before |
| `TextFormat.BulletsSingleLine` | app.py:80 | one line that does not open with `o ` is returned unchanged |
| `TextFormat.BulletsFromNoNewline` | app.py:80 | away from a line start, text without a newline is never rewritten |
| `TextFormat.BulletsFromCount` | app.py:80 | the bullet step keeps the number of every character other than `o` and `*` |
| `TextFormat.ReplaceAppend` | app.py:84-90 | `str.replace` of one character works character by character: it distributes over concatenation |
| `TextFormat.ReplaceAbsent` | app.py:84-90 | `str.replace` leaves a text without the character unchanged |
| `TextFormat.ReplaceCount` | app.py:84-90 | a character occurring in the replacement as often as in the replaced character keeps its count |
| `TextFormat.ReplaceLength` | app.py:84-90 | the result is longer by `len(t) - 1` per replaced occurrence |
| `TextFormat.NewlinesLength` | app.py:82-86 | after the newline step no `\n` is left, and the result is 7 (with spacing) or 3 (without) characters longer per newline |
| `TextFormat.NewlinesEachBreak` | app.py:82-86 | a newline between two texts becomes exactly one break token, with each side rewritten on its own |
| `TextFormat.EscapeDollarsEscaped` | app.py:90 | after escaping, every `$` is preceded by a backslash and the number of `$` is unchanged |
| `TextFormat.WordRunLength` | app.py:88 | the run measured is maximal: all word characters, followed by the end or by a non-word character |
| `TextFormat.MatchAtRunStart` | app.py:88 | at the start of a maximal word run, `\b\w+italic\w+\b` matches exactly the whole run, and only when the run has an inner `italic` |
| `TextFormat.ScanInsideRun` | app.py:88 | no match can begin strictly inside a word run, so the scan copies it |
| `TextFormat.ItalicsIsRegexSub` | app.py:88 | the run-by-run italic step equals the left-to-right `re.sub` scan with `\b` boundaries and case-insensitive `italic` |
| `TextFormat.ItalicsRun` | app.py:88 | a maximal word run is wrapped with its original casing exactly when it has an inner `italic`; the text around it is treated independently |
| `TextFormat.ItalicsAppend` | app.py:88 | the italic step acts separately on two texts that do not split a word run between them |
| `TextFormat.ItalicsIdentity` | app.py:88 | a text with no qualifying word is returned unchanged |
| `TextFormat.NoItalicWordAppend` | app.py:88 | joining two texts with no qualifying word, without gluing two words together, creates none |
| `TextFormat.ItalicsCount` | app.py:88 | wrapping only adds tag characters: every other character keeps its count |
| `TextFormat.DollarsThroughFirstSteps` | app.py:80-88 | bullets, line breaks and italics neither add nor drop a `$` |
| `TextFormat.FormatTextNoNewline` | app.py:79-92 | the output of `format_text` contains no newline |
| `TextFormat.FormatTextDollars` | app.py:79-92 | in the output of `format_text` every `$` is escaped and there are as many `$` as in the input |
| `TextFormat.FormatTextIdentity` | app.py:79-92 | a text with no line-start `o `, no newline, no qualifying word and no `$` is returned unchanged |
| `FormatExamples.BulletLine` | app.py:80 | one line opening with `o ` gets the bullet marker and is otherwise unchanged |
| `FormatExamples.TwoBulletLines` | app.py:80 | two lines both opening with `o ` both get the bullet marker |
| `FormatExamples.BulletedLines` | app.py:79-92 | two bulleted lines format to two `* ` lines joined by one break token |
| `FormatExamples.DollarAmount` | app.py:79-92 | a single-line text with one `$` comes back with only that `$` escaped |
| `FormatExamples.SentenceWithWord` | app.py:79-92 | in a single-line sentence only the one word can be wrapped, and it is wrapped exactly when it has an inner `italic` |
| `FormatExamples.SentenceItalics` | app.py:88-90 | italics then escaping on such a sentence rewrites only the word |
| `FormatExamples.WordPlain` | app.py:88 | a word run holds no newline and no `$` |
| `FormatExamples.ItalicizedNotWrapped` | app.py:88 | `italicized` starts with `italic`, so it is not wrapped |
| `FormatExamples.UnitalicizedWrapped` | app.py:88 | `unitalicized` has word characters on both sides of `italic`, so it is wrapped |
| `FormatExamples.BareItalicNotWrapped` | app.py:88 | a bare `italic` is not wrapped |
| `FormatExamples.PointOnePointTwo` | app.py:79-92 | `"o Point one\no Point two"` with spacing formats to `"* Point one<br><br>* Point two"` |
| `FormatExamples.PriceInDollars` | app.py:79-92 | `"Price: $100"` formats to `"Price: \$100"` |
| `FormatExamples.ItalicSentences` | app.py:79-92 | `"This is italicized text"` is returned unchanged; `"This is unitalicized text"` gets `<i>unitalicized</i>` |
| `Selector.Unique` | app.py:25-26 | `unique()` has the same values as the column and no value twice |
| `Selector.UniqueFirstSeen` | app.py:25-26 | the distinct values come out in the order of their first occurrence |
| `Selector.UniqueCount` | app.py:25-26 | there are as many distinct values as the column has different values |
| `Selector.PickList` | app.py:25-29 | the loop builds the sentinel followed by the column's distinct values in first-seen order |
| `Selector.PickLists` | app.py:25-29 | each pick-list has its sentinel (`Select Model`, `Select Property Name`) at index 0, then the distinct values, and has the distinct count plus one entries |
| `Selector.FilterFor` | app.py:36-43 | the property-only filter is chosen exactly when the model is the sentinel, the model-only filter exactly when only the property name is |
| `Selector.SingleKeyBranchesUnreachable` | app.py:36-43 | under the guard, the single-key branches are never taken: the filter is the two-key AND |
| `Selector.WhereLength` | app.py:42-43 | the filter keeps as many rows as satisfy the condition |
| `Selector.WhereMembers` | app.py:42-43 | a row is kept exactly when it is in the dataset and satisfies the condition |
| `Selector.WherePositions` | app.py:42-43 | each matching row lands at the position given by the number of matching rows before it |
| `Selector.KeptInOrder` | app.py:42-50 | of two matching rows, the earlier one in the dataset comes earlier in the result |
| `Selector.WhereExactly` | app.py:42-43 | the filter is the order-preserving subsequence of exactly the matching rows |
| `Selector.WhereOfMatching` | app.py:42-43 | rows that all match come back unchanged |
| `Selector.WhereIdempotent` | app.py:42-43 | filtering an already filtered view by the same condition returns it unchanged |
| `Selector.DecideCases` | app.py:36-50 | the hint appears exactly when a sentinel is still chosen; the warning exactly when both are chosen and no row has both values; otherwise the rows are exactly those with both values, in dataset order |
| `Selector.RenderClean` | app.py:59-72 | a row's three formatted texts hold no raw newline, every `$` in them is escaped, and each has as many `$` as the field it renders |
| `Selector.Show` | app.py:36-77 | the page's outcome equals `Decide`; with rows, one rendering per kept row in order; otherwise nothing is rendered |

## Left out

- Streamlit calls (`st.title`, `st.sidebar`, `st.selectbox`, `st.header`, `st.markdown`, `st.columns`, `st.info`, `st.warning`, `st.error`, app.py:6, 31-34, 45-77) are presentation only; `Show` returns the outcome and the rendered texts instead, and the two choices are parameters.
- `Selector.Show`: the choices are any two strings; the widget would only offer values of the pick-lists, and the model does not need that restriction.
- `Selector.Render`: the `---` separators, the `### Subject Data`, `### Comp Data` and `### Narrative` headings and the two-column layout (app.py:53-74) are not modelled; only the row heading and the three formatted texts are.
- Loading the Excel file and its error message (app.py:8-13) is file I/O through a foreign library.
- Stripping column names (app.py:16) only affects how pandas finds columns; records carry their fields directly.
- The conversion of cells to text (app.py:19-23) depends on pandas' stringification (`nan`, dates, numbers); every field is taken to be a string already.
- The `else []` for a missing column (app.py:25-26) cannot be reached: app.py:19-20 read both columns first and fail if either is missing. Records always have both fields.
- `TextFormat.IsWordChar`: `\w` is restricted to ASCII letters, digits and `_`; Python's Unicode word characters are not modelled.
- `TextFormat.ItalicAt`: `re.IGNORECASE` is modelled as ASCII case folding; Unicode case-insensitive matching (such as the dotless `ı`) is not modelled.
- Interpreting the produced markup (`unsafe_allow_html=True`) belongs to the Markdown renderer.

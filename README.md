# Fixed-length repeated-window detector

This project models `find_repeated_sequences` of the CSV sentence checker
(`app.py`), the function that finds text fragments shared between sentences of
an uploaded table of (task id, sentence) rows, and proves what it reports.

The detector works in three passes, and the model keeps them:

1. **Window generation** (`Detector.GenerateWindows`). For each row at input
   position `p` whose sentence has at least `minLength` characters, every
   window of exactly `minLength` characters is appended to a list, tagged with
   the displayed row index `p + 2`, the task id, the sentence and the start
   offset. Shorter sentences are skipped.
2. **Grouping** (`Detector.GroupWindows`). The windows are grouped by their
   exact text into a dictionary built in place: a new key gets an empty list,
   then the occurrence is appended.
3. **Filtering** (`Detector.FilterRepeated`). Walking the dictionary in
   insertion order, a group is kept when the set of distinct row indices among
   its occurrences has more than one element.

A Python dictionary is modelled as a `map` plus the sequence of its keys in
insertion order, so the model also states the order in which the result lists
its keys. Rows are `seq<(string, string)>`, already converted to text.

`WindowSpec` (window_spec.dfy) describes each pass as a pure function;
`Detector` (find_repeated.dfy) holds the loops, each proved equal to its
function; `WindowProperties` (window_properties.dfy) proves, about those
functions, what the detector promises. The properties are stated against
`Occurs(rows, minLength, i, j, key)`: "`key` is the `minLength`-character
slice of row `i`'s sentence at offset `j`". That predicate is defined directly
on the input, independently of the windows and groups.

The code and its own comments and page text disagree in one place, and the
model follows the code. The comment at app.py:21 says windows of `min_length`
"or greater" are generated, and the page text at app.py:60, app.py:92 and
app.py:114 speaks of sequences "longer than 15" or "of 15 characters or more".
The code only generates windows of exactly `min_length`, so every reported key
has exactly that length. A longer shared fragment therefore shows up as
several overlapping keys.

## Model

| member | source | states |
|---|---|---|
| Detector.FindRepeatedSequences | app.py:5-52 | The returned dictionary is exactly the repeated groups of the grouped windows. Its key order is the insertion order: it lists every reported key exactly once, ordered by each key's first window. Every key has length `minLength`. |
| Detector.GenerateWindows | app.py:19-34 | The nested loops produce every window of every row whose sentence is at least `minLength` long, rows in input order and offsets ascending. |
| Detector.GroupWindows | app.py:36-41 | The in-place grouping loop yields, for each window text, the occurrences with that text in generation order. Its keys appear in order of first appearance. |
| Detector.FilterRepeated | app.py:43-52 | Walking the keys in insertion order keeps exactly the groups with more than one distinct row index, with their lists unchanged, in the same relative order. |
| WindowProperties.KeysHaveWindowLength | app.py:32-33 | Every reported key is exactly `minLength` characters long, not "or greater". |
| WindowProperties.OccurrencesMatch | app.py:23-34 | Every listed occurrence matches its key. Its row index is an input position plus 2, and that row holds the occurrence's task id and sentence. Its offset `j` satisfies `j + minLength <= len(sentence)` and `sentence[j:j+minLength] == key`. |
| WindowProperties.RepeatedIff | app.py:45-50 | A sequence is reported if and only if it occurs as a `minLength` window in two different input rows. |
| WindowProperties.SingleRowNeverReported | app.py:47-49 | A sequence that occurs only within one row, however many times, is never reported. |
| WindowProperties.OccurrencesComplete | app.py:32-41 | For a reported key, every offset in every row where it occurs is listed, including overlapping offsets and repeats inside one row. |
| WindowProperties.ShortRowsContributeNothing | app.py:29-30 | A row whose sentence is shorter than `minLength` has no occurrence under any reported key. |
| WindowProperties.OccurrencesAscending | app.py:23-41 | Within each reported key, occurrences are in strictly ascending (row index, offset) order, which is generation order. |
| WindowProperties.ReportOrderKeys | app.py:37-50 | The result's key order has no duplicates and lists exactly the result's keys, each key placed by its first window in generation order. |
| WindowProperties.AllWindowsMembership | app.py:23-34 | A window is generated exactly when it is the slice of some row's sentence at some offset `j` with `j + minLength <= len(sentence)`, tagged with that row's index plus 2, task id, sentence and `j`. |
| WindowProperties.AllWindowsAscending | app.py:23-34 | Windows are generated in strictly ascending (row index, offset) order. |
| WindowProperties.OccurrencesOfMembership | app.py:38-41 | An occurrence is listed under a key exactly when a window with that text and that occurrence was generated. |
| WindowProperties.GroupedStep | app.py:39-41 | One grouping step adds the window's occurrence at the end of its key's list, and starts an empty list first when the key is new. Every other key is untouched. |
| WindowProperties.FirstOrderByFirstAppearance | app.py:37-40 | The dictionary's key order sorts the keys by the index of their first window. |
| WindowProperties.MoreThanOneRowIff | app.py:47-49 | The distinct-row set has more than one element exactly when two occurrences of the group carry different row indices. |

## Left out

- The Streamlit page: title, markdown, file uploader, spinner, success, warning, info and error messages (app.py:55-123). These are presentation and I/O.
- CSV parsing with `pd.read_csv` and the `df.iterrows()` loop that builds the (task id, sentence) list, with its "not enough columns" warning (app.py:71-83). The model takes the resulting list as its input.
- The `str(...)` conversion of both fields (app.py:26-27): rows are already strings. `pd.isna` applied to a string is always false, so the only filter modelled is the length check (app.py:29).
- The `<mark>` highlighting of each occurrence and the per-key distinct-sentence count shown on the page (app.py:96-111). These are display only.
- The `except Exception` handler (app.py:116-117), which only displays errors.
- The default `min_length=15` and the call with 15 (app.py:5, 88): the window length is a parameter of the model.
- A negative `min_length` is not modelled; it would make Python slice with negative indices. The window length is a `nat`.
- The lists are modelled as values. In the source, `repeated_sequences` shares each list object with `grouped_sequences`. Nothing modifies those lists after the function returns, so the sharing is not observable.
- Characters are Dafny `char` values (Unicode scalar values), matching Python's indexing of `str` by code point for the text this tool targets.

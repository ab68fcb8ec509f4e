/**
 The fixed-length repeated-window detector, as pure functions.

 A sentence of at least `minLength` characters yields one window per start
 offset; windows are grouped by their exact text (in generation order, the
 groups themselves in order of first appearance); a group is reported when its
 occurrences come from more than one row.
 */
module WindowSpec {

  /** One input row: (task id, sentence), both already converted to text. */
  type Row = (string, string)

  /** Rows are shown 1-based after a header line: input position p is displayed as p + 2. */
  const DisplayOffset: nat := 2

  /** Where a window was found: displayed row index, task id, the whole sentence, start offset. */
  datatype Occurrence = Occurrence(row: int, taskId: string, sentence: string, start: nat)

  /** A generated window: its text and where it was found. */
  datatype Window = Window(text: string, occ: Occurrence)

  /** The windows of one row at input position `index`, in ascending start offset. */
  function RowWindows(index: nat, row: Row, minLength: nat): seq<Window>
  {
    if |row.1| < minLength then []
    else
      seq(|row.1| - minLength + 1, j requires 0 <= j < |row.1| - minLength + 1 =>
        Window(row.1[j..j + minLength], Occurrence(index + DisplayOffset, row.0, row.1, j)))
  }

  /** Every window of every row, rows in input order. */
  function AllWindows(rows: seq<Row>, minLength: nat): seq<Window>
    decreases |rows|
  {
    if rows == [] then []
    else AllWindows(rows[..|rows| - 1], minLength) + RowWindows(|rows| - 1, rows[|rows| - 1], minLength)
  }

  /** The texts of the windows. */
  function Texts(ws: seq<Window>): set<string>
  {
    set w | w in ws :: w.text
  }

  /** The occurrences of the windows whose text is `key`, in window order. */
  function OccurrencesOf(ws: seq<Window>, key: string): seq<Occurrence>
    decreases |ws|
  {
    if ws == [] then []
    else
      var last := ws[|ws| - 1];
      OccurrencesOf(ws[..|ws| - 1], key) + (if last.text == key then [last.occ] else [])
  }

  /** The windows grouped by text. */
  function Grouped(ws: seq<Window>): map<string, seq<Occurrence>>
  {
    map k | k in Texts(ws) :: OccurrencesOf(ws, k)
  }

  /** The distinct window texts in order of first appearance (the grouping's key order). */
  function FirstOrder(ws: seq<Window>): seq<string>
    decreases |ws|
  {
    if ws == [] then []
    else
      var before := FirstOrder(ws[..|ws| - 1]);
      var text := ws[|ws| - 1].text;
      if text in before then before else before + [text]
  }

  /** The distinct displayed row indices among some occurrences. */
  function RowsOf(occs: seq<Occurrence>): set<int>
  {
    set o | o in occs :: o.row
  }

  /** A group is repeated when it spans more than one distinct row. */
  predicate IsRepeated(occs: seq<Occurrence>)
  {
    |RowsOf(occs)| > 1
  }

  /** The repeated groups of a grouping. */
  function Repeated(grouped: map<string, seq<Occurrence>>): map<string, seq<Occurrence>>
  {
    map k | k in grouped && IsRepeated(grouped[k]) :: grouped[k]
  }

  /** The keys of `order` whose groups are repeated, in the same order. */
  function KeepRepeated(order: seq<string>, grouped: map<string, seq<Occurrence>>): seq<string>
    decreases |order|
  {
    if order == [] then []
    else
      var last := order[|order| - 1];
      KeepRepeated(order[..|order| - 1], grouped)
      + (if last in grouped && IsRepeated(grouped[last]) then [last] else [])
  }

  /** The detector's result. */
  function FindRepeated(rows: seq<Row>, minLength: nat): map<string, seq<Occurrence>>
  {
    Repeated(Grouped(AllWindows(rows, minLength)))
  }

  /** The order in which the result's keys were inserted. */
  function ReportOrder(rows: seq<Row>, minLength: nat): seq<string>
  {
    var ws := AllWindows(rows, minLength);
    KeepRepeated(FirstOrder(ws), Grouped(ws))
  }

  // ---- Independent descriptions, used to state the properties ----

  /** `key` is the window of length `minLength` that starts at offset `j` of row `i`'s sentence. */
  predicate Occurs(rows: seq<Row>, minLength: nat, i: int, j: int, key: string)
  {
    && 0 <= i < |rows|
    && |key| == minLength
    && 0 <= j && j + minLength <= |rows[i].1|
    && rows[i].1[j..j + minLength] == key
  }

  /** `w` is the window generated for row `i` at offset `j`. */
  predicate WindowAt(rows: seq<Row>, minLength: nat, i: int, j: int, w: Window)
  {
    && 0 <= i < |rows|
    && 0 <= j && j + minLength <= |rows[i].1|
    && w == Window(rows[i].1[j..j + minLength], Occurrence(i + DisplayOffset, rows[i].0, rows[i].1, j))
  }

  /** Occurrence `a` comes strictly before `b` in (row, offset) order. */
  predicate Precedes(a: Occurrence, b: Occurrence)
  {
    a.row < b.row || (a.row == b.row && a.start < b.start)
  }

  predicate Ascending(occs: seq<Occurrence>)
  {
    forall p, q :: 0 <= p < q < |occs| ==> Precedes(occs[p], occs[q])
  }

  predicate WindowsAscending(ws: seq<Window>)
  {
    forall p, q :: 0 <= p < q < |ws| ==> Precedes(ws[p].occ, ws[q].occ)
  }

  /** The first window with text `a` comes before every window with text `b`. */
  predicate FirstAppearsBefore(ws: seq<Window>, a: string, b: string)
  {
    exists t :: 0 <= t < |ws| && ws[t].text == a &&
      forall u :: 0 <= u < |ws| && ws[u].text == b ==> t < u
  }

  predicate Distinct<T(==)>(s: seq<T>)
  {
    forall p, q :: 0 <= p < q < |s| ==> s[p] != s[q]
  }
}

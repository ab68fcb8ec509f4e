/**
 What the detector promises, proved about the pure description in WindowSpec.
 */
module WindowProperties {
  import opened WindowSpec

  // ---- Windows ----

  lemma RowWindowsMembership(rows: seq<Row>, minLength: nat, i: int, w: Window)
    requires 0 <= i < |rows|
    ensures w in RowWindows(i, rows[i], minLength) <==> exists j :: WindowAt(rows, minLength, i, j, w)
  {
    var ws := RowWindows(i, rows[i], minLength);
    if w in ws {
      var j :| 0 <= j < |ws| && ws[j] == w;
      assert WindowAt(rows, minLength, i, j, w);
    }
    if exists j :: WindowAt(rows, minLength, i, j, w) {
      var j :| WindowAt(rows, minLength, i, j, w);
      assert ws[j] == w;
    }
  }

  /** A window is generated exactly when it is some row's window at some valid offset. */
  lemma {:induction false} AllWindowsMembership(rows: seq<Row>, minLength: nat, w: Window)
    ensures w in AllWindows(rows, minLength) <==> exists i, j :: WindowAt(rows, minLength, i, j, w)
    decreases |rows|
  {
    if rows != [] {
      var n := |rows| - 1;
      var prefix := rows[..n];
      AllWindowsMembership(prefix, minLength, w);
      RowWindowsMembership(rows, minLength, n, w);
      if w in AllWindows(rows, minLength) {
        if w in AllWindows(prefix, minLength) {
          var i, j :| WindowAt(prefix, minLength, i, j, w);
          assert WindowAt(rows, minLength, i, j, w);
        } else {
          var j :| WindowAt(rows, minLength, n, j, w);
        }
      }
      if exists i, j :: WindowAt(rows, minLength, i, j, w) {
        var i, j :| WindowAt(rows, minLength, i, j, w);
        if i < n {
          assert WindowAt(prefix, minLength, i, j, w);
        } else {
          assert w in RowWindows(n, rows[n], minLength);
        }
      }
    }
  }

  lemma {:induction false} AllWindowsBounds(rows: seq<Row>, minLength: nat)
    ensures forall w :: w in AllWindows(rows, minLength) ==>
              DisplayOffset <= w.occ.row < |rows| + DisplayOffset
  {
    forall w | w in AllWindows(rows, minLength)
      ensures DisplayOffset <= w.occ.row < |rows| + DisplayOffset
    {
      AllWindowsMembership(rows, minLength, w);
    }
  }

  /** Windows are generated in strictly ascending (row, offset) order. */
  lemma {:induction false} AllWindowsAscending(rows: seq<Row>, minLength: nat)
    ensures WindowsAscending(AllWindows(rows, minLength))
    decreases |rows|
  {
    if rows != [] {
      var n := |rows| - 1;
      var a := AllWindows(rows[..n], minLength);
      var b := RowWindows(n, rows[n], minLength);
      var ws := a + b;
      AllWindowsAscending(rows[..n], minLength);
      AllWindowsBounds(rows[..n], minLength);
      forall p, q | 0 <= p < q < |ws| ensures Precedes(ws[p].occ, ws[q].occ) {
        if q < |a| {
          assert ws[p] == a[p] && ws[q] == a[q];
        } else if p < |a| {
          assert ws[p] == a[p] && a[p] in a;
          assert ws[q] == b[q - |a|];
        } else {
          assert ws[p] == b[p - |a|] && ws[q] == b[q - |a|];
        }
      }
    }
  }

  // ---- Grouping ----

  /** An occurrence is listed under `key` exactly when a window with that text and occurrence exists. */
  lemma {:induction false} OccurrencesOfMembership(ws: seq<Window>, key: string, o: Occurrence)
    ensures o in OccurrencesOf(ws, key) <==> Window(key, o) in ws
    decreases |ws|
  {
    if ws != [] {
      var n := |ws| - 1;
      OccurrencesOfMembership(ws[..n], key, o);
      assert ws == ws[..n] + [ws[n]];
    }
  }

  lemma {:induction false} OccurrencesOfAbsent(ws: seq<Window>, key: string)
    requires key !in Texts(ws)
    ensures OccurrencesOf(ws, key) == []
  {
    var occs := OccurrencesOf(ws, key);
    if occs != [] {
      OccurrencesOfMembership(ws, key, occs[0]);
    }
  }

  /** Subsequences of ascending windows stay ascending. */
  lemma {:induction false} OccurrencesOfAscending(ws: seq<Window>, key: string)
    requires WindowsAscending(ws)
    ensures Ascending(OccurrencesOf(ws, key))
    decreases |ws|
  {
    if ws != [] {
      var n := |ws| - 1;
      var prefix := ws[..n];
      assert WindowsAscending(prefix) by {
        forall p, q | 0 <= p < q < |prefix| ensures Precedes(prefix[p].occ, prefix[q].occ) {
          assert prefix[p] == ws[p] && prefix[q] == ws[q];
        }
      }
      OccurrencesOfAscending(prefix, key);
      var before := OccurrencesOf(prefix, key);
      if ws[n].text == key {
        var occs := before + [ws[n].occ];
        forall p, q | 0 <= p < q < |occs| ensures Precedes(occs[p], occs[q]) {
          if q < |before| {
            assert occs[p] == before[p] && occs[q] == before[q];
          } else {
            assert occs[p] == before[p] && before[p] in before;
            OccurrencesOfMembership(prefix, key, before[p]);
            var t :| 0 <= t < |prefix| && prefix[t] == Window(key, before[p]);
            assert ws[t] == prefix[t];
          }
        }
      }
    }
  }

  /** One grouping step: append the window's occurrence to its key's list, creating it if new. */
  lemma GroupedStep(ws: seq<Window>, w: Window)
    ensures Grouped(ws + [w]) ==
            Grouped(ws)[w.text := (if w.text in Grouped(ws) then Grouped(ws)[w.text] else []) + [w.occ]]
  {
    var ws' := ws + [w];
    assert ws'[..|ws'| - 1] == ws;
    assert Texts(ws') == Texts(ws) + {w.text} by {
      forall k | k in Texts(ws') ensures k in Texts(ws) + {w.text} {
        var v :| v in ws' && v.text == k;
        if v != w { assert v in ws; }
      }
      forall k | k in Texts(ws) ensures k in Texts(ws') {
        var v :| v in ws && v.text == k;
        assert v in ws';
      }
    }
    if w.text !in Texts(ws) {
      OccurrencesOfAbsent(ws, w.text);
    }
    var g, g' := Grouped(ws), Grouped(ws');
    var rhs := g[w.text := (if w.text in g then g[w.text] else []) + [w.occ]];
    forall k | k in Texts(ws') ensures g'[k] == rhs[k] {
      assert OccurrencesOf(ws', k) == OccurrencesOf(ws, k) + (if w.text == k then [w.occ] else []);
    }
    assert g'.Keys == rhs.Keys;
  }

  lemma {:induction false} FirstOrderElems(ws: seq<Window>)
    ensures forall k :: k in FirstOrder(ws) <==> k in Texts(ws)
    decreases |ws|
  {
    if ws != [] {
      var n := |ws| - 1;
      FirstOrderElems(ws[..n]);
      assert ws == ws[..n] + [ws[n]];
      assert Texts(ws) == Texts(ws[..n]) + {ws[n].text} by {
        forall k | k in Texts(ws) ensures k in Texts(ws[..n]) + {ws[n].text} {
          var v :| v in ws && v.text == k;
          if v != ws[n] { assert v in ws[..n]; }
        }
        forall k | k in Texts(ws[..n]) ensures k in Texts(ws) {
          var v :| v in ws[..n] && v.text == k;
          assert v in ws;
        }
      }
    }
  }

  /** The grouping's key order never repeats a key. */
  lemma {:induction false} FirstOrderDistinct(ws: seq<Window>)
    ensures Distinct(FirstOrder(ws))
    decreases |ws|
  {
    if ws != [] {
      FirstOrderDistinct(ws[..|ws| - 1]);
    }
  }

  /** The grouping's keys are ordered by their first window. */
  lemma {:induction false} FirstOrderByFirstAppearance(ws: seq<Window>)
    ensures forall p, q :: 0 <= p < q < |FirstOrder(ws)| ==>
              FirstAppearsBefore(ws, FirstOrder(ws)[p], FirstOrder(ws)[q])
    decreases |ws|
  {
    if ws != [] {
      var n := |ws| - 1;
      var prefix := ws[..n];
      var before := FirstOrder(prefix);
      var order := FirstOrder(ws);
      FirstOrderByFirstAppearance(prefix);
      FirstOrderElems(prefix);
      forall p, q | 0 <= p < q < |order| ensures FirstAppearsBefore(ws, order[p], order[q]) {
        if q < |before| {
          assert order[p] == before[p] && order[q] == before[q];
          var t :| 0 <= t < |prefix| && prefix[t].text == before[p] &&
                   forall u :: 0 <= u < |prefix| && prefix[u].text == before[q] ==> t < u;
          forall u | 0 <= u < |ws| && ws[u].text == order[q] ensures t < u {
            if u < n { assert prefix[u] == ws[u]; }
          }
          assert ws[t] == prefix[t];
        } else {
          // the newest key has no earlier window
          assert order[q] == ws[n].text && ws[n].text !in before;
          assert order[p] == before[p] && before[p] in before;
          var v :| v in prefix && v.text == before[p];
          var t :| 0 <= t < |prefix| && prefix[t] == v;
          forall u | 0 <= u < |ws| && ws[u].text == order[q] ensures t < u {
            if u < n {
              assert false;
            }
          }
          assert ws[t] == prefix[t];
        }
      }
    }
  }

  lemma {:induction false} KeepRepeatedElems(order: seq<string>, grouped: map<string, seq<Occurrence>>)
    ensures forall k :: k in KeepRepeated(order, grouped) <==>
              k in order && k in grouped && IsRepeated(grouped[k])
    decreases |order|
  {
    if order != [] {
      var n := |order| - 1;
      KeepRepeatedElems(order[..n], grouped);
      assert order == order[..n] + [order[n]];
    }
  }

  lemma {:induction false} KeepRepeatedDistinct(order: seq<string>, grouped: map<string, seq<Occurrence>>)
    requires Distinct(order)
    ensures Distinct(KeepRepeated(order, grouped))
    decreases |order|
  {
    if order != [] {
      var n := |order| - 1;
      var prefix := order[..n];
      assert Distinct(prefix) by {
        forall p, q | 0 <= p < q < |prefix| ensures prefix[p] != prefix[q] {
          assert prefix[p] == order[p] && prefix[q] == order[q];
        }
      }
      KeepRepeatedDistinct(prefix, grouped);
      KeepRepeatedElems(prefix, grouped);
      assert order[n] !in prefix by {
        forall t | 0 <= t < |prefix| ensures prefix[t] != order[n] {
          assert prefix[t] == order[t];
        }
      }
    }
  }

  /** Keeping a subsequence keeps the first-appearance order. */
  lemma {:induction false} KeepRepeatedByFirstAppearance(ws: seq<Window>, order: seq<string>,
                                                        grouped: map<string, seq<Occurrence>>)
    requires forall p, q :: 0 <= p < q < |order| ==> FirstAppearsBefore(ws, order[p], order[q])
    ensures forall p, q :: 0 <= p < q < |KeepRepeated(order, grouped)| ==>
              FirstAppearsBefore(ws, KeepRepeated(order, grouped)[p], KeepRepeated(order, grouped)[q])
    decreases |order|
  {
    if order != [] {
      var n := |order| - 1;
      var prefix := order[..n];
      forall p, q | 0 <= p < q < |prefix| ensures FirstAppearsBefore(ws, prefix[p], prefix[q]) {
        assert prefix[p] == order[p] && prefix[q] == order[q];
      }
      KeepRepeatedByFirstAppearance(ws, prefix, grouped);
      var before := KeepRepeated(prefix, grouped);
      var kept := KeepRepeated(order, grouped);
      KeepRepeatedElems(prefix, grouped);
      forall p, q | 0 <= p < q < |kept| ensures FirstAppearsBefore(ws, kept[p], kept[q]) {
        if q < |before| {
          assert kept[p] == before[p] && kept[q] == before[q];
        } else {
          assert kept[p] == before[p] && before[p] in before;
          var t :| 0 <= t < |prefix| && prefix[t] == before[p];
          assert order[t] == prefix[t] && kept[q] == order[n];
        }
      }
    }
  }

  // ---- Sets of rows ----

  /** More than one distinct row exactly when two occurrences differ in their row. */
  lemma MoreThanOneRowIff(occs: seq<Occurrence>)
    ensures IsRepeated(occs) <==>
            exists p, q :: 0 <= p < |occs| && 0 <= q < |occs| && occs[p].row != occs[q].row
  {
    var rs := RowsOf(occs);
    if exists p, q :: 0 <= p < |occs| && 0 <= q < |occs| && occs[p].row != occs[q].row {
      var p, q :| 0 <= p < |occs| && 0 <= q < |occs| && occs[p].row != occs[q].row;
      assert occs[p] in occs && occs[q] in occs;
      assert {occs[p].row, occs[q].row} <= rs;
      SubsetCardinality({occs[p].row, occs[q].row}, rs);
    } else if occs == [] {
      assert rs == {};
    } else {
      forall r | r in rs ensures r in {occs[0].row} {
        var o :| o in occs && o.row == r;
        var t :| 0 <= t < |occs| && occs[t] == o;
      }
      SubsetCardinality(rs, {occs[0].row});
    }
  }

  lemma SubsetCardinality(a: set<int>, b: set<int>)
    requires a <= b
    ensures |a| <= |b|
  {
    assert b == a + (b - a);
  }

  /** A row index `i + DisplayOffset` is among the rows of key's group exactly when the key occurs in row i. */
  lemma RowOfGroup(rows: seq<Row>, minLength: nat, key: string, i: int)
    ensures (i + DisplayOffset) in RowsOf(OccurrencesOf(AllWindows(rows, minLength), key)) <==>
            exists j :: Occurs(rows, minLength, i, j, key)
  {
    var ws := AllWindows(rows, minLength);
    var occs := OccurrencesOf(ws, key);
    if (i + DisplayOffset) in RowsOf(occs) {
      var o :| o in occs && o.row == i + DisplayOffset;
      OccurrencesOfMembership(ws, key, o);
      AllWindowsMembership(rows, minLength, Window(key, o));
      var i', j :| WindowAt(rows, minLength, i', j, Window(key, o));
      assert i' == i;
      assert Occurs(rows, minLength, i, j, key);
    }
    if exists j :: Occurs(rows, minLength, i, j, key) {
      var j :| Occurs(rows, minLength, i, j, key);
      var o := Occurrence(i + DisplayOffset, rows[i].0, rows[i].1, j);
      assert WindowAt(rows, minLength, i, j, Window(key, o));
      AllWindowsMembership(rows, minLength, Window(key, o));
      OccurrencesOfMembership(ws, key, o);
    }
  }

  /** Every row index among a group's occurrences is a displayed input position. */
  lemma GroupRowsAreRows(rows: seq<Row>, minLength: nat, key: string, r: int)
    requires r in RowsOf(OccurrencesOf(AllWindows(rows, minLength), key))
    ensures DisplayOffset <= r < |rows| + DisplayOffset
  {
    var ws := AllWindows(rows, minLength);
    var o :| o in OccurrencesOf(ws, key) && o.row == r;
    OccurrencesOfMembership(ws, key, o);
    AllWindowsBounds(rows, minLength);
  }

  // ---- The properties of the result ----

  /** Every reported sequence is exactly `minLength` characters long. */
  lemma KeysHaveWindowLength(rows: seq<Row>, minLength: nat, key: string)
    requires key in FindRepeated(rows, minLength)
    ensures |key| == minLength
  {
    var ws := AllWindows(rows, minLength);
    var w :| w in ws && w.text == key;
    AllWindowsMembership(rows, minLength, w);
  }

  /**
   Every listed occurrence is a real match: it carries its row's task id and
   sentence, its row index is the input position plus two, and the sentence
   holds the key at its offset.
   */
  lemma OccurrencesMatch(rows: seq<Row>, minLength: nat, key: string, o: Occurrence)
    requires key in FindRepeated(rows, minLength)
    requires o in FindRepeated(rows, minLength)[key]
    ensures DisplayOffset <= o.row < |rows| + DisplayOffset
    ensures rows[o.row - DisplayOffset] == (o.taskId, o.sentence)
    ensures o.start + minLength <= |o.sentence|
    ensures o.sentence[o.start..o.start + minLength] == key
    ensures Occurs(rows, minLength, o.row - DisplayOffset, o.start, key)
  {
    var ws := AllWindows(rows, minLength);
    OccurrencesOfMembership(ws, key, o);
    AllWindowsMembership(rows, minLength, Window(key, o));
    var i, j :| WindowAt(rows, minLength, i, j, Window(key, o));
  }

  lemma RepeatedHasTwoRows(rows: seq<Row>, minLength: nat, key: string)
    requires key in FindRepeated(rows, minLength)
    ensures exists i1, j1, i2, j2 :: i1 != i2 && Occurs(rows, minLength, i1, j1, key)
                                   && Occurs(rows, minLength, i2, j2, key)
  {
    var occs := OccurrencesOf(AllWindows(rows, minLength), key);
    MoreThanOneRowIff(occs);
    var p, q :| 0 <= p < |occs| && 0 <= q < |occs| && occs[p].row != occs[q].row;
    var a, b := occs[p].row, occs[q].row;
    assert occs[p] in occs && occs[q] in occs;
    GroupRowsAreRows(rows, minLength, key, a);
    GroupRowsAreRows(rows, minLength, key, b);
    RowOfGroup(rows, minLength, key, a - DisplayOffset);
    RowOfGroup(rows, minLength, key, b - DisplayOffset);
    var j1 :| Occurs(rows, minLength, a - DisplayOffset, j1, key);
    var j2 :| Occurs(rows, minLength, b - DisplayOffset, j2, key);
    assert a - DisplayOffset != b - DisplayOffset;
  }

  lemma TwoRowsAreRepeated(rows: seq<Row>, minLength: nat, key: string, i1: int, j1: int, i2: int, j2: int)
    requires i1 != i2 && Occurs(rows, minLength, i1, j1, key) && Occurs(rows, minLength, i2, j2, key)
    ensures key in FindRepeated(rows, minLength)
  {
    var ws := AllWindows(rows, minLength);
    var occs := OccurrencesOf(ws, key);
    RowOfGroup(rows, minLength, key, i1);
    RowOfGroup(rows, minLength, key, i2);
    assert {i1 + DisplayOffset, i2 + DisplayOffset} <= RowsOf(occs);
    SubsetCardinality({i1 + DisplayOffset, i2 + DisplayOffset}, RowsOf(occs));
    var o := Occurrence(i1 + DisplayOffset, rows[i1].0, rows[i1].1, j1);
    assert WindowAt(rows, minLength, i1, j1, Window(key, o));
    AllWindowsMembership(rows, minLength, Window(key, o));
    assert Window(key, o).text == key;
    assert key in Texts(ws);
  }

  /** A sequence is reported if and only if it occurs in two different rows. */
  lemma RepeatedIff(rows: seq<Row>, minLength: nat, key: string)
    ensures key in FindRepeated(rows, minLength) <==>
            exists i1, j1, i2, j2 :: i1 != i2 && Occurs(rows, minLength, i1, j1, key)
                                   && Occurs(rows, minLength, i2, j2, key)
  {
    if key in FindRepeated(rows, minLength) {
      RepeatedHasTwoRows(rows, minLength, key);
    }
    if exists i1, j1, i2, j2 :: i1 != i2 && Occurs(rows, minLength, i1, j1, key)
                              && Occurs(rows, minLength, i2, j2, key) {
      var i1, j1, i2, j2 :| i1 != i2 && Occurs(rows, minLength, i1, j1, key)
                           && Occurs(rows, minLength, i2, j2, key);
      TwoRowsAreRepeated(rows, minLength, key, i1, j1, i2, j2);
    }
  }

  /** A sequence found in one row only, however often, is never reported. */
  lemma SingleRowNeverReported(rows: seq<Row>, minLength: nat, key: string, row: int)
    requires forall i, j :: Occurs(rows, minLength, i, j, key) ==> i == row
    ensures key !in FindRepeated(rows, minLength)
  {
    RepeatedIff(rows, minLength, key);
  }

  /**
   For a reported sequence every match in every row is listed, overlapping
   matches and repeats within one row included.
   */
  lemma OccurrencesComplete(rows: seq<Row>, minLength: nat, key: string, i: int, j: int)
    requires key in FindRepeated(rows, minLength)
    requires Occurs(rows, minLength, i, j, key)
    ensures Occurrence(i + DisplayOffset, rows[i].0, rows[i].1, j) in FindRepeated(rows, minLength)[key]
  {
    var ws := AllWindows(rows, minLength);
    var o := Occurrence(i + DisplayOffset, rows[i].0, rows[i].1, j);
    assert WindowAt(rows, minLength, i, j, Window(key, o));
    AllWindowsMembership(rows, minLength, Window(key, o));
    OccurrencesOfMembership(ws, key, o);
  }

  /** A row whose sentence is shorter than `minLength` contributes no occurrence. */
  lemma ShortRowsContributeNothing(rows: seq<Row>, minLength: nat, i: int, key: string, o: Occurrence)
    requires 0 <= i < |rows| && |rows[i].1| < minLength
    requires key in FindRepeated(rows, minLength)
    requires o in FindRepeated(rows, minLength)[key]
    ensures o.row != i + DisplayOffset
  {
    OccurrencesMatch(rows, minLength, key, o);
  }

  /** Within each reported sequence, occurrences are in strictly ascending (row, offset) order. */
  lemma OccurrencesAscending(rows: seq<Row>, minLength: nat, key: string)
    requires key in FindRepeated(rows, minLength)
    ensures Ascending(FindRepeated(rows, minLength)[key])
  {
    AllWindowsAscending(rows, minLength);
    OccurrencesOfAscending(AllWindows(rows, minLength), key);
  }

  /**
   The result's key order lists each reported sequence exactly once, ordered
   by the first window generated for it.
   */
  lemma ReportOrderKeys(rows: seq<Row>, minLength: nat)
    ensures Distinct(ReportOrder(rows, minLength))
    ensures forall k :: k in ReportOrder(rows, minLength) <==> k in FindRepeated(rows, minLength)
    ensures forall p, q :: 0 <= p < q < |ReportOrder(rows, minLength)| ==>
              FirstAppearsBefore(AllWindows(rows, minLength), ReportOrder(rows, minLength)[p],
                                 ReportOrder(rows, minLength)[q])
  {
    var ws := AllWindows(rows, minLength);
    FirstOrderElems(ws);
    FirstOrderDistinct(ws);
    FirstOrderByFirstAppearance(ws);
    KeepRepeatedElems(FirstOrder(ws), Grouped(ws));
    KeepRepeatedDistinct(FirstOrder(ws), Grouped(ws));
    KeepRepeatedByFirstAppearance(ws, FirstOrder(ws), Grouped(ws));
  }
}

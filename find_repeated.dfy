/**
 The detector as the source runs it: a list of windows built by nested loops,
 a dictionary of groups built in place, and a filtering loop over the groups
 in insertion order. A dictionary is a `map` together with the sequence of
 its keys in insertion order.
 */
module Detector {
  import opened WindowSpec
  import opened WindowProperties

  /** Every window of exactly `minLength` characters of every long-enough sentence. */
  method GenerateWindows(rows: seq<Row>, minLength: nat) returns (allSequences: seq<Window>)
    ensures allSequences == AllWindows(rows, minLength)
  {
    allSequences := [];
    for i := 0 to |rows|
      invariant allSequences == AllWindows(rows[..i], minLength)
    {
      var taskId, sentence := rows[i].0, rows[i].1;
      // sentences shorter than the window are skipped
      if |sentence| >= minLength {
        var j := 0;
        while j < |sentence| - minLength + 1
          invariant 0 <= j <= |sentence| - minLength + 1
          invariant allSequences == AllWindows(rows[..i], minLength) + RowWindows(i, rows[i], minLength)[..j]
        {
          var text := sentence[j..j + minLength];
          allSequences := allSequences + [Window(text, Occurrence(i + DisplayOffset, taskId, sentence, j))];
          j := j + 1;
        }
      }
      assert rows[..i + 1][..i] == rows[..i];
    }
    assert rows[..|rows|] == rows;
  }

  /** Groups the windows by text; `order` holds the keys in insertion order. */
  method GroupWindows(allSequences: seq<Window>)
    returns (grouped: map<string, seq<Occurrence>>, order: seq<string>)
    ensures grouped == Grouped(allSequences)
    ensures order == FirstOrder(allSequences)
  {
    grouped, order := map[], [];
    for i := 0 to |allSequences|
      invariant grouped == Grouped(allSequences[..i])
      invariant order == FirstOrder(allSequences[..i])
    {
      var w := allSequences[i];
      ghost var before := allSequences[..i];
      assert allSequences[..i + 1] == before + [w];
      GroupedStep(before, w);
      FirstOrderElems(before);
      if w.text !in grouped {
        grouped := grouped[w.text := []];
        order := order + [w.text];
      }
      grouped := grouped[w.text := grouped[w.text] + [w.occ]];
    }
    assert allSequences[..|allSequences|] == allSequences;
  }

  /** Keeps the groups whose occurrences come from more than one distinct row. */
  method FilterRepeated(grouped: map<string, seq<Occurrence>>, order: seq<string>)
    returns (repeated: map<string, seq<Occurrence>>, kept: seq<string>)
    requires forall k :: k in order <==> k in grouped
    ensures repeated == Repeated(grouped)
    ensures kept == KeepRepeated(order, grouped)
  {
    repeated, kept := map[], [];
    for i := 0 to |order|
      invariant forall k :: k in repeated <==> k in order[..i] && k in grouped && IsRepeated(grouped[k])
      invariant forall k :: k in repeated ==> k in grouped && repeated[k] == grouped[k]
      invariant kept == KeepRepeated(order[..i], grouped)
    {
      var seqText := order[i];
      var occurrences := grouped[seqText];
      var uniqueRows := RowsOf(occurrences);
      assert order[..i + 1] == order[..i] + [seqText];
      if |uniqueRows| > 1 {
        repeated := repeated[seqText := occurrences];
        kept := kept + [seqText];
      }
    }
    assert order[..|order|] == order;
    assert repeated.Keys == Repeated(grouped).Keys;
  }

  /**
   The whole detector: the repeated sequences with all their occurrences, and
   the order in which they were inserted into the result.
   */
  method FindRepeatedSequences(rows: seq<Row>, minLength: nat)
    returns (repeated: map<string, seq<Occurrence>>, keyOrder: seq<string>)
    ensures repeated == FindRepeated(rows, minLength)
    ensures keyOrder == ReportOrder(rows, minLength)
    ensures Distinct(keyOrder)
    ensures forall k :: k in keyOrder <==> k in repeated
    ensures forall p, q :: 0 <= p < q < |keyOrder| ==>
              FirstAppearsBefore(AllWindows(rows, minLength), keyOrder[p], keyOrder[q])
    ensures forall k :: k in repeated ==> |k| == minLength
  {
    var allSequences := GenerateWindows(rows, minLength);
    var grouped, order := GroupWindows(allSequences);
    FirstOrderElems(allSequences);
    repeated, keyOrder := FilterRepeated(grouped, order);
    ReportOrderKeys(rows, minLength);
    forall k | k in repeated ensures |k| == minLength {
      KeysHaveWindowLength(rows, minLength, k);
    }
  }
}

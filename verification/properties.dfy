/** What a run produces, stated directly over the input rows and proved
    about the state machine of `Pipeline`: counters, quarantine contents,
    batch sizes, and that no accepted row is lost or reordered. */
module RunProperties {
  import opened Basics
  import opened Rows
  import opened Validator
  import opened Loader
  import opened Pipeline

  // ----------------------------------------------- reference definitions

  /** A data row that does not repeat the header. */
  predicate IsReceived(header: Row, row: Row)
  {
    row != header
  }

  /** A received row with an empty field among its first ten. */
  predicate IsRejected(header: Row, row: Row)
  {
    row != header && HasEmptyField(row)
  }

  /** A received row with at least ten fields, none of the first ten empty. */
  predicate IsAccepted(header: Row, row: Row)
  {
    row != header && !HasEmptyField(row) && |row| >= FieldCount
  }

  /** A received row too short to validate and with no empty field. */
  predicate IsShort(header: Row, row: Row)
  {
    row != header && !HasEmptyField(row) && |row| < FieldCount
  }

  /** An accepted row whose amount, past its first character, is not a
      number by `isNumber`. */
  predicate IsUnparsable(isNumber: string -> bool, header: Row, row: Row)
  {
    IsAccepted(header, row) && !isNumber(row[AmountColumn][1..])
  }

  /** A row that aborts the run. */
  predicate IsFaulty(isNumber: string -> bool, header: Row, row: Row)
  {
    IsShort(header, row) || IsUnparsable(isNumber, header, row)
  }

  /** The received rows of `rows`, in input order. */
  function ReceivedRows(header: Row, rows: seq<Row>): seq<Row>
    decreases |rows|
  {
    if |rows| == 0 then []
    else
      var last := rows[|rows| - 1];
      ReceivedRows(header, rows[..|rows| - 1]) + (if IsReceived(header, last) then [last] else [])
  }

  /** The rejected rows of `rows`, whole and in input order. */
  function RejectedRows(header: Row, rows: seq<Row>): seq<Row>
    decreases |rows|
  {
    if |rows| == 0 then []
    else
      var last := rows[|rows| - 1];
      RejectedRows(header, rows[..|rows| - 1]) + (if IsRejected(header, last) then [last] else [])
  }

  /** The typed first ten fields of the accepted rows of `rows`, in input
      order. */
  function AcceptedInserts(header: Row, rows: seq<Row>): seq<Binding>
    decreases |rows|
  {
    if |rows| == 0 then []
    else
      var last := rows[|rows| - 1];
      AcceptedInserts(header, rows[..|rows| - 1])
        + (if IsAccepted(header, last) then [TypeFields(last[..FieldCount])] else [])
  }

  /** Every received row is either accepted or rejected, never both, once no
      short row is present. */
  lemma {:induction false} RoutingPartition(header: Row, rows: seq<Row>)
    requires forall i :: 0 <= i < |rows| ==> !IsShort(header, rows[i])
    ensures |ReceivedRows(header, rows)| == |AcceptedInserts(header, rows)| + |RejectedRows(header, rows)|
    decreases |rows|
  {
    if |rows| > 0 {
      RoutingPartition(header, rows[..|rows| - 1]);
    }
  }

  // ------------------------------------------------------- the read loop

  /** Every batch executed inside the loop holds BatchSize rows or none. */
  predicate FullOrEmpty(batches: seq<seq<Binding>>)
  {
    forall i :: 0 <= i < |batches| ==> |batches[i]| == 0 || |batches[i]| == BatchSize
  }

  /** The counters and the quarantine after the data rows `rows`. */
  predicate CountsInvariant(st: RunState, header: Row, rows: seq<Row>)
  {
    && st.header == header
    && st.received == |ReceivedRows(header, rows)|
    && st.accepted == |AcceptedInserts(header, rows)|
    && st.rejected == |RejectedRows(header, rows)|
    && st.received == st.accepted + st.rejected
    && st.quarantine == [header] + RejectedRows(header, rows)
  }

  /** The inserts executed or queued are exactly the accepted rows, in order. */
  predicate QueueContents(st: RunState, header: Row, rows: seq<Row>)
  {
    Flatten(st.loader.executed) + st.loader.pending == AcceptedInserts(header, rows)
  }

  /** The queue holds the accepted rows since the last multiple of BatchSize. */
  predicate QueueShape(st: RunState)
  {
    && |st.loader.pending| == st.accepted % BatchSize
    && FullOrEmpty(st.loader.executed)
  }

  /** The loop invariant after the data rows `rows`. */
  predicate LoopInvariant(st: RunState, header: Row, rows: seq<Row>)
  {
    CountsInvariant(st, header, rows) && QueueContents(st, header, rows) && QueueShape(st)
  }

  /** Appending one row extends each reference sequence by at most that row. */
  lemma ReferencesSnoc(header: Row, rows: seq<Row>, row: Row)
    ensures ReceivedRows(header, rows + [row]) == ReceivedRows(header, rows) + (if IsReceived(header, row) then [row] else [])
    ensures RejectedRows(header, rows + [row]) == RejectedRows(header, rows) + (if IsRejected(header, row) then [row] else [])
    ensures AcceptedInserts(header, rows + [row]) ==
      AcceptedInserts(header, rows) + (if IsAccepted(header, row) then [TypeFields(row[..FieldCount])] else [])
  {
    assert (rows + [row])[..|rows|] == rows;
  }

  lemma FullOrEmptySnoc(batches: seq<seq<Binding>>, b: seq<Binding>)
    requires FullOrEmpty(batches)
    requires |b| == 0 || |b| == BatchSize
    ensures FullOrEmpty(batches + [b])
  {
    assert forall i :: 0 <= i < |batches| ==> (batches + [b])[i] == batches[i];
  }

  /** Executing the batch keeps the invariant when the queue is empty or full. */
  lemma FlushKeepsBatches(st: RunState)
    requires FullOrEmpty(st.loader.executed)
    requires st.accepted % BatchSize == 0 ==> |st.loader.pending| == 0 || |st.loader.pending| == BatchSize
    ensures FullOrEmpty(MaybeFlush(st).loader.executed)
  {
    if st.accepted % BatchSize == 0 {
      FullOrEmptySnoc(st.loader.executed, st.loader.pending);
    }
  }

  /** An accepted row whose amount parses is counted once, and not quarantined. */
  lemma AcceptedStepCounts(isNumber: string -> bool, st: RunState, header: Row, rows: seq<Row>, row: Row)
    requires CountsInvariant(st, header, rows)
    requires IsAccepted(header, row) && !IsUnparsable(isNumber, header, row)
    ensures ProcessRecord(isNumber, st, row).Ok?
    ensures CountsInvariant(MaybeFlush(ProcessRecord(isNumber, st, row).value), header, rows + [row])
  {
    ReferencesSnoc(header, rows, row);
  }

  /** An accepted row whose amount parses appends its insert to the queue. */
  lemma AcceptedStepQueues(isNumber: string -> bool, st: RunState, header: Row, rows: seq<Row>, row: Row)
    requires st.header == header && QueueContents(st, header, rows)
    requires IsAccepted(header, row) && !IsUnparsable(isNumber, header, row)
    ensures ProcessRecord(isNumber, st, row).Ok?
    ensures QueueContents(MaybeFlush(ProcessRecord(isNumber, st, row).value), header, rows + [row])
  {
    ReferencesSnoc(header, rows, row);
    var mid := ProcessRecord(isNumber, st, row).value;
    assert Flatten(mid.loader.executed) + mid.loader.pending
        == Flatten(st.loader.executed) + st.loader.pending + [TypeFields(row[..FieldCount])];
  }

  /** An accepted row whose amount parses keeps the queue in full batches. */
  lemma AcceptedStepShape(isNumber: string -> bool, st: RunState, row: Row)
    requires QueueShape(st)
    requires Classify(st.header, row).Accepted? && isNumber(row[AmountColumn][1..])
    ensures ProcessRecord(isNumber, st, row).Ok?
    ensures QueueShape(MaybeFlush(ProcessRecord(isNumber, st, row).value))
  {
    var mid := ProcessRecord(isNumber, st, row).value;
    var a := st.accepted;
    assert |mid.loader.pending| == a % BatchSize + 1;
    assert (a + 1) % BatchSize == (if a % BatchSize == BatchSize - 1 then 0 else a % BatchSize + 1);
    FlushKeepsBatches(mid);
  }

  /** An accepted row whose amount parses keeps the invariant. */
  lemma AcceptedStepKeepsInvariant(isNumber: string -> bool, st: RunState, header: Row, rows: seq<Row>, row: Row)
    requires LoopInvariant(st, header, rows)
    requires IsAccepted(header, row) && !IsUnparsable(isNumber, header, row)
    ensures ProcessRecord(isNumber, st, row).Ok?
    ensures LoopInvariant(MaybeFlush(ProcessRecord(isNumber, st, row).value), header, rows + [row])
  {
    AcceptedStepCounts(isNumber, st, header, rows, row);
    AcceptedStepQueues(isNumber, st, header, rows, row);
    AcceptedStepShape(isNumber, st, row);
  }

  /** A rejected row or a repeated header keeps the invariant. */
  lemma OtherStepKeepsInvariant(isNumber: string -> bool, st: RunState, header: Row, rows: seq<Row>, row: Row)
    requires LoopInvariant(st, header, rows)
    requires !IsAccepted(header, row) && !IsShort(header, row)
    ensures ProcessRecord(isNumber, st, row).Ok?
    ensures LoopInvariant(MaybeFlush(ProcessRecord(isNumber, st, row).value), header, rows + [row])
  {
    ReferencesSnoc(header, rows, row);
    var mid := ProcessRecord(isNumber, st, row).value;
    assert mid.loader == st.loader;
    FlushKeepsBatches(mid);
  }

  /** One iteration of the loop keeps the invariant. */
  lemma StepKeepsInvariant(isNumber: string -> bool, st: RunState, header: Row, rows: seq<Row>, row: Row)
    requires LoopInvariant(st, header, rows)
    requires ProcessRecord(isNumber, st, row).Ok?
    ensures LoopInvariant(MaybeFlush(ProcessRecord(isNumber, st, row).value), header, rows + [row])
  {
    if IsAccepted(header, row) {
      AcceptedStepKeepsInvariant(isNumber, st, header, rows, row);
    } else {
      OtherStepKeepsInvariant(isNumber, st, header, rows, row);
    }
  }

  /** The loop either faults or reaches a state satisfying the invariant. */
  lemma {:induction false} FoldKeepsInvariant(isNumber: string -> bool, header: Row, rows: seq<Row>)
    requires Fold(isNumber, header, rows).Ok?
    ensures LoopInvariant(Fold(isNumber, header, rows).value, header, rows)
    decreases |rows|
  {
    if |rows| > 0 {
      var init := rows[..|rows| - 1];
      var row := rows[|rows| - 1];
      FoldKeepsInvariant(isNumber, header, init);
      assert init + [row] == rows;
      StepKeepsInvariant(isNumber, Fold(isNumber, header, init).value, header, init, row);
    }
  }

  /** One iteration aborts exactly on a faulty row, with the fault it raises. */
  lemma StepFaultClassified(isNumber: string -> bool, st: RunState, row: Row)
    ensures Step(isNumber, st, row) == Err(NullCell) <==> IsShort(st.header, row)
    ensures Step(isNumber, st, row) == Err(NotANumber) <==> IsUnparsable(isNumber, st.header, row)
    ensures Step(isNumber, st, row).Ok? <==> !IsFaulty(isNumber, st.header, row)
  {
  }

  /** The loop aborts exactly when some data row is faulty. */
  lemma {:induction false} FoldFaultsIff(isNumber: string -> bool, header: Row, rows: seq<Row>)
    ensures Fold(isNumber, header, rows).Err? <==> exists i :: 0 <= i < |rows| && IsFaulty(isNumber, header, rows[i])
    decreases |rows|
  {
    if |rows| > 0 {
      var init := rows[..|rows| - 1];
      var last := rows[|rows| - 1];
      FoldFaultsIff(isNumber, header, init);
      assert forall i :: 0 <= i < |init| ==> init[i] == rows[i];
      match Fold(isNumber, header, init)
      case Err(f) =>
        assert Fold(isNumber, header, rows) == Err(f);
      case Ok(st) =>
        StepFaultClassified(isNumber, st, last);
        if Step(isNumber, st, last).Err? {
          assert IsFaulty(isNumber, header, rows[|rows| - 1]);
        } else {
          forall j | 0 <= j < |rows| ensures !IsFaulty(isNumber, header, rows[j]) {
            if j == |rows| - 1 {
              assert rows[j] == last;
            }
          }
        }
    }
  }

  /** An abort of the loop happens on the first faulty data row, with the
      fault that row raises. */
  lemma {:induction false} FoldFaultsOnFirstBadRow(isNumber: string -> bool, header: Row, rows: seq<Row>)
    requires Fold(isNumber, header, rows).Err?
    ensures
      var f := Fold(isNumber, header, rows).error;
      && (f.ShortRow? || f.BadAmount?)
      && 1 <= f.index <= |rows|
      && (f.ShortRow? ==> IsShort(header, rows[f.index - 1]))
      && (f.BadAmount? ==> IsUnparsable(isNumber, header, rows[f.index - 1]))
      && forall j :: 0 <= j < f.index - 1 ==> !IsFaulty(isNumber, header, rows[j])
    decreases |rows|
  {
    var init := rows[..|rows| - 1];
    var last := rows[|rows| - 1];
    assert forall i :: 0 <= i < |init| ==> init[i] == rows[i];
    match Fold(isNumber, header, init)
    case Err(f) =>
      FoldFaultsOnFirstBadRow(isNumber, header, init);
      assert Fold(isNumber, header, rows) == Err(f);
    case Ok(st) =>
      FoldFaultsIff(isNumber, header, init);
      StepFaultClassified(isNumber, st, last);
      var e := Step(isNumber, st, last).error;
      assert Fold(isNumber, header, rows) == Err(RowFaultAt(e, |rows|));
  }

  /** A completed prefix one row longer is one more iteration from the
      shorter prefix. */
  lemma FoldOneMore(isNumber: string -> bool, header: Row, rows: seq<Row>, k: nat)
    requires k < |rows|
    requires Fold(isNumber, header, rows[..k + 1]).Ok?
    ensures Fold(isNumber, header, rows[..k]).Ok?
    ensures Step(isNumber, Fold(isNumber, header, rows[..k]).value, rows[k]) == Ok(Fold(isNumber, header, rows[..k + 1]).value)
  {
    var pre := rows[..k + 1];
    assert pre[..|pre| - 1] == rows[..k];
    assert pre[|pre| - 1] == rows[k];
  }

  /** Each counter of `a` is at most the same counter of `b`. */
  predicate CountersNoLarger(a: RunState, b: RunState)
  {
    a.received <= b.received && a.accepted <= b.accepted && a.rejected <= b.rejected
  }

  lemma StepCountersGrow(isNumber: string -> bool, st: RunState, row: Row, next: RunState)
    requires Step(isNumber, st, row) == Ok(next)
    ensures CountersNoLarger(st, next)
  {
  }

  /** Counters never decrease from one row to the next. */
  lemma {:induction false} CountersMonotone(isNumber: string -> bool, header: Row, rows: seq<Row>, k: nat)
    requires k <= |rows|
    requires Fold(isNumber, header, rows).Ok?
    ensures Fold(isNumber, header, rows[..k]).Ok?
    ensures CountersNoLarger(Fold(isNumber, header, rows[..k]).value, Fold(isNumber, header, rows).value)
    decreases |rows| - k
  {
    if k == |rows| {
      assert rows[..k] == rows;
    } else {
      CountersMonotone(isNumber, header, rows, k + 1);
      FoldOneMore(isNumber, header, rows, k);
      var before := Fold(isNumber, header, rows[..k]).value;
      var after := Fold(isNumber, header, rows[..k + 1]).value;
      StepCountersGrow(isNumber, before, rows[k], after);
    }
  }

  // ------------------------------------------------------- the whole run

  /** A run completes exactly when the input has a non-empty header line and
      no data row is short or has an amount that does not parse. */
  lemma RunCompletesIff(isControl: char -> bool, isNumber: string -> bool, input: seq<Row>)
    ensures Run(isControl, isNumber, input).Completed? <==>
      && |input| > 0
      && |input[0]| > 0
      && forall i :: 1 <= i < |input| ==> !IsFaulty(isNumber, CleanHeader(isControl, input[0]), input[i])
  {
    if |input| > 0 && |input[0]| > 0 {
      var rows := input[1..];
      FoldFaultsIff(isNumber, CleanHeader(isControl, input[0]), rows);
      assert forall i :: 1 <= i < |input| ==> input[i] == rows[i - 1];
    }
  }

  /** What a completed run leaves behind: the counters count the received,
      accepted and rejected rows; quarantine holds the cleaned header and then
      the rejected rows verbatim in order; the executed batches hold every
      accepted row's typed fields in order, each loop batch full or empty and
      the final one holding the remainder; nothing is left queued. */
  lemma RunOutputs(isControl: char -> bool, isNumber: string -> bool, input: seq<Row>)
    requires Run(isControl, isNumber, input).Completed?
    ensures |input| > 0 && |input[0]| > 0
    ensures
      var header := CleanHeader(isControl, input[0]);
      var rows := input[1..];
      var st := Run(isControl, isNumber, input).final;
      && st.header == header
      && st.received == |ReceivedRows(header, rows)|
      && st.accepted == |AcceptedInserts(header, rows)|
      && st.rejected == |RejectedRows(header, rows)|
      && st.received == st.accepted + st.rejected
      && st.quarantine == [header] + RejectedRows(header, rows)
      && st.loader.pending == []
      && Flatten(st.loader.executed) == AcceptedInserts(header, rows)
      && |st.loader.executed| > 0
      && FullOrEmpty(st.loader.executed[..|st.loader.executed| - 1])
      && |st.loader.executed[|st.loader.executed| - 1]| == st.accepted % BatchSize
  {
    var header := CleanHeader(isControl, input[0]);
    var rows := input[1..];
    FoldKeepsInvariant(isNumber, header, rows);
    var loop := Fold(isNumber, header, rows).value;
    var st := Run(isControl, isNumber, input).final;
    assert st.loader == Flush(loop.loader);
    assert st.loader.executed[..|st.loader.executed| - 1] == loop.loader.executed;
  }

  /** The logged statistics are the final counters, and the received count is
      the sum of the other two. */
  lemma StatisticsAddUp(isControl: char -> bool, isNumber: string -> bool, input: seq<Row>)
    requires Run(isControl, isNumber, input).Completed?
    ensures
      var lines := Statistics(Run(isControl, isNumber, input)).value;
      var header := CleanHeader(isControl, input[0]);
      && lines[0].count == |ReceivedRows(header, input[1..])|
      && lines[1].count == |AcceptedInserts(header, input[1..])|
      && lines[2].count == |RejectedRows(header, input[1..])|
      && lines[0].count == lines[1].count + lines[2].count
  {
    RunOutputs(isControl, isNumber, input);
  }
}

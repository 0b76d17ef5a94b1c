/** One run of `processRecords`: clean the header, echo it to quarantine,
    route every following row, execute the batch every BatchSize accepted
    rows, and execute the remainder at the end. */
module Pipeline {
  import opened Basics
  import opened Rows
  import opened Validator
  import opened Loader

  /** The run's mutable state: the cleaned header the rows are compared
      against, the three counters, the rows written to the quarantine file,
      and the insert statement with its batches. */
  datatype RunState = RunState(
    header: Row,
    received: nat,
    accepted: nat,
    rejected: nat,
    quarantine: seq<Row>,
    loader: Loader)

  /** Why one row ends the run: a null padding cell is dereferenced, or the
      amount text is not a number (`NumberFormatException`). */
  datatype RowFault = NullCell | NotANumber

  /** Why a run stopped before committing: the input has no header line, the
      header line has no field, or the data row at `index` (the header being
      index 0) raised one of the row faults: it is short and has no empty
      field (`ShortRow`), or it is otherwise accepted but its amount does not
      parse (`BadAmount`). */
  datatype Fault = NoHeader | EmptyHeader | ShortRow(index: nat) | BadAmount(index: nat)

  datatype RunOutcome = Completed(final: RunState) | Aborted(fault: Fault)

  /** The state once the header has been cleaned and written to quarantine. */
  function Start(header: Row): (st: RunState)
    ensures st.header == header
    ensures st.received == st.accepted == st.rejected == 0
    ensures st.quarantine == [header]
    ensures st.loader.pending == [] && st.loader.executed == []
    ensures |st.loader.params| == FieldCount && forall k :: 0 <= k < FieldCount ==> st.loader.params[k].None?
  {
    RunState(header, 0, 0, 0, [header], Fresh())
  }

  /** `processRecord`: a repeated header changes nothing; any other row is
      received, and is either rejected whole into quarantine or accepted
      with its first ten fields staged as one insert. A short row with no
      empty field aborts with `NullCell`; a complete row whose amount, past
      its first character, is not a number by `isNumber` (the grammar of
      `Double.parseDouble`) aborts with `NotANumber`. */
  function ProcessRecord(isNumber: string -> bool, st: RunState, row: Row): (r: Result<RunState, RowFault>)
    ensures row == st.header ==> r == Ok(st)
    ensures r == Err(NullCell) <==> row != st.header && !HasEmptyField(row) && |row| < FieldCount
    ensures r == Err(NotANumber) <==>
      row != st.header && !HasEmptyField(row) && |row| >= FieldCount && !isNumber(row[AmountColumn][1..])
    ensures r.Ok? ==> r.value.header == st.header
    ensures r.Ok? && row != st.header ==> r.value.received == st.received + 1
    ensures row != st.header && HasEmptyField(row) ==>
      && r.Ok?
      && r.value.rejected == st.rejected + 1
      && r.value.accepted == st.accepted
      && r.value.quarantine == st.quarantine + [row]
      && r.value.loader == st.loader
    ensures row != st.header && !HasEmptyField(row) && |row| >= FieldCount && isNumber(row[AmountColumn][1..]) ==>
      && r.Ok?
      && r.value.accepted == st.accepted + 1
      && r.value.rejected == st.rejected
      && r.value.quarantine == st.quarantine
      && r.value.loader.executed == st.loader.executed
      && r.value.loader.pending == st.loader.pending + [TypeFields(row[..FieldCount])]
  {
    match Classify(st.header, row)
    case HeaderEcho => Ok(st)
    case Malformed => Err(NullCell)
    case Rejected(raw) =>
      Ok(st.(received := st.received + 1, rejected := st.rejected + 1, quarantine := st.quarantine + [raw]))
    case Accepted(clean) =>
      if !isNumber(clean[AmountColumn][1..]) then Err(NotANumber)
      else
        AcceptedBindsAll(st.loader.params, clean);
        var l := Stage(st.loader, TypeFields(clean));
        assert l.pending == st.loader.pending + [TypeFields(clean)];
        Ok(st.(received := st.received + 1, accepted := st.accepted + 1, loader := l))
  }

  /** The check after every row: the batch is executed exactly when the
      accepted count is a multiple of BatchSize; nothing else changes. */
  function MaybeFlush(st: RunState): (r: RunState)
    ensures r.header == st.header && r.quarantine == st.quarantine
    ensures r.received == st.received && r.accepted == st.accepted && r.rejected == st.rejected
    ensures |r.loader.executed| == |st.loader.executed| + (if st.accepted % BatchSize == 0 then 1 else 0)
    ensures r.loader.executed[..|st.loader.executed|] == st.loader.executed
    ensures st.accepted % BatchSize == 0 ==> r.loader.executed[|st.loader.executed|] == st.loader.pending
    ensures Flatten(r.loader.executed) + r.loader.pending == Flatten(st.loader.executed) + st.loader.pending
  {
    if st.accepted % BatchSize == 0 then st.(loader := Flush(st.loader)) else st
  }

  /** One iteration of the read loop. */
  function Step(isNumber: string -> bool, st: RunState, row: Row): (r: Result<RunState, RowFault>)
    ensures r.Err? <==>
      row != st.header && !HasEmptyField(row) && (|row| < FieldCount || !isNumber(row[AmountColumn][1..]))
    ensures r.Ok? ==>
      && r.value.header == st.header
      && |st.quarantine| <= |r.value.quarantine| <= |st.quarantine| + 1
      && r.value.quarantine[..|st.quarantine|] == st.quarantine
      && r.value.received == st.received + (if row == st.header then 0 else 1)
      && r.value.received - st.received == (r.value.accepted - st.accepted) + (r.value.rejected - st.rejected)
      && st.accepted <= r.value.accepted <= st.accepted + 1
      && st.rejected <= r.value.rejected <= st.rejected + 1
      && |r.value.loader.executed| == |st.loader.executed| + (if r.value.accepted % BatchSize == 0 then 1 else 0)
  {
    match ProcessRecord(isNumber, st, row)
    case Err(f) => Err(f)
    case Ok(s) => Ok(MaybeFlush(s))
  }

  /** The run fault for a row fault raised by the data row at `index`. */
  function RowFaultAt(f: RowFault, index: nat): Fault
  {
    match f
    case NullCell => ShortRow(index)
    case NotANumber => BadAmount(index)
  }

  /** The read loop over the data rows `rows`, started from `Start(header)`. */
  function Fold(isNumber: string -> bool, header: Row, rows: seq<Row>): (r: Result<RunState, Fault>)
    ensures r.Ok? ==> r.value.header == header
    ensures r.Ok? ==> r.value.received == r.value.accepted + r.value.rejected
    ensures r.Ok? ==> |r.value.quarantine| >= 1 && r.value.quarantine[0] == header
    ensures r.Err? ==> (r.error.ShortRow? || r.error.BadAmount?) && 1 <= r.error.index <= |rows|
    decreases |rows|
  {
    if |rows| == 0 then Ok(Start(header))
    else
      match Fold(isNumber, header, rows[..|rows| - 1])
      case Err(f) => Err(f)
      case Ok(st) =>
        match Step(isNumber, st, rows[|rows| - 1])
        case Err(f) => Err(RowFaultAt(f, |rows|))
        case Ok(next) => Ok(next)
  }

  /** Once the loop has aborted on a row, reading more rows does not change
      the fault. */
  lemma {:induction false} FoldFaultPersists(isNumber: string -> bool, header: Row, rows: seq<Row>, k: nat)
    requires k <= |rows|
    requires Fold(isNumber, header, rows[..k]).Err?
    ensures Fold(isNumber, header, rows) == Fold(isNumber, header, rows[..k])
    decreases |rows| - k
  {
    if k < |rows| {
      assert rows[..k + 1][..k] == rows[..k];
      FoldFaultPersists(isNumber, header, rows, k + 1);
    } else {
      assert rows[..k] == rows;
    }
  }

  /** `processRecords` over the whole input (header first): the loop, then
      the final unconditional execution of whatever is still queued. */
  function Run(isControl: char -> bool, isNumber: string -> bool, input: seq<Row>): (r: RunOutcome)
    ensures |input| == 0 <==> r == Aborted(NoHeader)
    ensures r == Aborted(EmptyHeader) <==> |input| > 0 && |input[0]| == 0
    ensures r.Aborted? && (r.fault.ShortRow? || r.fault.BadAmount?) ==> 1 <= r.fault.index < |input|
    ensures r.Completed? ==>
      && |input| > 0 && |input[0]| > 0
      && r.final.header == CleanHeader(isControl, input[0])
      && |r.final.quarantine| >= 1 && r.final.quarantine[0] == r.final.header
      && r.final.received == r.final.accepted + r.final.rejected
      && r.final.loader.pending == []
  {
    if |input| == 0 then Aborted(NoHeader)
    else if |input[0]| == 0 then Aborted(EmptyHeader)
    else
      match Fold(isNumber, CleanHeader(isControl, input[0]), input[1..])
      case Err(f) => Aborted(f)
      case Ok(st) => Completed(st.(loader := Flush(st.loader)))
  }

  /** The same run written as the source's `while` loop. */
  method ProcessRecords(isControl: char -> bool, isNumber: string -> bool, input: seq<Row>) returns (outcome: RunOutcome)
    ensures outcome == Run(isControl, isNumber, input)
  {
    if |input| == 0 {
      return Aborted(NoHeader);
    }
    if |input[0]| == 0 {
      return Aborted(EmptyHeader);
    }
    var header := CleanHeader(isControl, input[0]);
    var rows := input[1..];
    var st := Start(header);
    var i := 0;
    while i < |rows|
      invariant 0 <= i <= |rows|
      invariant Fold(isNumber, header, rows[..i]) == Ok(st)
    {
      assert rows[..i + 1][..i] == rows[..i];
      var next := Step(isNumber, st, rows[i]);
      if next.Err? {
        FoldFaultPersists(isNumber, header, rows, i + 1);
        return Aborted(RowFaultAt(next.error, i + 1));
      }
      st := next.value;
      i := i + 1;
    }
    assert rows[..i] == rows;
    return Completed(st.(loader := Flush(st.loader)));
  }

  // ------------------------------------------------------------ statistics

  const ReceivedLabel: string := "Received: "
  const SuccessfulLabel: string := "Successful: "
  const FailedLabel: string := "Failed: "

  /** One line of the statistics log: a fixed prefix and a counter value. */
  datatype LogLine = LogLine(prefix: string, count: nat)

  /** `logStatistics`: the three counters, reached only when the loop ran to
      the end; an aborted run logs nothing. */
  function Statistics(outcome: RunOutcome): (r: Option<seq<LogLine>>)
    ensures r.Some? <==> outcome.Completed?
    ensures r.Some? ==>
      && |r.value| == 3
      && r.value[0].prefix == ReceivedLabel
      && r.value[1].prefix == SuccessfulLabel
      && r.value[2].prefix == FailedLabel
  {
    match outcome
    case Aborted(_) => None
    case Completed(st) =>
      Some([LogLine(ReceivedLabel, st.received), LogLine(SuccessfulLabel, st.accepted), LogLine(FailedLabel, st.rejected)])
  }
}

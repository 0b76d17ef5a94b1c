/** The prepared insert statement and its batch: rows are staged one at a
    time and executed in groups. The database itself is not modelled; an
    execution only moves the queued batch into the sequence of executed
    batches. */
module Loader {
  import opened Basics
  import opened Rows
  import opened Validator

  /** Number of accepted rows after which the queued batch is executed. */
  const BatchSize: nat := 20

  /** The statement's current parameters, the batch queued with `addBatch`,
      and every batch handed to `executeBatch` so far, in order. */
  datatype Loader = Loader(params: Binding, pending: seq<Binding>, executed: seq<seq<Binding>>)

  /** A freshly prepared statement: no parameter set, nothing queued. */
  function Fresh(): Loader
  {
    Loader(seq(FieldCount, _ => None), [], [])
  }

  /** All rows of `batches`, batch after batch. */
  function Flatten(batches: seq<seq<Binding>>): seq<Binding>
    decreases |batches|
  {
    if |batches| == 0 then [] else Flatten(batches[..|batches| - 1]) + batches[|batches| - 1]
  }

  /** Flattening distributes over appending one batch. */
  lemma FlattenSnoc(batches: seq<seq<Binding>>, b: seq<Binding>)
    ensures Flatten(batches + [b]) == Flatten(batches) + b
  {
    assert (batches + [b])[..|batches|] == batches;
  }

  /** `setX` for the present values followed by `addBatch`: the parameters
      are rebound and a copy of them joins the queued batch. */
  function Stage(l: Loader, t: Binding): (r: Loader)
    ensures r.executed == l.executed
    ensures |r.pending| == |l.pending| + 1
    ensures r.pending[..|l.pending|] == l.pending
    ensures r.pending[|l.pending|] == r.params
    ensures |r.params| == |t|
    ensures forall k :: 0 <= k < |t| && t[k].Some? ==> r.params[k] == t[k]
  {
    var p := Bind(l.params, t);
    Loader(p, l.pending + [p], l.executed)
  }

  /** `executeBatch`: the queued batch, possibly empty, is executed as one
      unit and the queue is cleared; the parameters stay bound. */
  function Flush(l: Loader): (r: Loader)
    ensures r.pending == []
    ensures r.params == l.params
    ensures |r.executed| == |l.executed| + 1
    ensures r.executed[..|l.executed|] == l.executed
    ensures Flatten(r.executed) + r.pending == Flatten(l.executed) + l.pending
  {
    FlattenSnoc(l.executed, l.pending);
    Loader(l.params, [], l.executed + [l.pending])
  }
}

# Record routing and batched loading of `DataProcessor`, in Dafny

This project models the core of `DataProcessor.processRecords`. The program
reads a CSV file of user records. Rows whose first ten fields are all
present become inserts into the `user` table, sent in batches of 20. Rows
with an empty field among the first ten go whole to a quarantine CSV. The
program keeps three counters: received, successful and failed.

The model replaces the files and the database with sequences:

- the input is a `seq<Row>`, header first, where a `Row` is a `seq<string>`;
- the quarantine file is the `seq<Row>` written so far;
- the prepared statement is a `Loader`. It holds the current positional
  parameters, the queued batch and every batch passed to `executeBatch`, in
  order.

A run is a pure fold of a per-row step over the data rows (`Pipeline.Fold`),
and `Pipeline.Run` wraps it. `Pipeline.ProcessRecords` is the same run
written as the source's `while` loop, and it is proved equal to `Run`.

Modules:

- `Rows` (rows.dfy): the row type, the schema width 10, and header cleaning.
- `Validator` (validator.dfy): classifying a row against the header, and
  `prepareStatement`'s field typing and binding.
- `Loader` (loader.dfy): staging, batch execution, and flattening of the
  executed batches.
- `Pipeline` (pipeline.dfy): the run state, `processRecord`, the flush
  check after each row, the loop, the final flush and the statistics.
- `RunProperties` (properties.dfy): reference definitions stated directly
  over the input rows, and the loop invariant and run-level theorems that
  connect the state machine to them.

Behaviour of the code that the model keeps:

- A row equal to the cleaned header, compared field by field and in length
  (`Arrays.equals`), is skipped. It changes no counter. The batch check
  after it still runs.
- `received` counts only rows that are not header echoes: for an echo,
  `processRecord` returns at line 101, before `recordCount++` at line 103.
  The identity that holds is therefore `received == accepted + rejected`,
  with echoes outside every counter.
- Short rows. `Arrays.copyOfRange` pads a short row with nulls. `anyMatch`
  stops at the first empty field, and stops with a null dereference at the
  first padded cell. So a short row with an empty field among the fields it
  has is rejected normally. A short row with no empty field aborts the
  whole run (`Fault.ShortRow`). Nothing is committed and no statistics are
  logged.
- Unparsable amounts. For an accepted row, `Double.parseDouble` reads field G
  without its first character (line 128). Text it rejects (`"$"`,
  `"$1,000.00"`) throws `NumberFormatException`. Neither `catch` (lines 197
  and 200) handles it, so the run aborts before the statistics and the
  commit (`Fault.BadAmount`). Which strings parse is the caller-supplied
  predicate `isNumber`.
- The batch is executed after every row whose accepted count is a multiple
  of 20. Rows before the first acceptance, and rejected or echoed rows
  after the 20th, 40th, … acceptance, therefore execute an empty batch. The
  model records every execution, empty ones included.
- Statement parameters are not cleared between rows. Binding overwrites
  only the present positions. Every position of an accepted row is present,
  so its insert never carries a value left over from an earlier row
  (`Validator.AcceptedBindsAll`).

## Model

| member | source | states |
|---|---|---|
| Rows.StripControl | src/main/java/com/ms3/CodingChallenge/DataProcessor.java:172-173 | the result holds no control character, every non-control character of the input occurs in it, it holds no character the input lacks, and it is no longer than the input |
| Rows.StripControlChar | src/main/java/com/ms3/CodingChallenge/DataProcessor.java:173 | a single character is kept if and only if it is not a control character |
| Rows.StripControlAppend | src/main/java/com/ms3/CodingChallenge/DataProcessor.java:173 | stripping a concatenation is the concatenation of the stripped parts, in order; with the one-character case this fixes the result to the input with exactly its control characters deleted, order and repetitions kept |
| Rows.StripControlFixpoint | src/main/java/com/ms3/CodingChallenge/DataProcessor.java:173 | stripping leaves a string unchanged if and only if it has no control character |
| Rows.StripControlIdempotent | src/main/java/com/ms3/CodingChallenge/DataProcessor.java:173 | stripping twice gives the same result as stripping once |
| Rows.CleanHeader | src/main/java/com/ms3/CodingChallenge/DataProcessor.java:170-175 | the header keeps its length and all fields after the first; its first field is the original first field with its control characters stripped, holds no control character, and is unchanged if and only if it had none |
| Rows.CleanHeaderIdempotent | src/main/java/com/ms3/CodingChallenge/DataProcessor.java:173 | cleaning an already cleaned header changes nothing |
| Validator.AnyEmpty | src/main/java/com/ms3/CodingChallenge/DataProcessor.java:106 | the left-to-right scan reports an empty cell if and only if one comes before any null cell, and reports none if and only if every cell is present and non-empty |
| Validator.LeadingCells | src/main/java/com/ms3/CodingChallenge/DataProcessor.java:105 | `copyOfRange(row, 0, 10)` has exactly ten cells: the row's field at every position the row has, and null at every position past its end |
| Validator.LeadingCellsScan | src/main/java/com/ms3/CodingChallenge/DataProcessor.java:105-106 | on the null-padded copy of a row, the scan finds an empty field if and only if the row has one among its first ten, and finishes cleanly if and only if the row also has at least ten fields |
| Validator.Classify | src/main/java/com/ms3/CodingChallenge/DataProcessor.java:98-118 | header echo if and only if the row equals the header; otherwise rejected (whole row) if and only if an empty field is among the first ten; accepted (first ten fields) if and only if there is none and the row has ten fields; otherwise the null dereference |
| Validator.EqualsTrueIgnoringCase | src/main/java/com/ms3/CodingChallenge/DataProcessor.java:129-130 | the case-insensitive comparison with "true" holds if and only if the lower-cased text is "true" |
| Validator.ParseBoolean | src/main/java/com/ms3/CodingChallenge/DataProcessor.java:129-130 | `parseBoolean` is true if and only if the lower-cased text is "true", so only a four-character string can parse as true |
| Validator.TypeFields | src/main/java/com/ms3/CodingChallenge/DataProcessor.java:121-131 | a position is unset if and only if its field is empty; text columns carry their field; G's value plus the dropped first character rebuilds the field; H and I are true if and only if the lower-cased field is "true" |
| Validator.Bind | src/main/java/com/ms3/CodingChallenge/DataProcessor.java:133-142 | every present typed value is bound at its position; every absent one leaves the earlier parameter in place |
| Validator.PrepareStatement | src/main/java/com/ms3/CodingChallenge/DataProcessor.java:121-144 | the statement has ten positions; each position whose field is non-empty holds that field's typed value, and each position whose field is empty keeps what an earlier row bound there (or stays unset) |
| Validator.AcceptedBindsAll | src/main/java/com/ms3/CodingChallenge/DataProcessor.java:113-117 | for a row with no empty field all ten positions are bound, and the staged parameters are its own typed values whatever earlier rows bound |
| Loader.Stage | src/main/java/com/ms3/CodingChallenge/DataProcessor.java:115-117 | `addBatch` appends exactly one entry, the freshly bound parameters, to the queued batch and leaves the executed batches alone |
| Loader.Flush | src/main/java/com/ms3/CodingChallenge/DataProcessor.java:181 | `executeBatch` empties the queue and adds exactly one executed batch; the executed rows followed by the queue are unchanged, so nothing is lost or reordered |
| Pipeline.Start | src/main/java/com/ms3/CodingChallenge/DataProcessor.java:170-175 | a run starts with the given header, zero counters, no statement parameter set, nothing queued or executed, and the header as the only quarantine row |
| Pipeline.ProcessRecord | src/main/java/com/ms3/CodingChallenge/DataProcessor.java:98-128 | an echo changes nothing; every other row adds one to received; a row with an empty field adds one to rejected and appends the whole row to quarantine, with accepted and the loader unchanged; a complete row whose amount parses adds one to accepted and queues exactly its typed first ten fields, with rejected and quarantine unchanged; it aborts with a null dereference if and only if the row is short with no empty field, and with a number format error if and only if the row is complete but its amount, past the first character, does not parse |
| Pipeline.MaybeFlush | src/main/java/com/ms3/CodingChallenge/DataProcessor.java:180-182 | one batch, the whole queue, is executed if and only if the accepted count is a multiple of 20; counters and quarantine are unchanged and no queued row is lost |
| Pipeline.Step | src/main/java/com/ms3/CodingChallenge/DataProcessor.java:177-183 | one iteration aborts if and only if the row is not an echo, has no empty field among its first ten, and is either short or has an amount that does not parse; otherwise the header is kept, quarantine only grows by at most one row at its end, received grows by one exactly for a non-echo row and by the growth of accepted plus rejected, each of which grows by at most one, and one batch is executed exactly when the new accepted count is a multiple of 20 |
| Pipeline.Fold | src/main/java/com/ms3/CodingChallenge/DataProcessor.java:170-183 | after the loop over any rows without an abort, the header is the one it started from, quarantine begins with it, and received equals accepted plus rejected; an abort names a data row by its position in the input, between 1 and the number of data rows, as short or with an unparsable amount (the full input-level contract is in `RunProperties.FoldKeepsInvariant`, `FoldFaultsIff` and `FoldFaultsOnFirstBadRow`) |
| Pipeline.Run | src/main/java/com/ms3/CodingChallenge/DataProcessor.java:170-192 | an input with no line aborts with `NoHeader`, and only it; a header line with no field aborts with `EmptyHeader`, and only it; a row abort names a data row inside the input; a completed run keeps the cleaned header as its first quarantine row, has received equal to accepted plus rejected, and leaves nothing queued (the full contract is in `RunProperties.RunOutputs` and `RunCompletesIff`) |
| Pipeline.FoldFaultPersists | src/main/java/com/ms3/CodingChallenge/DataProcessor.java:177-183 | once a row has aborted the loop, reading further rows does not change the outcome |
| Pipeline.ProcessRecords | src/main/java/com/ms3/CodingChallenge/DataProcessor.java:170-192 | the while loop with its final flush computes exactly the outcome of the row-by-row fold |
| Pipeline.Statistics | src/main/java/com/ms3/CodingChallenge/DataProcessor.java:91-94 | in the model, where every `executeBatch` succeeds, statistics are logged if and only if the run completed (see `RunCompletesIff` for when that is), as three lines labelled Received, Successful and Failed |
| RunProperties.RoutingPartition | src/main/java/com/ms3/CodingChallenge/DataProcessor.java:103-113 | when no row is short, each received row is either accepted or rejected: the received count is the sum of the other two |
| RunProperties.AcceptedStepCounts | src/main/java/com/ms3/CodingChallenge/DataProcessor.java:103-113 | an accepted row whose amount parses, followed by the flush check, adds one to received and to accepted and leaves rejected and quarantine alone, so the counters and quarantine go on matching the reference counts and rejected rows of the longer input |
| RunProperties.AcceptedStepQueues | src/main/java/com/ms3/CodingChallenge/DataProcessor.java:113-117 | after an accepted row whose amount parses and the flush check, the executed rows followed by the queue are still exactly the typed accepted rows of the longer input, in order |
| RunProperties.AcceptedStepShape | src/main/java/com/ms3/CodingChallenge/DataProcessor.java:176-182 | after an accepted row whose amount parses and the flush check, the queue holds accepted mod 20 rows and every executed batch is full or empty |
| RunProperties.AcceptedStepKeepsInvariant | src/main/java/com/ms3/CodingChallenge/DataProcessor.java:113-118 | an accepted row followed by the flush check keeps the whole loop invariant: the three parts above together |
| RunProperties.OtherStepKeepsInvariant | src/main/java/com/ms3/CodingChallenge/DataProcessor.java:99-111 | a rejected or echoed row followed by the flush check keeps the same loop invariant |
| RunProperties.StepKeepsInvariant | src/main/java/com/ms3/CodingChallenge/DataProcessor.java:177-183 | every loop iteration that does not abort keeps the loop invariant |
| RunProperties.FoldKeepsInvariant | src/main/java/com/ms3/CodingChallenge/DataProcessor.java:177-183 | after any number of rows without an abort, the loop invariant holds for that prefix of the input |
| RunProperties.StepFaultClassified | src/main/java/com/ms3/CodingChallenge/DataProcessor.java:105-128 | in the model, where every `executeBatch` succeeds, one iteration aborts with a null dereference if and only if the row is short with no empty field, with a number format error if and only if the row is complete with an unparsable amount, and succeeds if and only if the row is neither |
| RunProperties.FoldFaultsIff | src/main/java/com/ms3/CodingChallenge/DataProcessor.java:105-128 | in the model, where every `executeBatch` succeeds, the loop aborts if and only if some data row is short with no empty field or complete with an unparsable amount |
| RunProperties.FoldFaultsOnFirstBadRow | src/main/java/com/ms3/CodingChallenge/DataProcessor.java:177-183 | in the model, where every `executeBatch` succeeds, an aborted loop stopped at the first row that is short with no empty field or complete with an unparsable amount, with the fault that row raises |
| RunProperties.CountersMonotone | src/main/java/com/ms3/CodingChallenge/DataProcessor.java:103-113 | the three counters after any prefix of the rows are no larger than after the whole input: counters never decrease |
| RunProperties.RunCompletesIff | src/main/java/com/ms3/CodingChallenge/DataProcessor.java:170-194 | in the model, where every `executeBatch` succeeds, a run completes if and only if there is a header line with at least one field and no data row is short with no empty field or complete with an amount that does not parse |
| RunProperties.RunOutputs | src/main/java/com/ms3/CodingChallenge/DataProcessor.java:170-192 | after a completed run: the counters count the received, accepted and rejected rows, and received equals accepted plus rejected; quarantine is the cleaned header followed by the rejected rows verbatim, in order; the executed batches concatenate to the typed accepted rows, in order; each loop batch is full or empty; the final batch holds accepted mod 20 rows; nothing stays queued |
| RunProperties.StatisticsAddUp | src/main/java/com/ms3/CodingChallenge/DataProcessor.java:91-94 | the logged counts are the numbers of received, accepted and rejected rows of the input, and the first is the sum of the other two |

## Left out

- Configuration and logger setup (`initializeProperties`, `initializeLogger`, lines 61-89): these only read a properties file and attach a log handler.
- Pipeline.Statistics: the `%s%d` text of each log line is not rendered; a line is modelled as its fixed prefix and its counter value.
- JDBC (lines 147-160 and 194-217): the connection, the DROP/CREATE statements, commit, rollback and close. An executed batch is modelled only as moving the queue into the sequence of executed batches. The model assumes every `executeBatch` succeeds; the members whose contracts depend on that are listed below. Whether an aborted run leaves rows in the table is a database property that this model does not cover.
- OpenCSV reading and writing (lines 163-170, 175, 185-186): the input is already a sequence of rows, and quarantine is the sequence of rows written.
- Pipeline.Statistics: assumes every `executeBatch` succeeds. A batch the database rejects aborts the real run with a rollback (lines 200-207), for example a row with D outside {Male, Female} under the CHECK at line 23. If that happens in the loop (line 181), no statistics are logged. If it happens in the final flush (line 192), statistics have already been logged (line 188), but nothing is committed.
- Pipeline.Step: assumes every `executeBatch` succeeds. When the database rejects the batch executed after a row (line 181), the real iteration aborts although the row is neither short nor unparsable.
- Pipeline.Fold: assumes every `executeBatch` succeeds. A batch the database rejects in the loop (line 181), for example a row with D outside {Male, Female} under the CHECK at line 23, aborts the real loop on a row that is neither short nor unparsable, where the model goes on reading.
- Pipeline.Run: assumes every `executeBatch` succeeds. A batch the database rejects makes the real run roll back where the model reports `Completed`.
- RunProperties.RunCompletesIff: assumes every `executeBatch` succeeds. A batch the database rejects (for example D outside {Male, Female} under the CHECK at line 23) aborts the real run with a rollback; the model completes on such input.
- RunProperties.FoldFaultsIff: assumes every `executeBatch` succeeds. A batch the database rejects (for example D outside {Male, Female} under the CHECK at line 23) aborts the real loop at line 181 on a row that is neither short nor unparsable.
- RunProperties.FoldFaultsOnFirstBadRow: assumes every `executeBatch` succeeds. A batch the database rejects (for example D outside {Male, Female} under the CHECK at line 23) aborts the real loop on a row that is neither short nor unparsable, possibly before the first such row.
- RunProperties.StepFaultClassified: assumes every `executeBatch` succeeds. A batch the database rejects (for example D outside {Male, Female} under the CHECK at line 23) aborts the real iteration at line 181 on a row that is neither short nor unparsable.
- Validator.TypeFields: G's amount is the field without its first character, that is, without its first Unicode code point. Java's `substring(1)` (line 128) drops one UTF-16 unit. The two differ when G begins with a character outside the Basic Multilingual Plane: Java then passes a lone low surrogate followed by the rest to `Double.parseDouble`, which throws, while the model passes the rest alone.
- Pipeline.ProcessRecord: for the same reason, its number-format test reads G without its first code point. For a G field that begins with a character outside the Basic Multilingual Plane, the source aborts at line 128 whenever the model's `isNumber` accepts the rest, while the model accepts the row. Pipeline.Step, Pipeline.Fold, Pipeline.Run, RunProperties.StepFaultClassified, RunProperties.FoldFaultsIff, RunProperties.FoldFaultsOnFirstBadRow and RunProperties.RunCompletesIff inherit this difference: on such a row they report no abort where the source aborts.
- A missing input file (`FileNotFoundException`, line 166) is not modelled. An input with no line at all is modelled as `Fault.NoHeader`.
- Validator.TypeFields: the value `Double.parseDouble` computes for G (line 128) is floating point and is not modelled. The amount keeps the text after the dropped first character. Whether that text parses is the caller-supplied predicate `isNumber`; the grammar of Java's decimal literals is not modelled.
- Rows.StripControl: the Unicode category `\p{C}` is the caller-supplied predicate `isControl` rather than the Unicode tables. A Dafny `char` is a Unicode scalar value, so the model works code point by code point as Java's regex does. A Java `String` can also hold unpaired surrogates (category Cs, which `\p{C}` removes); a Dafny string cannot represent them, so that case is not modelled.
- Validator.ParseBoolean: case mapping is ASCII only. Java's full Unicode case mapping gives the same answer when the text is compared with "true".
- Counters are unbounded naturals. Java's 32-bit `int` wrap-around after 2^31 rows is not modelled.

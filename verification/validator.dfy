/** Classification of one data row against the header, and the typing of an
    accepted row's ten fields into statement parameters. */
module Validator {
  import opened Basics
  import opened Rows

  /** What `processRecord` does with a row: skip it as a repeated header,
      reject it whole, accept its first ten fields, or fail with a null
      dereference because the row is too short and holds no empty field. */
  datatype Verdict = HeaderEcho | Rejected(raw: Row) | Accepted(clean: Row) | Malformed

  /** Whether one of the first FieldCount fields that the row actually has is
      empty. */
  predicate HasEmptyField(row: Row)
  {
    exists k :: 0 <= k < |row| && k < FieldCount && row[k] == ""
  }

  /** The array `Arrays.copyOfRange(row, 0, FieldCount)`: the row's leading
      cells, padded with nulls past the row's end. */
  function LeadingCells(row: Row): (cells: seq<Option<Field>>)
    ensures |cells| == FieldCount
    ensures forall k :: 0 <= k < |row| && k < FieldCount ==> cells[k] == Some(row[k])
    ensures forall k :: |row| <= k < FieldCount ==> cells[k] == None
  {
    seq(FieldCount, k requires 0 <= k < FieldCount => if k < |row| then Some(row[k]) else None)
  }

  /** `anyMatch(String::isEmpty)` evaluated left to right: `Some(true)` at the
      first empty cell, `None` (a null dereference) at the first null cell,
      `Some(false)` if neither is met. */
  function AnyEmpty(cells: seq<Option<Field>>): (r: Option<bool>)
    ensures r == Some(true) <==>
      exists k :: 0 <= k < |cells| && cells[k] == Some("") && forall j :: 0 <= j < k ==> cells[j].Some?
    ensures r == Some(false) <==> forall k :: 0 <= k < |cells| ==> cells[k].Some? && cells[k] != Some("")
    decreases |cells|
  {
    if |cells| == 0 then Some(false)
    else match cells[0]
      case None => None
      case Some(f) => if f == "" then Some(true) else AnyEmpty(cells[1..])
  }

  /** The routing decision for `row` under the (cleaned) `header`. */
  function Classify(header: Row, row: Row): (v: Verdict)
    ensures v.HeaderEcho? <==> row == header
    ensures v.Rejected? <==> row != header && HasEmptyField(row)
    ensures v.Accepted? <==> row != header && !HasEmptyField(row) && |row| >= FieldCount
    ensures v.Malformed? <==> row != header && !HasEmptyField(row) && |row| < FieldCount
    ensures v.Rejected? ==> v.raw == row
    ensures v.Accepted? ==> v.clean == row[..FieldCount]
  {
    if row == header then HeaderEcho
    else
      var cells := LeadingCells(row);
      LeadingCellsScan(row);
      match AnyEmpty(cells)
      case Some(true) => Rejected(row)
      case Some(false) => Accepted(row[..FieldCount])
      case None => Malformed
  }

  /** The scan over the padded cells finds an empty field exactly when the
      row has one, and runs off the row's end exactly when the row is short
      and has none. */
  lemma LeadingCellsScan(row: Row)
    ensures AnyEmpty(LeadingCells(row)) == Some(true) <==> HasEmptyField(row)
    ensures AnyEmpty(LeadingCells(row)) == Some(false) <==> !HasEmptyField(row) && |row| >= FieldCount
  {
    var cells := LeadingCells(row);
    if HasEmptyField(row) {
      var k :| 0 <= k < |row| && k < FieldCount && row[k] == "";
      assert cells[k] == Some("");
      assert forall j :: 0 <= j < k ==> cells[j].Some?;
    }
    if AnyEmpty(cells) == Some(true) {
      var k :| 0 <= k < |cells| && cells[k] == Some("") && forall j :: 0 <= j < k ==> cells[j].Some?;
      assert row[k] == "";
    }
    if !HasEmptyField(row) && |row| >= FieldCount {
      assert forall k :: 0 <= k < |cells| ==> cells[k] == Some(row[k]);
    }
    if |row| < FieldCount {
      assert cells[|row|] == None;
    }
  }

  // ---------------------------------------------------------------- typing

  /** A value bound to one position of the insert statement. The currency
      column keeps `afterSign`, the text past the first character, which is
      what `Double.parseDouble` reads. */
  datatype Param = Text(text: string) | Amount(afterSign: string) | Flag(flag: bool)

  /** The ten positional parameters of the insert statement; `None` is a
      position never set. */
  type Binding = seq<Option<Param>>

  /** Zero-based column of G, the currency amount. */
  const AmountColumn: nat := 6

  /** Zero-based columns of H and I, the boolean flags. */
  predicate IsFlagColumn(k: nat)
  {
    k == 7 || k == 8
  }

  /** `Character.toUpperCase` restricted to ASCII: a lower-case letter
      becomes its capital; any other character is unchanged. */
  function UpperAscii(c: char): char
  {
    if 'a' <= c <= 'z' then (c as int - 32) as char else c
  }

  /** `Character.toLowerCase` restricted to ASCII: a capital becomes its
      lower-case letter; any other character is unchanged. */
  function LowerAscii(c: char): char
  {
    if 'A' <= c <= 'Z' then (c as int + 32) as char else c
  }

  /** The string with every ASCII capital lowered, character by character. */
  function LowerAll(s: string): (r: string)
    ensures |r| == |s|
    ensures forall k :: 0 <= k < |s| ==> r[k] == LowerAscii(s[k])
  {
    seq(|s|, k requires 0 <= k < |s| => LowerAscii(s[k]))
  }

  /** `String.equalsIgnoreCase`: same length, and each pair of characters
      equal, equal after upper-casing, or equal after upper- then
      lower-casing. */
  predicate EqualsIgnoreCase(a: string, b: string)
  {
    && |a| == |b|
    && forall k :: 0 <= k < |a| ==>
         || a[k] == b[k]
         || UpperAscii(a[k]) == UpperAscii(b[k])
         || LowerAscii(UpperAscii(a[k])) == LowerAscii(UpperAscii(b[k]))
  }

  /** Comparing with "true" ignoring case is comparing the lower-cased text
      with "true". */
  lemma EqualsTrueIgnoringCase(s: string)
    ensures EqualsIgnoreCase(s, "true") <==> LowerAll(s) == "true"
  {
    if EqualsIgnoreCase(s, "true") {
      assert forall k :: 0 <= k < 4 ==> LowerAll(s)[k] == "true"[k];
    }
    if LowerAll(s) == "true" {
      assert forall k :: 0 <= k < 4 ==> LowerAscii(s[k]) == "true"[k];
    }
  }

  /** `Boolean.parseBoolean`: true exactly for "true" in any letter case;
      every other string, including the empty one, is false. */
  function ParseBoolean(s: string): (b: bool)
    ensures b <==> LowerAll(s) == "true"
    ensures b ==> |s| == 4
  {
    EqualsTrueIgnoringCase(s);
    EqualsIgnoreCase(s, "true")
  }

  /** The parameter for column `k`, or `None` when the field is empty and the
      position is left unset. */
  function TypeField(k: nat, f: Field): Option<Param>
  {
    if f == "" then None
    else if k == AmountColumn then Some(Amount(f[1..]))
    else if IsFlagColumn(k) then Some(Flag(ParseBoolean(f)))
    else Some(Text(f))
  }

  /** The typed values of a ten-field record: G loses its first character
      (the currency sign), H and I become booleans, the rest stay text, and
      empty fields stay unset. */
  function TypeFields(clean: Row): (t: Binding)
    requires |clean| == FieldCount
    ensures |t| == FieldCount
    ensures forall k :: 0 <= k < FieldCount ==> (t[k].None? <==> clean[k] == "")
    ensures forall k :: 0 <= k < FieldCount && k != AmountColumn && !IsFlagColumn(k) && clean[k] != "" ==>
      t[k] == Some(Text(clean[k]))
    ensures clean[AmountColumn] != "" ==>
      t[AmountColumn].value.Amount? && [clean[AmountColumn][0]] + t[AmountColumn].value.afterSign == clean[AmountColumn]
    ensures forall k :: 0 <= k < FieldCount && IsFlagColumn(k) && clean[k] != "" ==>
      t[k].value.Flag? && (t[k].value.flag <==> LowerAll(clean[k]) == "true")
  {
    var t := seq(FieldCount, k requires 0 <= k < FieldCount => TypeField(k, clean[k]));
    assert clean[AmountColumn] != "" ==> [clean[AmountColumn][0]] + clean[AmountColumn][1..] == clean[AmountColumn];
    t
  }

  /** The statement's parameters after `prepareStatement`: each position
      whose typed value is present is overwritten, the others keep what an
      earlier row set. */
  function Bind(params: Binding, t: Binding): (p: Binding)
    ensures |p| == |t|
    ensures forall k :: 0 <= k < |t| && t[k].Some? ==> p[k] == t[k]
    ensures forall k :: 0 <= k < |t| && t[k].None? ==> p[k] == (if k < |params| then params[k] else None)
  {
    seq(|t|, k requires 0 <= k < |t| => if t[k].Some? then t[k] else if k < |params| then params[k] else None)
  }

  /** `prepareStatement`: type the record and bind its present values. */
  function PrepareStatement(params: Binding, clean: Row): (p: Binding)
    requires |clean| == FieldCount
    ensures |p| == FieldCount
    ensures forall k :: 0 <= k < FieldCount && clean[k] != "" ==> p[k] == TypeFields(clean)[k] && p[k].Some?
    ensures forall k :: 0 <= k < FieldCount && clean[k] == "" ==> p[k] == (if k < |params| then params[k] else None)
  {
    Bind(params, TypeFields(clean))
  }

  /** For an accepted record every one of the ten positions is bound, so the
      staged parameters are its own typed values whatever earlier rows left
      in the statement. */
  lemma AcceptedBindsAll(params: Binding, clean: Row)
    requires |clean| == FieldCount
    requires forall k :: 0 <= k < FieldCount ==> clean[k] != ""
    ensures |PrepareStatement(params, clean)| == FieldCount
    ensures forall k :: 0 <= k < FieldCount ==> PrepareStatement(params, clean)[k].Some?
    ensures PrepareStatement(params, clean) == TypeFields(clean)
  {
  }
}

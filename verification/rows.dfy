/** Rows of the input file, the fixed schema width, and the header cleaning
    applied before the header is echoed to quarantine and compared against
    later rows. */
module Rows {

  /** One text field as produced by the CSV reader. */
  type Field = string

  /** One input line split into its fields. */
  type Row = seq<Field>

  /** Number of schema columns A..J; only this many leading fields of a row
      are validated and inserted. */
  const FieldCount: nat := 10

  /** Whether no character of `s` is a control character. */
  predicate NoControl(isControl: char -> bool, s: string)
  {
    forall k :: 0 <= k < |s| ==> !isControl(s[k])
  }

  /** The characters of `s` that `isControl` does not flag, in their original
      order (`replaceAll` with an empty replacement). */
  function StripControl(isControl: char -> bool, s: string): (r: string)
    ensures |r| <= |s|
    ensures NoControl(isControl, r)
    ensures forall k :: 0 <= k < |s| && !isControl(s[k]) ==> s[k] in r
    ensures forall c :: c in r ==> c in s
    decreases |s|
  {
    if |s| == 0 then ""
    else if isControl(s[0]) then StripControl(isControl, s[1..])
    else [s[0]] + StripControl(isControl, s[1..])
  }

  /** Stripping leaves a string unchanged exactly when it holds no control
      character. */
  lemma {:induction false} StripControlFixpoint(isControl: char -> bool, s: string)
    ensures StripControl(isControl, s) == s <==> NoControl(isControl, s)
    decreases |s|
  {
    if |s| > 0 {
      StripControlFixpoint(isControl, s[1..]);
      if isControl(s[0]) {
        assert |StripControl(isControl, s[1..])| <= |s[1..]| < |s|;
      } else {
        assert NoControl(isControl, s) <==> NoControl(isControl, s[1..]) by {
          if NoControl(isControl, s[1..]) {
            forall k | 0 <= k < |s| ensures !isControl(s[k]) {
              if k > 0 { assert s[k] == s[1..][k - 1]; }
            }
          }
        }
        assert [s[0]] + StripControl(isControl, s[1..]) == s
           <==> StripControl(isControl, s[1..]) == s[1..] by {
          if [s[0]] + StripControl(isControl, s[1..]) == s {
            assert ([s[0]] + StripControl(isControl, s[1..]))[1..] == StripControl(isControl, s[1..]);
          }
          if StripControl(isControl, s[1..]) == s[1..] {
            assert [s[0]] + s[1..] == s;
          }
        }
      }
    }
  }

  /** A single character survives exactly when it is not a control
      character. */
  lemma StripControlChar(isControl: char -> bool, c: char)
    ensures StripControl(isControl, [c]) == if isControl(c) then "" else [c]
  {
    assert [c][1..] == "";
  }

  /** Stripping a concatenation strips each part and keeps them in order; with
      `StripControlChar` this fixes the result of every string, character by
      character. */
  lemma {:induction false} StripControlAppend(isControl: char -> bool, a: string, b: string)
    ensures StripControl(isControl, a + b) == StripControl(isControl, a) + StripControl(isControl, b)
    decreases |a|
  {
    if |a| == 0 {
      assert a + b == b;
    } else {
      assert (a + b)[0] == a[0];
      assert (a + b)[1..] == a[1..] + b;
      StripControlAppend(isControl, a[1..], b);
    }
  }

  /** Stripping twice is the same as stripping once. */
  lemma StripControlIdempotent(isControl: char -> bool, s: string)
    ensures StripControl(isControl, StripControl(isControl, s)) == StripControl(isControl, s)
  {
    StripControlFixpoint(isControl, StripControl(isControl, s));
  }

  /** The header after its first field has lost every control character
      (a byte-order mark, typically); the other fields are untouched. */
  function CleanHeader(isControl: char -> bool, header: Row): (r: Row)
    requires |header| > 0
    ensures |r| == |header|
    ensures r[1..] == header[1..]
    ensures r[0] == StripControl(isControl, header[0])
    ensures NoControl(isControl, r[0])
    ensures r[0] == header[0] <==> NoControl(isControl, header[0])
  {
    StripControlFixpoint(isControl, header[0]);
    [StripControl(isControl, header[0])] + header[1..]
  }

  /** Cleaning an already cleaned header changes nothing. */
  lemma CleanHeaderIdempotent(isControl: char -> bool, header: Row)
    requires |header| > 0
    ensures CleanHeader(isControl, CleanHeader(isControl, header)) == CleanHeader(isControl, header)
  {
    var h := CleanHeader(isControl, header);
    StripControlFixpoint(isControl, h[0]);
    assert [h[0]] + h[1..] == h;
  }
}

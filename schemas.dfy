/**
 * The records exchanged by the extraction and filling services
 * (backend/app/schemas/extraction.py): a requested field and the result for it.
 */
module Schemas {

  /** A field to extract. The data type is "string" unless the request names another. */
  datatype ExtractionField = ExtractionField(key: string, description: string, dataType: string)

  /** The data type pydantic fills in when a request leaves it out. */
  const DefaultDataType: string := "string"

  /** The `Any` value of a result, for the JSON kinds the services handle: null, text, whole numbers, booleans. */
  datatype Value = Null | Text(text: string) | Integer(n: int) | Boolean(b: bool)

  /** The answer for one field, with where it came from and how much to trust it. */
  datatype FieldResult = FieldResult(key: string, value: Value, source: string, confidence: string)

  /** Python's `str(value)`. */
  function Str(v: Value): string
  {
    match v
    case Null => "None"
    case Text(t) => t
    case Integer(n) => IntToString(n)
    case Boolean(b) => if b then "True" else "False"
  }

  function DigitChar(d: nat): char
    requires d < 10
  {
    ('0' as int + d) as char
  }

  /** Decimal digits of `n`, without leading zeros. */
  function NatToString(n: nat): (r: string)
    ensures |r| > 0
    ensures forall k :: 0 <= k < |r| ==> '0' <= r[k] <= '9'
    ensures |r| > 1 ==> r[0] != '0'
    decreases n
  {
    if n < 10 then [DigitChar(n)] else NatToString(n / 10) + [DigitChar(n % 10)]
  }

  /** Python's `str(n)` for an `int`: an optional '-' and the decimal digits. */
  function IntToString(n: int): (r: string)
    ensures |r| > 0 && (r[0] == '-' || '0' <= r[0] <= '9')
    ensures forall k :: 0 < k < |r| ==> '0' <= r[k] <= '9'
  {
    if n < 0 then "-" + NatToString(-n) else NatToString(n)
  }

  /** The number a string of decimal digits denotes (Python's `int(s)` on such strings). */
  function DigitsValue(s: string): nat
    requires forall k :: 0 <= k < |s| ==> '0' <= s[k] <= '9'
  {
    if |s| == 0 then 0 else DigitsValue(s[..|s| - 1]) * 10 + (s[|s| - 1] as int - '0' as int)
  }

  /** Python's `int(s)` on an optional '-' followed by decimal digits. */
  function ParseInt(s: string): int
    requires |s| > 0
    requires forall k :: 0 < k < |s| ==> '0' <= s[k] <= '9'
    requires s[0] == '-' || '0' <= s[0] <= '9'
  {
    if s[0] == '-' then -(DigitsValue(s[1..]) as int) else DigitsValue(s)
  }

  lemma {:induction false} NatToStringValue(n: nat)
    ensures DigitsValue(NatToString(n)) == n
    decreases n
  {
    if n >= 10 {
      NatToStringValue(n / 10);
      var r := NatToString(n);
      assert r[..|r| - 1] == NatToString(n / 10);
    }
  }

  /** `str` on an `int` is undone by `int`: the text a number is written as denotes that number. */
  lemma IntToStringRoundTrip(n: int)
    ensures ParseInt(IntToString(n)) == n
  {
    if n < 0 {
      NatToStringValue(-n);
      assert IntToString(n)[1..] == NatToString(-n);
    } else {
      NatToStringValue(n);
    }
  }
}

/**
  The diagnostic strings built from the value table at compile time:
  `EXPECTED_STR_BYTES` of the error type (`"expected one of [" … "]"`) and
  `SERDE_EXPECTED_STR_BYTES` of the serde support (`"one of [" … "]"`).
  Both are the same three-phase fill of a fixed-size array, modelled once
  and parametrised by the prefix.
 */
module Diagnostic {
  import opened Bytes
  import opened Schema
  import opened ValueTable

  /** `b"expected one of ["`, the prefix of the parse-error message. */
  function ExpectedPrefix(): (r: Bytes)
    ensures |r| == 17
  {
    Ascii("expected one of [")
  }

  /** `b"one of ["`, the prefix of the serde "expected" message. */
  function SerdePrefix(): (r: Bytes)
    ensures |r| == 8
  {
    Ascii("one of [")
  }

  /** `EXPECTED_STR`: the parse-error message of a schema. */
  function ExpectedStr(sch: Schema): (r: Bytes)
    requires |sch.variants| > 0
    ensures |r| == |ExpectedPrefix()| + |AllValueStr(sch)| + 1
    ensures r[..|ExpectedPrefix()|] == ExpectedPrefix() && r[|r| - 1] == CloseBracket
  {
    ExpectedPrefix() + AllValueStr(sch) + [CloseBracket]
  }

  /** `SERDE_EXPECTED_STR`: the serde "expected" message of a schema. */
  function SerdeExpectedStr(sch: Schema): (r: Bytes)
    requires |sch.variants| > 0
    ensures |r| == |SerdePrefix()| + |AllValueStr(sch)| + 1
    ensures r[..|SerdePrefix()|] == SerdePrefix() && r[|r| - 1] == CloseBracket
  {
    SerdePrefix() + AllValueStr(sch) + [CloseBracket]
  }

  /**
    The three-phase fill: a zeroed buffer of `|prefix| + "]".len() +
    table.len()` bytes; copy the prefix; copy the table behind it; store
    `]` in the last slot. The second loop stops exactly at the last slot,
    so that slot is still zero when `]` is stored, and no slot is written
    twice or left zero.
   */
  method FillDiagnostic(prefix: Bytes, table: array<Byte>) returns (buf: array<Byte>)
    ensures buf.Length == |prefix| + 1 + table.Length
    ensures buf[..] == prefix + table[..] + [CloseBracket]
  {
    var len := |prefix| + 1 + table.Length;
    buf := new Byte[len](_ => 0);
    var idx := 0;
    while idx < |prefix|
      invariant 0 <= idx <= |prefix|
      invariant buf[..idx] == prefix[..idx]
      invariant forall k :: idx <= k < len ==> buf[k] == 0
    {
      buf[idx] := prefix[idx];
      idx := idx + 1;
    }
    while idx < |prefix| + table.Length
      invariant |prefix| <= idx <= |prefix| + table.Length
      invariant buf[..idx] == prefix + table[..idx - |prefix|]
      invariant forall k :: idx <= k < len ==> buf[k] == 0
    {
      buf[idx] := table[idx - |prefix|];
      idx := idx + 1;
    }
    assert idx == len - 1 && buf[len - 1] == 0;
    buf[len - 1] := CloseBracket;
    assert buf[..] == buf[..len - 1] + [CloseBracket];
  }

  /** `EXPECTED_STR_BYTES`: the parse-error message, built from `ALL_VALUE_BYTES`. */
  method ExpectedStrBytes(sch: Schema) returns (buf: array<Byte>)
    requires |sch.variants| > 0
    ensures buf.Length == 17 + 1 + |AllValueStr(sch)|
    ensures buf[..] == ExpectedStr(sch)
  {
    var table := AllValueBytes(sch);
    buf := FillDiagnostic(ExpectedPrefix(), table);
  }

  /** `SERDE_EXPECTED_STR_BYTES`: the serde message, built from `ALL_VALUE_BYTES`. */
  method SerdeExpectedStrBytes(sch: Schema) returns (buf: array<Byte>)
    requires |sch.variants| > 0
    ensures buf.Length == 8 + 1 + |AllValueStr(sch)|
    ensures buf[..] == SerdeExpectedStr(sch)
  {
    var table := AllValueBytes(sch);
    buf := FillDiagnostic(SerdePrefix(), table);
  }

  /** The two messages share the table and differ only in their prefix. */
  lemma DiagnosticsShareTable(sch: Schema)
    requires |sch.variants| > 0
    ensures ExpectedStr(sch)[17..] == SerdeExpectedStr(sch)[8..]
    ensures |ExpectedStr(sch)| == |SerdeExpectedStr(sch)| + 9
  {
  }
}

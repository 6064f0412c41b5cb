/**
  The error side of a generated enum with `#[error_type(E)]`: the zero-size
  error `E`, the parsing entry points that wrap `try_from_str`, the
  conversion from OS strings, and the crate's `Utf8EnumError`.
 */
module Errors {
  import opened Wrappers
  import opened Bytes
  import opened Schema
  import opened ValueTable
  import opened Diagnostic

  /** The generated zero-size error struct. */
  datatype ParseError = ParseError

  /** `std::str::Utf8Error`, as std reports it. */
  datatype Utf8Error = Utf8Error(validUpTo: nat, errorLen: Option<nat>)

  /** `Utf8EnumError<E>`: not UTF-8, or UTF-8 naming no variant. */
  datatype Utf8EnumError<E> = Utf8(utf8: Utf8Error) | InvalidVariant(inner: E)

  /**
    `FromStr::from_str`, `TryFrom<&str>::try_from` and
    `TryFrom<String>::try_from` (three identical bodies): `Some` becomes
    `Ok`, `None` becomes the unit error; there is no default variant.
   */
  function Parse(sch: Schema, s: Bytes): (r: Result<Variant, ParseError>)
    ensures r.Ok? <==> !NoMatch(sch, s)
    ensures r.Ok? ==> IsFirstMatch(sch, s, r.value)
    ensures r.Err? ==> r.error == ParseError
  {
    match TryFromStr(sch, s)
    case Some(v) => Ok(v)
    case None => Err(ParseError)
  }

  /**
    `TryFrom<&OsStr>`: std's conversion to `&str` first (`checkUtf8` gives
    its error, `None` when the bytes are valid UTF-8, in which case the
    `&str` is the same bytes), then the `&str` conversion. The two
    failures stay apart.
   */
  function TryFromOsStr(sch: Schema, os: Bytes, checkUtf8: Bytes -> Option<Utf8Error>): (r: Result<Variant, Utf8EnumError<ParseError>>)
    ensures checkUtf8(os).Some? ==> r == Err(Utf8(checkUtf8(os).value))
    ensures checkUtf8(os).None? && r.Ok? ==> IsFirstMatch(sch, os, r.value)
    ensures checkUtf8(os).None? ==> (r.Err? <==> NoMatch(sch, os))
    ensures checkUtf8(os).None? && NoMatch(sch, os) ==> r == Err(InvalidVariant(ParseError))
    ensures r.Err? && r.error.InvalidVariant? ==> checkUtf8(os).None? && NoMatch(sch, os) && r.error.inner == ParseError
  {
    match checkUtf8(os)
    case Some(e) => Err(Utf8(e))
    case None =>
      match Parse(sch, os)
      case Ok(v) => Ok(v)
      case Err(e) => Err(InvalidVariant(e))
  }

  /** `Display` of the error type: exactly `EXPECTED_STR`, for every failure. */
  function ParseErrorText(sch: Schema, e: ParseError): (r: Bytes)
    requires |sch.variants| > 0
    ensures |r| == |ExpectedPrefix()| + |AllValueStr(sch)| + 1
    ensures r[..|ExpectedPrefix()|] == ExpectedPrefix()
    ensures r[|ExpectedPrefix()|..|r| - 1] == AllValueStr(sch)
    ensures r[|r| - 1] == CloseBracket
  {
    ExpectedStr(sch)
  }

  /**
    `Display` of `Utf8EnumError`: delegates to the wrapped error.
    `utf8Text` is std's `Display` of `Utf8Error`.
   */
  function Utf8EnumErrorText(sch: Schema, e: Utf8EnumError<ParseError>, utf8Text: Utf8Error -> Bytes): (r: Bytes)
    requires |sch.variants| > 0
    ensures e.Utf8? ==> r == utf8Text(e.utf8)
    ensures e.InvalidVariant? ==> r == ExpectedStr(sch)
  {
    match e
    case Utf8(u) => utf8Text(u)
    case InvalidVariant(p) => ParseErrorText(sch, p)
  }

  /** Parsing the canonical literal gives the variant back when no earlier arm claims it. */
  lemma ParseAsStr(sch: Schema, v: Variant)
    requires IsVariant(sch, v)
    requires forall j :: 0 <= j < v ==> !Accepts(sch.variants[j], AsStr(sch, v))
    ensures Parse(sch, AsStr(sch, v)) == Ok(v)
  {
  }

  /** For valid UTF-8, the OS-string conversion agrees with `Parse` up to the error wrapper. */
  lemma OsStrAgreesWithParse(sch: Schema, os: Bytes, checkUtf8: Bytes -> Option<Utf8Error>)
    requires checkUtf8(os).None?
    ensures Parse(sch, os).Ok? ==> TryFromOsStr(sch, os, checkUtf8) == Ok(Parse(sch, os).value)
    ensures Parse(sch, os).Err? ==> TryFromOsStr(sch, os, checkUtf8) == Err(InvalidVariant(ParseError))
  {
  }
}

/**
  The two-variant enum of the crate's tests:
  `Variant1 => "Variant1"("variant1")`, `Variant2 => "Variant2"`,
  with `#[error_type(MyError)]`.
 */
module Scenario {
  import opened Wrappers
  import opened Bytes
  import opened Schema
  import opened ValueTable
  import opened Diagnostic
  import opened Errors
  import Adapters

  function MyEnum(): Schema
  {
    Schema([
      VariantSpec(Ascii("Variant1"), [Ascii("variant1")]),
      VariantSpec(Ascii("Variant2"), [])
    ])
  }

  /** Lookup by canonical literal, by alias, and of an unknown string. */
  lemma MyEnumLookup()
    ensures AsStr(MyEnum(), 0) == Ascii("Variant1")
    ensures Parse(MyEnum(), Ascii("Variant1")) == Ok(0)
    ensures Parse(MyEnum(), Ascii("Variant2")) == Ok(1)
    ensures Parse(MyEnum(), Ascii("variant1")) == Ok(0)
    ensures Parse(MyEnum(), Ascii("nonexistent")).Err?
  {
    var a, b := Ascii("Variant1"), Ascii("Variant2");
    assert a[0] != Ascii("variant1")[0];
    assert a[7] != b[7];
    assert Ascii("nonexistent")[0] !in {a[0], Ascii("variant1")[0]};
  }

  /**
    The lookups of a map keyed by the enum, through `Borrow<str>`: each
    canonical literal equals its own variant, and the alias `"variant1"`
    equals no variant, so it finds no entry.
   */
  lemma MyEnumMapKeys()
    ensures Adapters.EqStr(MyEnum(), 0, Ascii("Variant1"))
    ensures Adapters.EqStr(MyEnum(), 1, Ascii("Variant2"))
    ensures forall v :: 0 <= v < 2 ==> !Adapters.EqStr(MyEnum(), v, Ascii("variant1"))
  {
    assert Ascii("Variant1")[0] != Ascii("variant1")[0];
    assert Ascii("Variant2")[0] != Ascii("variant1")[0];
  }

  /** `ALL_VALUE_STR == "Variant1,Variant2"`. */
  lemma MyEnumValueTable()
    ensures AllValueStr(MyEnum()) == Ascii("Variant1,Variant2")
  {
  }

  /** `EXPECTED_STR == "expected one of [Variant1,Variant2]"` and `SERDE_EXPECTED_STR == "one of [Variant1,Variant2]"`. */
  lemma MyEnumDiagnostics()
    ensures ExpectedStr(MyEnum()) == Ascii("expected one of [Variant1,Variant2]")
    ensures SerdeExpectedStr(MyEnum()) == Ascii("one of [Variant1,Variant2]")
  {
    MyEnumValueTable();
  }
}

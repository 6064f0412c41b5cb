/**
  The trait implementations through which a generated enum stands in for
  its canonical string: `Display`, `Borrow<str>`, `Hash`, `PartialEq` and
  `PartialOrd` against `str` and `&str`, `Add` and `AddAssign` on `String`
  and `Cow<str>`, `Extend` and `FromIterator`. Each delegates to `as_str`.
 */
module Adapters {
  import opened Wrappers
  import opened Bytes
  import opened Schema
  import opened Errors

  /** `Display::fmt`: the text written is the canonical literal. */
  function Display(sch: Schema, v: Variant): (r: Bytes)
    requires IsVariant(sch, v)
    ensures r == AsStr(sch, v) && Accepts(sch.variants[v], r)
    ensures |r| == Len(sch, v)
    ensures (forall j :: 0 <= j < v ==> !Accepts(sch.variants[j], r)) ==> Parse(sch, r) == Ok(v)
  {
    var r := AsStr(sch, v);
    assert (forall j :: 0 <= j < v ==> !Accepts(sch.variants[j], r)) ==> Parse(sch, r) == Ok(v) by {
      if forall j :: 0 <= j < v ==> !Accepts(sch.variants[j], r) {
        ParseAsStr(sch, v);
      }
    }
    r
  }

  /** `PartialEq<str>` and `PartialEq<&str>` for the enum. */
  function EqStr(sch: Schema, v: Variant, s: Bytes): (r: bool)
    requires IsVariant(sch, v)
    ensures r <==> s == AsStr(sch, v)
  {
    AsStr(sch, v) == s
  }

  /** `PartialEq<Enum>` for `str` and `&str`. */
  function StrEq(sch: Schema, s: Bytes, v: Variant): (r: bool)
    requires IsVariant(sch, v)
    ensures r <==> s == AsStr(sch, v)
  {
    s == AsStr(sch, v)
  }

  /** `PartialOrd<str>` and `PartialOrd<&str>` for the enum. */
  function CmpStr(sch: Schema, v: Variant, s: Bytes): (r: Option<Ordering>)
    requires IsVariant(sch, v)
    ensures r.Some?
    ensures r.value == Less <==> LexLess(AsStr(sch, v), s)
    ensures r.value == Equal <==> EqStr(sch, v, s)
  {
    CompareLessIff(AsStr(sch, v), s);
    CompareEqualIff(AsStr(sch, v), s);
    Some(Compare(AsStr(sch, v), s))
  }

  /** `PartialOrd<Enum>` for `str` and `&str`. */
  function StrCmp(sch: Schema, s: Bytes, v: Variant): (r: Option<Ordering>)
    requires IsVariant(sch, v)
    ensures r.Some?
    ensures r.value == Less <==> LexLess(s, AsStr(sch, v))
    ensures r.value == Equal <==> StrEq(sch, s, v)
  {
    CompareLessIff(s, AsStr(sch, v));
    CompareEqualIff(s, AsStr(sch, v));
    Some(Compare(s, AsStr(sch, v)))
  }

  /** Equality agrees in both argument orders, and agrees with the comparison. */
  lemma EqSymmetric(sch: Schema, v: Variant, s: Bytes)
    requires IsVariant(sch, v)
    ensures EqStr(sch, v, s) <==> StrEq(sch, s, v)
    ensures EqStr(sch, v, s) <==> CmpStr(sch, v, s) == Some(Equal)
  {
  }

  /** Comparing from the other side reverses the ordering. */
  lemma {:induction false} CmpAntisymmetric(sch: Schema, v: Variant, s: Bytes)
    requires IsVariant(sch, v)
    ensures StrCmp(sch, s, v) == Some(CmpStr(sch, v, s).value.Reverse())
  {
    CompareReverse(AsStr(sch, v), s);
  }

  /**
    When the canonical literals are declared in increasing order, comparing
    the strings of two variants follows declaration order.
   */
  lemma {:induction false} SortedLiteralsFollowDeclarationOrder(sch: Schema, u: Variant, v: Variant)
    requires forall i :: 0 <= i < |sch.variants| - 1 ==> Compare(AsStr(sch, i), AsStr(sch, i + 1)) == Less
    requires u < v && IsVariant(sch, v)
    ensures CmpStr(sch, u, AsStr(sch, v)) == Some(Less)
    decreases v - u
  {
    if u + 1 < v {
      SortedLiteralsFollowDeclarationOrder(sch, u + 1, v);
      CompareLessTransitive(AsStr(sch, u), AsStr(sch, u + 1), AsStr(sch, v));
    }
  }

  /**
    A hasher's input, as the sequence of `str` values fed to it through
    `<str as Hash>::hash`; how std turns that into a `u64` is not part of
    this model.
   */
  datatype HashState = HashState(fed: seq<Bytes>)

  /** `<str as Hash>::hash`. */
  function HashStr(st: HashState, s: Bytes): HashState
  {
    HashState(st.fed + [s])
  }

  /** `Hash::hash` for the enum: feed the hasher `as_str()` as a `str`. */
  function HashVariant(sch: Schema, st: HashState, v: Variant): (r: HashState)
    requires IsVariant(sch, v)
    ensures r == HashStr(st, AsStr(sch, v))
    ensures r.fed[..|st.fed|] == st.fed && r.fed[|st.fed|] == AsStr(sch, v)
  {
    HashStr(st, AsStr(sch, v))
  }

  /**
    Hashing agrees with equality against `str`: a variant and a string feed
    the hasher the same input exactly when they are equal, which is what
    `HashMap<Enum, _>::get(&str)` through `Borrow<str>` relies on.
   */
  lemma HashAgreesWithEq(sch: Schema, st: HashState, v: Variant, s: Bytes)
    requires IsVariant(sch, v)
    ensures HashVariant(sch, st, v) == HashStr(st, s) <==> EqStr(sch, v, s)
  {
  }

  /** With distinct canonical literals, distinct variants feed distinct input. */
  lemma HashSeparatesVariants(sch: Schema, st: HashState, v: Variant, w: Variant)
    requires IsVariant(sch, v) && IsVariant(sch, w) && v != w
    requires AsStr(sch, v) != AsStr(sch, w)
    ensures HashVariant(sch, st, v) != HashVariant(sch, st, w)
  {
  }

  /** `Add<Enum>` for `String` and `Cow<str>`: append `as_str()`. */
  function Add(buf: Bytes, sch: Schema, v: Variant): (r: Bytes)
    requires IsVariant(sch, v)
    ensures |r| == |buf| + Len(sch, v)
    ensures r[..|buf|] == buf && r[|buf|..] == AsStr(sch, v)
  {
    buf + AsStr(sch, v)
  }

  /** The variants are all valid for the schema. */
  predicate AllVariantsOf(sch: Schema, vs: seq<Variant>)
  {
    forall i :: 0 <= i < |vs| ==> IsVariant(sch, vs[i])
  }

  /** `FromIterator<Enum>` for `String`, `Box<str>` and `Cow<str>`: the literals in iteration order. */
  function Collect(sch: Schema, vs: seq<Variant>): (r: Bytes)
    requires AllVariantsOf(sch, vs)
    ensures |r| == SumLen(sch, vs)
  {
    if vs == [] then [] else AsStr(sch, vs[0]) + Collect(sch, vs[1..])
  }

  /** Collecting distributes over concatenation of the iterated variants. */
  lemma {:induction false} CollectAppend(sch: Schema, a: seq<Variant>, b: seq<Variant>)
    requires AllVariantsOf(sch, a) && AllVariantsOf(sch, b)
    ensures AllVariantsOf(sch, a + b)
    ensures Collect(sch, a + b) == Collect(sch, a) + Collect(sch, b)
  {
    if a == [] {
      assert a + b == b;
    } else {
      assert (a + b)[1..] == a[1..] + b;
      CollectAppend(sch, a[1..], b);
    }
  }

  /** The `len()`s of the variants, added up. */
  function SumLen(sch: Schema, vs: seq<Variant>): nat
    requires AllVariantsOf(sch, vs)
  {
    if vs == [] then 0 else Len(sch, vs[0]) + SumLen(sch, vs[1..])
  }

  /** A `String` that `+=` and `Extend` grow in place. */
  class TextBuffer {
    var text: Bytes

    constructor (init: Bytes)
      ensures text == init
    {
      text := init;
    }

    /** `AddAssign<Enum>` for `String` and `Cow<str>`: `push_str(as_str())`. */
    method AddAssign(sch: Schema, v: Variant)
      requires IsVariant(sch, v)
      modifies this
      ensures text == Add(old(text), sch, v)
    {
      text := text + AsStr(sch, v);
    }

    /** `Extend<Enum>` for `String`: `push_str` of each literal, in iteration order. */
    method Extend(sch: Schema, vs: seq<Variant>)
      requires AllVariantsOf(sch, vs)
      modifies this
      ensures text == old(text) + Collect(sch, vs)
    {
      var i := 0;
      while i < |vs|
        invariant 0 <= i <= |vs|
        invariant AllVariantsOf(sch, vs[..i])
        invariant text == old(text) + Collect(sch, vs[..i])
      {
        CollectAppend(sch, vs[..i], [vs[i]]);
        assert vs[..i + 1] == vs[..i] + [vs[i]];
        AddAssign(sch, vs[i]);
        i := i + 1;
      }
      assert vs[..i] == vs;
    }
  }
}

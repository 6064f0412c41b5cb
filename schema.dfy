/**
  One generated instance of `str_enum_base!`, generic over its schema.

  The schema is the macro's input: the variants in declaration order, each
  with its canonical literal and its alternate literals. A value of the
  generated enum is represented by its declaration index. The macro adds no
  validation of the literals: duplicate, overlapping or empty strings are
  accepted, and lookup resolves them by declaration order.
 */
module Schema {
  import opened Wrappers
  import opened Bytes

  /** One `Variant => "canonical"("alias", ...)` entry. */
  datatype VariantSpec = VariantSpec(canonical: Bytes, aliases: seq<Bytes>)

  /** The whole enum definition: its variants in declaration order. */
  datatype Schema = Schema(variants: seq<VariantSpec>)

  /** A variant of the generated enum, by declaration index. */
  type Variant = nat

  predicate IsVariant(sch: Schema, v: Variant)
  {
    v < |sch.variants|
  }

  /** The match arm of `spec` in `try_from_str` accepts `s`. */
  predicate Accepts(spec: VariantSpec, s: Bytes)
  {
    s == spec.canonical || s in spec.aliases
  }

  /** `v` is the first variant, in declaration order, whose arm accepts `s`. */
  ghost predicate IsFirstMatch(sch: Schema, s: Bytes, v: Variant)
  {
    && IsVariant(sch, v)
    && Accepts(sch.variants[v], s)
    && forall j :: 0 <= j < v ==> !Accepts(sch.variants[j], s)
  }

  /** No variant's arm accepts `s`. */
  ghost predicate NoMatch(sch: Schema, s: Bytes)
  {
    forall j :: 0 <= j < |sch.variants| ==> !Accepts(sch.variants[j], s)
  }

  /** `as_str`: the canonical literal of a variant. */
  function AsStr(sch: Schema, v: Variant): (r: Bytes)
    requires IsVariant(sch, v)
    ensures Accepts(sch.variants[v], r)
  {
    sch.variants[v].canonical
  }

  /** The arms of the `match` in `try_from_str`, tried from index `i` on. */
  function FirstMatchFrom(sch: Schema, s: Bytes, i: nat): (r: Option<Variant>)
    requires i <= |sch.variants|
    ensures r.Some? ==> i <= r.value && IsVariant(sch, r.value) && Accepts(sch.variants[r.value], s)
    ensures r.Some? ==> forall j :: i <= j < r.value ==> !Accepts(sch.variants[j], s)
    ensures r.None? ==> forall j :: i <= j < |sch.variants| ==> !Accepts(sch.variants[j], s)
    decreases |sch.variants| - i
  {
    if i == |sch.variants| then None
    else if Accepts(sch.variants[i], s) then Some(i)
    else FirstMatchFrom(sch, s, i + 1)
  }

  /**
    `try_from_str`: the first variant whose canonical literal or one of
    whose aliases equals `s` byte for byte, or `None` if there is none.
   */
  function TryFromStr(sch: Schema, s: Bytes): (r: Option<Variant>)
    ensures r.Some? ==> IsFirstMatch(sch, s, r.value)
    ensures r.None? <==> NoMatch(sch, s)
  {
    FirstMatchFrom(sch, s, 0)
  }

  /** `ALL_VARIANTS`: every variant exactly once, in declaration order. */
  function AllVariants(sch: Schema): (r: seq<Variant>)
    ensures |r| == |sch.variants|
    ensures forall v: Variant :: v in r <==> IsVariant(sch, v)
    ensures forall i, j :: 0 <= i < j < |r| ==> r[i] < r[j]
  {
    var r := seq(|sch.variants|, i requires 0 <= i < |sch.variants| => i);
    assert forall v: Variant :: IsVariant(sch, v) ==> r[v] == v;
    r
  }

  /** `NUM_VARIANTS`: the length of `ALL_VARIANTS`. */
  function NumVariants(sch: Schema): (r: nat)
    ensures r == |AllVariants(sch)| == |sch.variants|
  {
    |AllVariants(sch)|
  }

  /** `ALL_VALUES`: `as_str` of each entry of `ALL_VARIANTS`, in the same order. */
  function AllValues(sch: Schema): (r: seq<Bytes>)
    ensures |r| == NumVariants(sch)
    ensures forall i :: 0 <= i < |r| ==> IsVariant(sch, AllVariants(sch)[i]) && r[i] == AsStr(sch, AllVariants(sch)[i])
  {
    var all := AllVariants(sch);
    seq(|all|, i requires 0 <= i < |all| => AsStr(sch, all[i]))
  }

  /** `len`: the byte length of the variant's canonical literal. */
  function Len(sch: Schema, v: Variant): (r: nat)
    requires IsVariant(sch, v)
    ensures r == |AsStr(sch, v)|
  {
    |AsStr(sch, v)|
  }

  /** No literal is accepted by two different arms. */
  ghost predicate Unambiguous(sch: Schema)
  {
    forall i, j, s :: 0 <= i < j < |sch.variants| && Accepts(sch.variants[i], s) ==> !Accepts(sch.variants[j], s)
  }

  /**
    Round trip: `try_from_str(as_str(v)) == Some(v)` whenever no earlier
    variant's arm accepts `as_str(v)`.
   */
  lemma TryFromAsStr(sch: Schema, v: Variant)
    requires IsVariant(sch, v)
    requires forall j :: 0 <= j < v ==> !Accepts(sch.variants[j], AsStr(sch, v))
    ensures TryFromStr(sch, AsStr(sch, v)) == Some(v)
  {
  }

  /**
    An alias of `v` resolves to `v` unless an earlier variant already
    claims the same literal.
   */
  lemma TryFromAlias(sch: Schema, v: Variant, a: Bytes)
    requires IsVariant(sch, v) && a in sch.variants[v].aliases
    requires forall j :: 0 <= j < v ==> !Accepts(sch.variants[j], a)
    ensures TryFromStr(sch, a) == Some(v)
  {
  }

  /**
    Declaration order breaks ties: a literal accepted by an earlier variant
    `u` never resolves to a later variant `v`.
   */
  lemma EarlierVariantWins(sch: Schema, u: Variant, v: Variant, s: Bytes)
    requires u < v && IsVariant(sch, v)
    requires Accepts(sch.variants[u], s)
    ensures TryFromStr(sch, s) != Some(v)
  {
  }

  /** For an unambiguous schema the round trip holds for every variant. */
  lemma TryFromAsStrAll(sch: Schema)
    requires Unambiguous(sch)
    ensures forall v: Variant :: IsVariant(sch, v) ==> TryFromStr(sch, AsStr(sch, v)) == Some(v)
  {
    forall v: Variant | IsVariant(sch, v)
      ensures TryFromStr(sch, AsStr(sch, v)) == Some(v)
    {
      forall j | 0 <= j < v
        ensures !Accepts(sch.variants[j], AsStr(sch, v))
      {
        assert Accepts(sch.variants[v], AsStr(sch, v));
      }
      TryFromAsStr(sch, v);
    }
  }
}

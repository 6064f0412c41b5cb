/**
  The compile-time value table of a generated enum: `ALL_VALUES_STR_LEN`
  and `ALL_VALUE_BYTES`, the canonical literals in declaration order joined
  by single commas. Both are `const` blocks that run `while` loops; they are
  modelled as methods with the same loops, proved against `Join`.
 */
module ValueTable {
  import opened Bytes
  import opened Schema

  /** Total byte length of the strings, without separators. */
  function TotalLen(vals: seq<Bytes>): nat
  {
    if vals == [] then 0 else |vals[0]| + TotalLen(vals[1..])
  }

  /** The strings joined by single commas, with no trailing separator. */
  function Join(vals: seq<Bytes>): Bytes
    requires |vals| > 0
    decreases |vals|
  {
    if |vals| == 1 then vals[0] else vals[0] + [Comma] + Join(vals[1..])
  }

  /** Every string followed by a comma: what the builder has written after a prefix of the strings. */
  function Terminated(vals: seq<Bytes>): Bytes
  {
    if vals == [] then [] else vals[0] + [Comma] + Terminated(vals[1..])
  }

  /** `str::split(',')`: the pieces between commas, at least one. */
  function Split(t: Bytes): (r: seq<Bytes>)
    ensures |r| > 0
    decreases |t|
  {
    if t == [] then [[]]
    else if t[0] == Comma then [[]] + Split(t[1..])
    else
      var rest := Split(t[1..]);
      [[t[0]] + rest[0]] + rest[1..]
  }

  /** The value table of a schema: `ALL_VALUE_STR`. */
  function AllValueStr(sch: Schema): (r: Bytes)
    requires |sch.variants| > 0
    ensures |r| == TotalLen(AllValues(sch)) + NumVariants(sch) - 1
  {
    JoinLength(AllValues(sch));
    Join(AllValues(sch))
  }

  predicate CommaFree(v: Bytes)
  {
    forall k :: 0 <= k < |v| ==> v[k] != Comma
  }

  lemma {:induction false} TotalLenAppend(a: seq<Bytes>, b: seq<Bytes>)
    ensures TotalLen(a + b) == TotalLen(a) + TotalLen(b)
  {
    if a != [] {
      assert (a + b)[1..] == a[1..] + b;
      TotalLenAppend(a[1..], b);
    } else {
      assert a + b == b;
    }
  }

  lemma {:induction false} TerminatedAppend(a: seq<Bytes>, b: seq<Bytes>)
    ensures Terminated(a + b) == Terminated(a) + Terminated(b)
  {
    if a != [] {
      assert (a + b)[1..] == a[1..] + b;
      TerminatedAppend(a[1..], b);
    } else {
      assert a + b == b;
    }
  }

  /** `ALL_VALUES_STR_LEN`: the joined table is Σ|vᵢ| + n − 1 bytes long. */
  lemma {:induction false} JoinLength(vals: seq<Bytes>)
    requires |vals| > 0
    ensures |Join(vals)| == TotalLen(vals) + |vals| - 1
    decreases |vals|
  {
    if |vals| > 1 {
      JoinLength(vals[1..]);
    }
  }

  /**
    The table splits into the strings written so far, each followed by its
    comma, and the join of the rest.
   */
  lemma {:induction false} JoinSplitAt(vals: seq<Bytes>, i: nat)
    requires i < |vals|
    ensures Join(vals) == Terminated(vals[..i]) + Join(vals[i..])
    decreases i
  {
    if i > 0 {
      JoinSplitAt(vals[1..], i - 1);
      assert vals[1..][..i - 1] == vals[..i][1..];
      assert vals[1..][i - 1..] == vals[i..];
    }
  }

  /**
    One step of the builder: after the strings before `i` and their commas,
    the table holds string `i`, then a comma unless `i` is the last.
   */
  lemma TableStep(vals: seq<Bytes>, i: nat)
    requires i < |vals|
    ensures var start := |Terminated(vals[..i])|;
      && start + |vals[i]| <= |Join(vals)|
      && Join(vals)[start..start + |vals[i]|] == vals[i]
      && (i < |vals| - 1 ==> start + |vals[i]| < |Join(vals)| && Join(vals)[start + |vals[i]|] == Comma)
      && (i < |vals| - 1 ==> |Terminated(vals[..i + 1])| == start + |vals[i]| + 1)
      && (i == |vals| - 1 ==> start + |vals[i]| == |Join(vals)|)
  {
    JoinSplitAt(vals, i);
    var t := Terminated(vals[..i]);
    assert Join(vals[i..]) == vals[i] + (if i == |vals| - 1 then [] else [Comma] + Join(vals[i + 1..]));
    assert Join(vals)[|t|..|t| + |vals[i]|] == vals[i];
    TerminatedAppend(vals[..i], [vals[i]]);
    assert vals[..i + 1] == vals[..i] + [vals[i]];
  }

  lemma {:induction false} SplitCommaFree(v: Bytes)
    requires CommaFree(v)
    ensures Split(v) == [v]
    decreases |v|
  {
    if v != [] {
      SplitCommaFree(v[1..]);
      assert [v[0]] + v[1..] == v;
    }
  }

  lemma {:induction false} SplitAfterComma(v: Bytes, t: Bytes)
    requires CommaFree(v)
    ensures Split(v + [Comma] + t) == [v] + Split(t)
    decreases |v|
  {
    if v == [] {
      assert v + [Comma] + t == [Comma] + t;
      assert ([Comma] + t)[1..] == t;
    } else {
      assert (v + [Comma] + t)[1..] == v[1..] + [Comma] + t;
      SplitAfterComma(v[1..], t);
      assert [v[0]] + v[1..] == v;
    }
  }

  /**
    Splitting the table on `,` gives back the strings in order, provided no
    string contains a comma.
   */
  lemma {:induction false} SplitJoin(vals: seq<Bytes>)
    requires |vals| > 0
    requires forall i :: 0 <= i < |vals| ==> CommaFree(vals[i])
    ensures Split(Join(vals)) == vals
    decreases |vals|
  {
    if |vals| == 1 {
      SplitCommaFree(vals[0]);
    } else {
      SplitJoin(vals[1..]);
      SplitAfterComma(vals[0], Join(vals[1..]));
      assert [vals[0]] + vals[1..] == vals;
    }
  }

  /** `ALL_VALUES` is `ALL_VALUE_STR` split on `,` when no literal contains a comma. */
  lemma AllValuesAreSplitTable(sch: Schema)
    requires |sch.variants| > 0
    requires forall v :: 0 <= v < |sch.variants| ==> CommaFree(sch.variants[v].canonical)
    ensures Split(AllValueStr(sch)) == AllValues(sch)
  {
    SplitJoin(AllValues(sch));
  }

  /**
    `ALL_VALUES_STR_LEN`: add `value.len() + 1` for every value, then take
    one away. The final subtraction needs at least one variant.
   */
  method AllValuesStrLen(sch: Schema) returns (len: nat)
    requires |sch.variants| > 0
    ensures len == TotalLen(AllValues(sch)) + NumVariants(sch) - 1
    ensures len == |AllValueStr(sch)|
  {
    var values := AllValues(sch);
    var acc := 0;
    var idx := 0;
    while idx < |values|
      invariant 0 <= idx <= |values|
      invariant acc == TotalLen(values[..idx]) + idx
    {
      var value := values[idx];
      TotalLenAppend(values[..idx], [value]);
      assert values[..idx + 1] == values[..idx] + [value];
      acc := acc + |value| + 1;
      idx := idx + 1;
    }
    assert values[..idx] == values;
    len := acc - 1;
    JoinLength(values);
  }

  /**
    The inner loop of `ALL_VALUE_BYTES`: copy `value` into `buf` from
    `start` on, one byte per step.
   */
  method CopyValue(buf: array<Byte>, start: nat, value: Bytes) returns (next: nat)
    requires start + |value| <= buf.Length
    modifies buf
    ensures next == start + |value|
    ensures buf[..start] == old(buf[..start])
    ensures buf[start..next] == value
    ensures buf[next..] == old(buf[next..])
  {
    next := start;
    var valueIdx := 0;
    while valueIdx < |value|
      invariant 0 <= valueIdx <= |value|
      invariant next == start + valueIdx
      invariant buf[..start] == old(buf[..start])
      invariant buf[start..next] == value[..valueIdx]
      invariant buf[next..] == old(buf[next..])
    {
      buf[next] := value[valueIdx];
      valueIdx := valueIdx + 1;
      next := next + 1;
    }
  }

  /**
    `ALL_VALUE_BYTES`: a zeroed buffer of `ALL_VALUES_STR_LEN` bytes, filled
    value by value, with a comma after every value but the last.
   */
  method AllValueBytes(sch: Schema) returns (buf: array<Byte>)
    requires |sch.variants| > 0
    ensures buf[..] == AllValueStr(sch)
  {
    var len := AllValuesStrLen(sch);
    buf := FillValueBytes(AllValues(sch), len);
  }

  /**
    The loops of the `ALL_VALUE_BYTES` block, over `ALL_VALUES` and a buffer
    of `ALL_VALUES_STR_LEN` zero bytes.
   */
  method FillValueBytes(values: seq<Bytes>, len: nat) returns (buf: array<Byte>)
    requires |values| > 0 && len == |Join(values)|
    ensures buf[..] == Join(values)
  {
    var n := |values|;
    // Every write stays in bounds, the cursor only moves forward, and it
    // ends on the last byte, so no zero is left.
    ghost var table := Join(values);
    buf := new Byte[len](_ => 0);
    var idx := 0;
    var bufIdx := 0;
    while idx < n
      invariant 0 <= idx <= n && bufIdx <= len
      invariant idx < n ==> bufIdx == |Terminated(values[..idx])|
      invariant idx == n ==> bufIdx == len
      invariant buf[..bufIdx] == table[..bufIdx]
      invariant forall k :: bufIdx <= k < len ==> buf[k] == 0
    {
      var value := values[idx];
      TableStep(values, idx);
      ghost var start := bufIdx;
      bufIdx := CopyValue(buf, bufIdx, value);
      assert table[..bufIdx] == table[..start] + value;
      if idx != n - 1 {
        buf[bufIdx] := Comma;
        bufIdx := bufIdx + 1;
        assert table[..bufIdx] == table[..bufIdx - 1] + [Comma];
      }
      idx := idx + 1;
    }
    assert buf[..] == buf[..bufIdx];
  }
}

/**
  Text is handled as the bytes of its UTF-8 encoding: every length, index
  and comparison in the generated code is on bytes (`str::len`,
  `str::as_bytes`, the `[u8; N]` tables).
 */
module Bytes {

  newtype Byte = b: int | 0 <= b < 256

  type Bytes = seq<Byte>

  /** `b','`, the separator of the value table. */
  const Comma: Byte := 44

  /** `b']'`, the last byte of every diagnostic string. */
  const CloseBracket: Byte := 93

  /** The bytes of an ASCII literal such as `b"one of ["`. */
  function Ascii(s: string): (r: Bytes)
    requires forall i :: 0 <= i < |s| ==> s[i] as int < 128
    ensures |r| == |s|
    ensures forall i :: 0 <= i < |s| ==> r[i] as int == s[i] as int
  {
    seq(|s|, i requires 0 <= i < |s| => s[i] as int as Byte)
  }

  /** The result of comparing two byte strings (`std::cmp::Ordering`). */
  datatype Ordering = Less | Equal | Greater {
    /** The ordering seen from the other operand. */
    function Reverse(): Ordering
    {
      match this
      case Less => Greater
      case Equal => Equal
      case Greater => Less
    }
  }

  /** Lexicographic comparison of byte strings, the order of `str`. */
  function Compare(a: Bytes, b: Bytes): Ordering
    decreases |a|
  {
    if a == [] then (if b == [] then Equal else Less)
    else if b == [] then Greater
    else if a[0] < b[0] then Less
    else if a[0] > b[0] then Greater
    else Compare(a[1..], b[1..])
  }

  /**
    `a` sorts before `b`: either `a` is a proper prefix of `b`, or at the
    first position where they differ `a` has the smaller byte.
   */
  ghost predicate LexLess(a: Bytes, b: Bytes)
  {
    (|a| < |b| && a == b[..|a|]) ||
    exists k :: 0 <= k < |a| && k < |b| && a[..k] == b[..k] && a[k] < b[k]
  }

  /** Comparison reports `Equal` exactly on equal strings. */
  lemma {:induction false} CompareEqualIff(a: Bytes, b: Bytes)
    ensures Compare(a, b) == Equal <==> a == b
    decreases |a|
  {
    if a != [] && b != [] && a[0] == b[0] {
      CompareEqualIff(a[1..], b[1..]);
      assert a == [a[0]] + a[1..];
      assert b == [b[0]] + b[1..];
    }
  }

  /** Swapping the operands reverses the comparison. */
  lemma {:induction false} CompareReverse(a: Bytes, b: Bytes)
    ensures Compare(b, a) == Compare(a, b).Reverse()
    decreases |a|
  {
    if a != [] && b != [] && a[0] == b[0] {
      CompareReverse(a[1..], b[1..]);
    }
  }

  /** `Compare` says `Less` exactly when `a` sorts lexicographically first. */
  lemma {:induction false} CompareLessIff(a: Bytes, b: Bytes)
    ensures Compare(a, b) == Less <==> LexLess(a, b)
    decreases |a|
  {
    if a == [] {
      if b != [] {
        assert a == b[..0];
      } else {
        assert !LexLess(a, b);
      }
    } else if b == [] {
      assert !LexLess(a, b);
    } else if a[0] < b[0] {
      assert a[..0] == b[..0];
    } else if a[0] > b[0] {
      assert forall k :: 0 < k <= |a| ==> a[..k][0] == a[0];
      assert forall k :: 0 < k <= |b| ==> b[..k][0] == b[0];
    } else {
      CompareLessIff(a[1..], b[1..]);
      if LexLess(a[1..], b[1..]) {
        if |a[1..]| < |b[1..]| && a[1..] == b[1..][..|a[1..]|] {
          assert a == b[..|a|];
        } else {
          var k :| 0 <= k < |a[1..]| && k < |b[1..]| && a[1..][..k] == b[1..][..k] && a[1..][k] < b[1..][k];
          assert a[..k + 1] == [a[0]] + a[1..][..k];
          assert b[..k + 1] == [b[0]] + b[1..][..k];
          assert a[k + 1] < b[k + 1];
        }
      }
      if LexLess(a, b) {
        if |a| < |b| && a == b[..|a|] {
          assert a[1..] == b[1..][..|a[1..]|];
        } else {
          var k :| 0 <= k < |a| && k < |b| && a[..k] == b[..k] && a[k] < b[k];
          assert k != 0;
          assert a[1..][..k - 1] == a[..k][1..];
          assert b[1..][..k - 1] == b[..k][1..];
          assert a[1..][k - 1] < b[1..][k - 1];
        }
      }
    }
  }

  /** `Less` is transitive. */
  lemma {:induction false} CompareLessTransitive(a: Bytes, b: Bytes, c: Bytes)
    requires Compare(a, b) == Less && Compare(b, c) == Less
    ensures Compare(a, c) == Less
    decreases |a|
  {
    if a != [] && b != [] && c != [] && a[0] == b[0] && b[0] == c[0] {
      CompareLessTransitive(a[1..], b[1..], c[1..]);
    }
  }
}

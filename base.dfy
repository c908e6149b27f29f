/** Shared vocabulary: an optional value and C#'s 32-bit `int`. */
module Base {

  /** A value that may be missing; `None` stands for a C# `null` or a thrown exception. */
  datatype Option<T> = None | Some(value: T)

  const MIN_INT32: int := -0x8000_0000
  const MAX_INT32: int := 0x7FFF_FFFF

  /** The values of a C# `int`. */
  type int32 = v: int | -0x8000_0000 <= v < 0x8000_0000

  /** The result of unchecked (wrapping) C# `int` arithmetic whose exact value is `v`. */
  function Wrap32(v: int): (r: int32)
    ensures (r - v) % 0x1_0000_0000 == 0
    ensures MIN_INT32 <= v <= MAX_INT32 ==> r == v
  {
    (v + 0x8000_0000) % 0x1_0000_0000 - 0x8000_0000
  }

  /** Wrapping is determined by the residue modulo 2^32. */
  lemma WrapUnique(v: int, r: int, k: int)
    requires MIN_INT32 <= r <= MAX_INT32
    requires v == r + k * 0x1_0000_0000
    ensures Wrap32(v) == r
  {
    var m := 0x1_0000_0000;
    var q := (v + 0x8000_0000) / m;
    assert v + 0x8000_0000 == q * m + (v + 0x8000_0000) % m;
    assert (r + 0x8000_0000) + (k - q) * m == (v + 0x8000_0000) % m;
  }

  /** Negating before wrapping negates the wrapped value, except at the one value
      (`int.MinValue`) that has no 32-bit negation and is its own negation. */
  lemma WrapNegate(v: int)
    ensures Wrap32(-v) as int == -(Wrap32(v) as int) || Wrap32(-v) == Wrap32(v) == MIN_INT32
  {
    var r := Wrap32(v);
    var k := (v - r) / 0x1_0000_0000;
    assert v == r + k * 0x1_0000_0000;
    if r == MIN_INT32 {
      WrapUnique(-v, MIN_INT32, 1 - k);
    } else {
      WrapUnique(-v, -r, -k);
    }
  }

  /** Indexing into the left part of a concatenation. */
  lemma AppendLeft<T>(a: seq<T>, b: seq<T>, i: int)
    requires 0 <= i < |a|
    ensures (a + b)[i] == a[i]
  {
  }

  /** Indexing into the right part of a concatenation. */
  lemma AppendRight<T>(a: seq<T>, b: seq<T>, i: int)
    requires |a| <= i < |a| + |b|
    ensures (a + b)[i] == b[i - |a|]
  {
  }
}

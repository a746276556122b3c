/**
 The handful of JavaScript number semantics the heatmap relies on: the
 `x | 0` coercion (truncate toward zero, then wrap to a signed 32-bit
 integer), the `Uint8ClampedArray` store (clamp to [0,255]), NaN as produced
 by `parseInt`, and `String.prototype.slice` with out-of-range indices.
 */
module Js {

  /** A value stored in a `Uint8ClampedArray`. */
  type Byte = x: int | 0 <= x <= 255

  datatype Option<+T> = None | Some(value: T)

  /** A JavaScript number that is either NaN or an integer; the colour
      channels of a gradient stop never hold anything else. */
  datatype Num = NaN | Int(v: int)

  const TwoTo31: int := 0x8000_0000
  const TwoTo32: int := 0x1_0000_0000

  predicate InInt32(n: int) {
    -TwoTo31 <= n < TwoTo31
  }

  /** Truncation toward zero (the first half of `x | 0`); unlike `Floor`
      it rounds negative values up. */
  function Trunc(x: real): (r: int)
    ensures 0.0 <= x ==> r as real <= x < r as real + 1.0
    ensures x < 0.0 ==> r as real - 1.0 < x <= r as real
  {
    if x >= 0.0 then x.Floor else -((-x).Floor)
  }

  /** ECMAScript ToInt32 on an integer: wrap modulo 2^32 into the signed range. */
  function ToInt32(n: int): (r: int)
    ensures InInt32(r)
    ensures (r - n) % TwoTo32 == 0
    ensures InInt32(n) ==> r == n
  {
    var m := n % TwoTo32;
    if m >= TwoTo31 then m - TwoTo32 else m
  }

  /** The store into a `Uint8ClampedArray` of an integer value. */
  function ClampByte(n: int): (r: Byte)
    ensures 0 <= n <= 255 ==> r == n
    ensures n < 0 ==> r == 0
    ensures n > 255 ==> r == 255
  {
    if n <= 0 then 0 else if n >= 255 then 255 else n
  }

  lemma ClampByteMonotone(a: int, b: int)
    requires a <= b
    ensures ClampByte(a) <= ClampByte(b)
  {
  }

  function Min(a: int, b: int): int {
    if a <= b then a else b
  }

  function Max(a: int, b: int): int {
    if a <= b then b else a
  }

  /** `s.slice(a, b)` with `0 <= a <= b`: indices past the end are cut back. */
  function Slice(s: string, a: nat, b: nat): (r: string)
    requires a <= b
    ensures |r| == Min(b, |s|) - Min(a, |s|)
    ensures forall k :: 0 <= k < |r| ==> r[k] == s[a + k]
  {
    s[Min(a, |s|)..Min(b, |s|)]
  }
}

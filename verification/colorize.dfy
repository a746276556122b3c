/**
 The colorize pass (`_colorizeAll`'s per-pixel loop): the accumulated
 field is a flat RGBA byte sequence; each pixel's density is its alpha,
 or its red channel when the alpha is 0; a zero density gives a fully
 transparent pixel, any other density `v` the table colour of level `v`
 with alpha `min(255, 40 + v)`.
 */
module Colorize {
  import opened Js
  import opened ColorParse
  import Gradient

  /** Pixel data as `ImageData.data` holds it: four bytes per pixel. */
  type Image = s: seq<Byte> | |s| % 4 == 0

  /** `LUT[k]` on a typed array: past its end it reads `undefined`, which
      the output array stores as 0. */
  function LutAt(lut: seq<Byte>, k: nat): Byte {
    if k < |lut| then lut[k] else 0
  }

  /** `a || r`: the alpha when it is non-zero, the red channel otherwise. */
  function Density(r: Byte, a: Byte): Byte {
    if a != 0 then a else r
  }

  /** The four bytes written for one source pixel. */
  function PixelOut(r: Byte, a: Byte, lut: seq<Byte>): (p: seq<Byte>)
    ensures |p| == 4
  {
    var v := Density(r, a);
    if v > 0 then [LutAt(lut, 4 * v), LutAt(lut, 4 * v + 1), LutAt(lut, 4 * v + 2), Min(255, 40 + v)]
    else [0, 0, 0, 0]
  }

  /** Start of the pixel that byte `k` belongs to. */
  function PixelStart(k: nat): nat {
    k - k % 4
  }

  /** The output byte `k` as the per-pixel rule defines it. */
  function OutByte(field: Image, lut: seq<Byte>, k: nat): Byte
    requires k < |field|
  {
    var p := PixelStart(k);
    PixelOut(field[p], field[p + 3], lut)[k % 4]
  }

  /** Byte `c` of pixel `p` sits at `4p + c`. */
  lemma PixelIndex(p: nat, c: nat)
    requires c < 4
    ensures PixelStart(4 * p + c) == 4 * p && (4 * p + c) % 4 == c
  {
  }

  /** Dropping the first pixel shifts every later byte back by one pixel. */
  lemma OutByteShift(field: Image, lut: seq<Byte>, k: nat)
    requires 4 <= k < |field|
    ensures OutByte(field[4..], lut, k - 4) == OutByte(field, lut, k)
  {
    var p := (k - 4) / 4;
    PixelIndex(p, (k - 4) % 4);
    PixelIndex(p + 1, (k - 4) % 4);
  }

  /** The whole pass, pixel after pixel. */
  function Colorize(field: Image, lut: seq<Byte>): (out: Image)
    ensures |out| == |field|
    ensures forall k :: 0 <= k < |field| ==> out[k] == OutByte(field, lut, k)
    decreases |field|
  {
    if |field| == 0 then []
    else
      var head := PixelOut(field[0], field[3], lut);
      var tail := Colorize(field[4..], lut);
      assert forall k :: 0 <= k < 4 ==> PixelStart(k) == 0;
      forall k | 4 <= k < |field|
        ensures OutByte(field[4..], lut, k - 4) == OutByte(field, lut, k)
      {
        OutByteShift(field, lut, k);
      }
      head + tail
  }

  /** The branch of the source's loop body for one pixel. */
  method ColorizePixel(r: Byte, a: Byte, lut: seq<Byte>) returns (c0: Byte, c1: Byte, c2: Byte, c3: Byte)
    ensures [c0, c1, c2, c3] == PixelOut(r, a, lut)
    ensures c3 == 0 <==> r == 0 && a == 0
  {
    var v: int := if a != 0 then a else r;
    if v > 0 {
      var j := 4 * v;
      c0, c1, c2, c3 := LutAt(lut, j), LutAt(lut, j + 1), LutAt(lut, j + 2), Min(255, 40 + v);
    } else {
      c0, c1, c2, c3 := 0, 0, 0, 0;
    }
  }

  /** The loop of the source over a freshly created output array. */
  method ColorizeLoop(src: Image, lut: seq<Byte>) returns (dst: Image)
    ensures dst == Colorize(src, lut)
  {
    var d := new Byte[|src|](_ => 0);
    var n := |src| / 4;
    var p := 0;
    while p < n
      invariant 0 <= p <= n && 4 * n == |src|
      invariant AgreesUpTo(d[..], src, lut, 4 * p)
    {
      var i := 4 * p;
      ghost var before := d[..];
      var c0, c1, c2, c3 := ColorizePixel(src[i], src[i + 3], lut);
      d[i], d[i + 1], d[i + 2], d[i + 3] := c0, c1, c2, c3;
      ghost var after := d[..];
      assert after[i..i + 4] == [c0, c1, c2, c3];
      AgreesExtend(before, after, src, lut, p);
      p := p + 1;
    }
    AgreesIsColorize(d[..], src, lut);
    dst := d[..];
  }

  /** The first `m` bytes of `d` follow the per-pixel rule. */
  ghost predicate AgreesUpTo(d: seq<Byte>, field: Image, lut: seq<Byte>, m: nat) {
    m <= |d| == |field| && forall k :: 0 <= k < m ==> d[k] == OutByte(field, lut, k)
  }

  /** Writing the rule's bytes for pixel `p` extends the agreeing prefix by
      one pixel. */
  lemma AgreesExtend(a: seq<Byte>, b: seq<Byte>, field: Image, lut: seq<Byte>, p: nat)
    requires AgreesUpTo(a, field, lut, 4 * p) && 4 * p + 3 < |field| && |b| == |a|
    requires forall k :: 0 <= k < 4 * p ==> b[k] == a[k]
    requires b[4 * p..4 * p + 4] == PixelOut(field[4 * p], field[4 * p + 3], lut)
    ensures AgreesUpTo(b, field, lut, 4 * p + 4)
  {
    forall k | 0 <= k < 4 * p + 4
      ensures b[k] == OutByte(field, lut, k)
    {
      if k >= 4 * p {
        PixelIndex(p, k - 4 * p);
        assert b[k] == b[4 * p..4 * p + 4][k - 4 * p];
      }
    }
  }

  /** A byte sequence that agrees with the per-pixel rule everywhere is
      the result of the pass. */
  lemma AgreesIsColorize(d: seq<Byte>, field: Image, lut: seq<Byte>)
    requires AgreesUpTo(d, field, lut, |field|)
    ensures d == Colorize(field, lut)
  {
  }

  // ---------------------------------------------------------------------
  // Properties of one pass

  /** Byte `c` of output pixel `p` is byte `c` of the per-pixel rule
      applied to pixel `p` of the field. */
  lemma OutputByte(field: Image, lut: seq<Byte>, p: nat, c: nat)
    requires 4 * p + 3 < |field| && c < 4
    ensures Colorize(field, lut)[4 * p + c] == PixelOut(field[4 * p], field[4 * p + 3], lut)[c]
  {
    PixelIndex(p, c);
  }

  /** A pixel is transparent exactly when both its alpha and its red
      channel are zero; otherwise its alpha is `min(255, 40 + v)`, at least
      41, and its colour is entry `v` of the table. */
  lemma PixelRule(r: Byte, a: Byte, lut: seq<Byte>)
    requires |lut| == Gradient.TableSize
    ensures var px := PixelOut(r, a, lut);
            var v: int := if a != 0 then a else r;
            && (px[3] == 0 <==> r == 0 && a == 0)
            && (v == 0 ==> px == [0, 0, 0, 0])
            && (v != 0 ==> px[3] == Min(255, 40 + v) >= 41)
            && (v != 0 ==> Rgb(px[0], px[1], px[2]) == Gradient.LutRgb(lut, v))
  {
  }

  /** In the output image, pixel `p` is transparent exactly where the
      field has neither alpha nor red at `p`. */
  lemma TransparentExactlyWhereEmpty(field: Image, lut: seq<Byte>, p: nat)
    requires 4 * p + 3 < |field|
    ensures Colorize(field, lut)[4 * p + 3] == 0 <==> field[4 * p] == 0 && field[4 * p + 3] == 0
  {
    OutputByte(field, lut, p, 3);
  }

  /** A field with no density colorizes to a fully transparent image. */
  lemma EmptyFieldIsTransparent(field: Image, lut: seq<Byte>)
    requires forall k :: 0 <= k < |field| ==> field[k] == 0
    ensures forall k :: 0 <= k < |field| ==> Colorize(field, lut)[k] == 0
  {
    var out := Colorize(field, lut);
    forall k | 0 <= k < |field|
      ensures out[k] == 0
    {
      assert out[k] == OutByte(field, lut, k);
      assert field[PixelStart(k)] == 0 && field[PixelStart(k) + 3] == 0;
    }
  }

  /** Denser pixels are never more transparent. */
  lemma AlphaGrowsWithDensity(r1: Byte, a1: Byte, r2: Byte, a2: Byte, lut: seq<Byte>)
    requires Density(r1, a1) <= Density(r2, a2)
    ensures PixelOut(r1, a1, lut)[3] <= PixelOut(r2, a2, lut)[3]
  {
  }

  /** Only the first three channels of a pixel depend on the table, and
      only on the entry of its own density. */
  lemma OnlyOwnEntryMatters(r: Byte, a: Byte, lut1: seq<Byte>, lut2: seq<Byte>)
    requires |lut1| == |lut2| == Gradient.TableSize
    requires var v := Density(r, a);
             v == 0 || Gradient.LutRgb(lut1, v) == Gradient.LutRgb(lut2, v)
    ensures PixelOut(r, a, lut1) == PixelOut(r, a, lut2)
  {
  }
}

/**
 The gradient lookup-table builder (`_buildGradientLUT`): stops `[t, colour]`
 are sorted by position, their positions clamped into [0,1] and their
 colours decoded; then for each of the 256 levels `t = i/255` the first
 segment whose right end is at or past `t` is found, a local fraction is
 computed in it, and each channel is interpolated with `(a + (b-a)·f) | 0`
 and stored into a `Uint8ClampedArray` of 256 RGBA entries whose alpha is
 always 255.

 The local fraction exists in two versions. `AsWritten` is the code as it
 stands: it computes `t2[0] - t1[0]` on positions that are already plain
 numbers, which is `undefined - undefined`, i.e. NaN; `NaN > 1e-6` is false
 so the fraction is always 0 and no entry is ever interpolated. `Intended`
 is the evident intent, `(t - t1) / (t2 - t1)` on segments wider than 1e-6.
 */
module Gradient {
  import opened Js
  import opened ColorParse

  /** A stop as configured: a position and a colour string. */
  datatype Stop = Stop(pos: real, color: string)

  /** A stop after normalisation: clamped position, decoded colour. */
  datatype NStop = NStop(pos: real, color: Color)

  // ---------------------------------------------------------------------
  // A copy of the stops, stably sorted by position

  predicate SortedByPos(s: seq<Stop>) {
    forall a, b :: 0 <= a < b < |s| ==> s[a].pos <= s[b].pos
  }

  /** Inserts `x` before the first stop at or after its position, so that
      it precedes the stops of equal position that came after it. */
  function Insert(x: Stop, s: seq<Stop>): (r: seq<Stop>)
    ensures |r| == |s| + 1
    ensures multiset(r) == multiset(s) + multiset{x}
  {
    if |s| == 0 then [x]
    else if x.pos <= s[0].pos then [x] + s
    else
      assert s == [s[0]] + s[1..];
      [s[0]] + Insert(x, s[1..])
  }

  lemma {:induction false} InsertSorted(x: Stop, s: seq<Stop>)
    requires SortedByPos(s)
    ensures SortedByPos(Insert(x, s))
  {
    if |s| > 0 && x.pos > s[0].pos {
      var rest := Insert(x, s[1..]);
      InsertSorted(x, s[1..]);
      forall k | 0 <= k < |rest|
        ensures s[0].pos <= rest[k].pos
      {
        assert rest[k] in multiset(rest);
        if rest[k] != x {
          assert rest[k] in multiset(s[1..]);
          var m :| 0 <= m < |s[1..]| && s[1..][m] == rest[k];
          assert s[m + 1] == rest[k];
        }
      }
      assert Insert(x, s) == [s[0]] + rest;
    }
  }

  function SortByPos(s: seq<Stop>): (r: seq<Stop>)
    ensures |r| == |s|
    ensures multiset(r) == multiset(s)
    ensures SortedByPos(r)
  {
    if |s| == 0 then []
    else
      assert s == [s[0]] + s[1..];
      InsertSorted(s[0], SortByPos(s[1..]));
      Insert(s[0], SortByPos(s[1..]))
  }

  /** The stops at one position, in their order. */
  function AtPos(s: seq<Stop>, p: real): seq<Stop> {
    if |s| == 0 then []
    else (if s[0].pos == p then [s[0]] else []) + AtPos(s[1..], p)
  }

  lemma {:induction false} InsertAtPos(x: Stop, s: seq<Stop>, p: real)
    requires SortedByPos(s)
    ensures AtPos(Insert(x, s), p) == if x.pos == p then [x] + AtPos(s, p) else AtPos(s, p)
    decreases |s|
  {
    if |s| == 0 {
    } else if x.pos <= s[0].pos {
      assert Insert(x, s) == [x] + s;
      assert ([x] + s)[1..] == s;
    } else {
      var rest := Insert(x, s[1..]);
      assert Insert(x, s) == [s[0]] + rest;
      assert ([s[0]] + rest)[1..] == rest;
      InsertAtPos(x, s[1..], p);
      if x.pos == p {
        // every stop before x in the result lies strictly left of p
        assert s[0].pos < p;
      }
    }
  }

  /** The sort is stable: stops of equal position keep their relative order. */
  lemma {:induction false} SortIsStable(s: seq<Stop>, p: real)
    ensures AtPos(SortByPos(s), p) == AtPos(s, p)
  {
    if |s| > 0 {
      SortIsStable(s[1..], p);
      InsertAtPos(s[0], SortByPos(s[1..]), p);
    }
  }

  // ---------------------------------------------------------------------
  // Each stop with its position clamped into [0,1] and its colour decoded

  function Clamp01(p: real): (q: real)
    ensures 0.0 <= q <= 1.0
    ensures 0.0 <= p <= 1.0 ==> q == p
  {
    if p < 0.0 then 0.0 else if p > 1.0 then 1.0 else p
  }

  predicate Parses(x: Stop) {
    ParseColor(x.color).Some?
  }

  /** Applies a decoder that may fail to every element; `None` as soon as
      one element fails, as a `map` whose callback throws. */
  function MapAll<A(==), B>(f: A -> Option<B>, s: seq<A>): (r: Option<seq<B>>)
    ensures r.Some? <==> forall x :: x in s ==> f(x).Some?
    ensures r.Some? ==> |r.value| == |s|
  {
    if |s| == 0 then Some([])
    else
      assert s == [s[0]] + s[1..];
      match f(s[0])
      case None =>
        assert s[0] in s;
        None
      case Some(y) =>
        match MapAll(f, s[1..])
        case None =>
          var x :| x in s[1..] && f(x).None?;
          assert x in s;
          None
        case Some(rest) => Some([y] + rest)
  }

  /** Entry `k` of a successful map is the decoding of element `k`. */
  lemma {:induction false} MapAllContents<A, B>(f: A -> Option<B>, s: seq<A>)
    requires MapAll(f, s).Some?
    ensures forall k :: 0 <= k < |s| ==> f(s[k]) == Some(MapAll(f, s).value[k])
    decreases |s|
  {
    if |s| > 0 {
      MapAllContents(f, s[1..]);
      var r := MapAll(f, s).value;
      var rest := MapAll(f, s[1..]).value;
      assert r == [f(s[0]).value] + rest;
      forall k | 1 <= k < |s|
        ensures r[k] == rest[k - 1] && s[k] == s[1..][k - 1]
      {
      }
    }
  }

  /** One stop: position clamped, colour decoded (`None` where the decode
      throws). */
  function DecodeStop(x: Stop): Option<NStop> {
    match ParseColor(x.color)
    case None => None
    case Some(c) => Some(NStop(Clamp01(x.pos), c))
  }

  /** Maps clamping and decoding over the stops; `None` when a decode throws. */
  function NormalizeAll(s: seq<Stop>): (r: Option<seq<NStop>>)
    ensures r.Some? <==> forall x :: x in s ==> Parses(x)
    ensures r.Some? ==> |r.value| == |s|
  {
    MapAll(DecodeStop, s)
  }

  /** Entry `k` of the mapped list is stop `k` with its position clamped
      and its colour decoded. */
  lemma NormalizeAllContents(s: seq<Stop>)
    requires NormalizeAll(s).Some?
    ensures forall k :: 0 <= k < |s| ==>
      NormalizeAll(s).value[k].pos == Clamp01(s[k].pos) && ParseColor(s[k].color) == Some(NormalizeAll(s).value[k].color)
  {
    MapAllContents(DecodeStop, s);
  }

  predicate NSorted(s: seq<NStop>) {
    forall a, b :: 0 <= a < b < |s| ==> s[a].pos <= s[b].pos
  }

  predicate ColorInInt32(c: Color) {
    NumInInt32(c.r) && NumInInt32(c.g) && NumInInt32(c.b)
  }

  /** What the lookup loop may rely on: sorted, positions in [0,1], channels
      that are NaN or 32-bit integers. */
  predicate Normalized(s: seq<NStop>) {
    && NSorted(s)
    && (forall k :: 0 <= k < |s| ==> 0.0 <= s[k].pos <= 1.0)
    && (forall k :: 0 <= k < |s| ==> ColorInInt32(s[k].color))
  }

  /** The normalised stop list `s` of the source. */
  function Normalize(stops: seq<Stop>): (r: Option<seq<NStop>>)
    ensures r.Some? <==> forall x :: x in stops ==> Parses(x)
    ensures r.Some? ==> |r.value| == |stops| && Normalized(r.value)
  {
    var sorted := SortByPos(stops);
    SameMembers(stops, sorted);
    var r := NormalizeAll(sorted);
    if r.Some? then
      NormalizeAllContents(sorted);
      forall k | 0 <= k < |sorted|
        ensures ColorInInt32(r.value[k].color)
      {
        assert ParseColor(sorted[k].color) == Some(r.value[k].color);
      }
      r
    else r
  }

  /** Entry `k` of the normalised list is stop `k` of the sorted list with
      its position clamped and its colour decoded. */
  lemma NormalizeContents(stops: seq<Stop>)
    requires Normalize(stops).Some?
    ensures forall k :: 0 <= k < |stops| ==>
      Normalize(stops).value[k].pos == Clamp01(SortByPos(stops)[k].pos)
      && ParseColor(SortByPos(stops)[k].color) == Some(Normalize(stops).value[k].color)
  {
    NormalizeAllContents(SortByPos(stops));
  }

  lemma SameMembers(a: seq<Stop>, b: seq<Stop>)
    requires multiset(a) == multiset(b)
    ensures forall x :: x in a <==> x in b
  {
    forall x ensures x in a <==> x in b {
      assert x in a <==> x in multiset(a);
      assert x in b <==> x in multiset(b);
    }
  }

  // ---------------------------------------------------------------------
  // The segment scan: advance while the next stop exists and lies left of t

  function Scan(s: seq<NStop>, t: real, j: nat): (r: nat)
    requires j < |s|
    ensures j <= r < |s|
    ensures r == |s| - 1 || t <= s[r + 1].pos
    ensures forall k :: j < k <= r ==> t > s[k].pos
    decreases |s| - j
  {
    if j < |s| - 1 && t > s[j + 1].pos then Scan(s, t, j + 1) else j
  }

  /** The index `j` the scan stops at: the first whose right neighbour is at
      or past `t`, or the last stop. */
  function Segment(s: seq<NStop>, t: real): (j: nat)
    requires |s| >= 1
    ensures j < |s|
    ensures j == |s| - 1 || t <= s[j + 1].pos
    ensures forall k :: 0 < k <= j ==> t > s[k].pos
  {
    Scan(s, t, 0)
  }

  /** The right end of segment `j`: the stop after `j`, or `j` itself when it is the last. */
  function Right(s: seq<NStop>, j: nat): nat
    requires j < |s|
  {
    Min(|s| - 1, j + 1)
  }

  // ---------------------------------------------------------------------
  // Interpolation

  datatype FractionRule = AsWritten | Intended

  const MinWidth: real := 0.000001

  /** The local fraction of `t` in the segment from `p1` to `p2`: the
      share of the segment's width that lies left of `t`. */
  function Fraction(rule: FractionRule, t: real, p1: real, p2: real): (f: real)
    ensures rule == AsWritten ==> f == 0.0
    ensures p2 - p1 <= MinWidth ==> f == 0.0
    ensures rule == Intended && p2 - p1 > MinWidth ==> p1 + f * (p2 - p1) == t
  {
    match rule
    case AsWritten => 0.0
    case Intended => if p2 - p1 > MinWidth then (t - p1) / (p2 - p1) else 0.0
  }

  /** `_lerp(a, b, f)`, i.e. `(a + (b - a) * f) | 0`; NaN becomes 0. */
  function Lerp(a: Num, b: Num, f: real): (r: int)
    ensures InInt32(r)
    ensures a.NaN? || b.NaN? ==> r == 0
  {
    if a.NaN? || b.NaN? then 0
    else ToInt32(Trunc(Blend(a.v, b.v, f)))
  }

  /** The exact-real value of `a + (b - a) * f`. */
  function Blend(a: int, b: int, f: real): real {
    a as real + (b - a) as real * f
  }

  /** A channel value as the `Uint8ClampedArray` stores it. */
  function Channel(a: Num, b: Num, f: real): (x: Byte)
    ensures a.NaN? || b.NaN? ==> x == 0
    ensures a == b && NumInInt32(a) ==> x == ClampNum(a)
  {
    ClampByte(Lerp(a, b, f))
  }

  /** A decoded colour stored as is: NaN channels read 0. */
  function ClampNum(n: Num): Byte {
    if n.NaN? then 0 else ClampByte(n.v)
  }

  function ClampColor(c: Color): Rgb {
    Rgb(ClampNum(c.r), ClampNum(c.g), ClampNum(c.b))
  }

  /** The position of level `i` of the table. */
  function Level(i: nat): real {
    i as real / 255.0
  }

  /** The colour of level `i`: each channel blended between the two ends
      of the segment the scan finds. A segment with the same colour at both
      ends gives that colour whatever the fraction. */
  function LevelColor(s: seq<NStop>, i: nat, rule: FractionRule): (c: Rgb)
    requires |s| >= 1
    ensures var j := Segment(s, Level(i));
            s[j].color == s[Right(s, j)].color && ColorInInt32(s[j].color) ==> c == ClampColor(s[j].color)
  {
    var t := Level(i);
    var j := Segment(s, t);
    var lo := s[j];
    var hi := s[Right(s, j)];
    var f := Fraction(rule, t, lo.pos, hi.pos);
    Rgb(Channel(lo.color.r, hi.color.r, f),
        Channel(lo.color.g, hi.color.g, f),
        Channel(lo.color.b, hi.color.b, f))
  }

  // ---------------------------------------------------------------------
  // The table: 256 RGBA entries, flat

  const Levels: nat := 256
  const TableSize: nat := 1024

  /** The colour of entry `i` of a flat RGBA table. */
  function LutRgb(lut: seq<Byte>, i: nat): Rgb
    requires 4 * i + 3 <= |lut|
  {
    Rgb(lut[4 * i], lut[4 * i + 1], lut[4 * i + 2])
  }

  /** The alpha byte of entry `i` of a flat RGBA table. */
  function LutAlpha(lut: seq<Byte>, i: nat): Byte
    requires 4 * i + 4 <= |lut|
  {
    lut[4 * i + 3]
  }

  /** The four bytes the loop writes for one level. */
  function Entry(c: Rgb): (e: seq<Byte>)
    ensures |e| == 4
  {
    [c.r, c.g, c.b, 255]
  }

  /** The first `n` levels of the loop, level `i` being given the colour
      `colors(i)`. */
  function TablePrefix(colors: nat -> Rgb, n: nat): (lut: seq<Byte>)
    ensures |lut| == 4 * n
    ensures forall i :: 0 <= i < n ==> LutRgb(lut, i) == colors(i)
    ensures forall i :: 0 <= i < n ==> LutAlpha(lut, i) == 255
    decreases n
  {
    if n == 0 then []
    else
      var prefix := TablePrefix(colors, n - 1);
      var lut := prefix + Entry(colors(n - 1));
      assert forall i :: 0 <= i < n - 1 ==> LutAlpha(lut, i) == LutAlpha(prefix, i);
      assert LutAlpha(lut, n - 1) == 255;
      lut
  }

  /** The loop over the 256 levels, on normalised stops. */
  function BuildTable(s: seq<NStop>, rule: FractionRule): (lut: seq<Byte>)
    requires |s| >= 1
    ensures |lut| == TableSize
    ensures forall i :: 0 <= i < Levels ==> LutRgb(lut, i) == LevelColor(s, i, rule)
    ensures forall i :: 0 <= i < Levels ==> LutAlpha(lut, i) == 255
  {
    var colors := (i: nat) => LevelColor(s, i, rule);
    var lut := TablePrefix(colors, Levels);
    assert forall i :: 0 <= i < Levels ==> LutRgb(lut, i) == colors(i);
    lut
  }

  /** `_buildGradientLUT(stops)`: `None` when it throws, that is when a
      colour string throws or when there is no stop (`s[0]` is undefined). */
  function BuildGradientLut(stops: seq<Stop>, rule: FractionRule): (r: Option<seq<Byte>>)
    ensures r.Some? <==> |stops| >= 1 && forall x :: x in stops ==> Parses(x)
    ensures r.Some? ==> |r.value| == TableSize
    ensures r.Some? ==> forall i :: 0 <= i < Levels ==> LutAlpha(r.value, i) == 255
  {
    match Normalize(stops)
    case None => None
    case Some(s) => if |s| == 0 then None else Some(BuildTable(s, rule))
  }

  /** The corrected table: the builder with the intended fraction. */
  function GradientLut(stops: seq<Stop>): (r: Option<seq<Byte>>)
    ensures r.Some? <==> BuildGradientLut(stops, AsWritten).Some?
    ensures r.Some? ==> |r.value| == TableSize
  {
    BuildGradientLut(stops, Intended)
  }

  /** Entry `i` of the built table is the colour of level `i` of the
      normalised stops. */
  lemma TableColor(stops: seq<Stop>, rule: FractionRule, i: nat)
    requires Normalize(stops).Some? && |Normalize(stops).value| >= 1 && i < Levels
    ensures BuildGradientLut(stops, rule).Some?
    ensures LutRgb(BuildGradientLut(stops, rule).value, i) == LevelColor(Normalize(stops).value, i, rule)
  {
  }

  // ---------------------------------------------------------------------
  // Properties of the scan and of the interpolation

  /** Once `t` is at or past the first stop, the scan's segment brackets it. */
  lemma SegmentBrackets(s: seq<NStop>, t: real)
    requires |s| >= 1 && NSorted(s) && s[0].pos <= t
    ensures s[Segment(s, t)].pos <= t
    ensures Segment(s, t) < |s| - 1 ==> t <= s[Segment(s, t) + 1].pos
  {
  }

  /** A `t` inside a segment gives a fraction in [0,1]. */
  lemma FractionInUnit(rule: FractionRule, t: real, p1: real, p2: real)
    requires p1 <= t <= p2
    ensures 0.0 <= Fraction(rule, t, p1, p2) <= 1.0
  {
    if rule == Intended && p2 - p1 > MinWidth {
      DivInUnit(t - p1, p2 - p1);
    }
  }

  lemma DivInUnit(x: real, d: real)
    requires d > 0.0 && 0.0 <= x <= d
    ensures 0.0 <= x / d <= 1.0
  {
    var q := x / d;
    assert q * d == x;
    assert q < 0.0 ==> q * d < 0.0;
    assert q > 1.0 ==> q * d > d;
  }

  lemma DivSelf(d: real)
    requires d > 0.0
    ensures d / d == 1.0
  {
    var q := d / d;
    assert q * d == d;
  }

  lemma ProductBetween(d: real, f: real)
    requires 0.0 <= f <= 1.0
    ensures d >= 0.0 ==> 0.0 <= d * f <= d
    ensures d < 0.0 ==> d <= d * f <= 0.0
  {
  }

  /** Truncating a value between two integers stays between them. */
  lemma TruncBetween(x: real, lo: int, hi: int)
    requires lo as real <= x <= hi as real
    ensures lo <= Trunc(x) <= hi
  {
  }

  /** Interpolating with a fraction in [0,1] lands between the two ends. */
  lemma LerpBetween(a: int, b: int, f: real)
    requires InInt32(a) && InInt32(b)
    requires 0.0 <= f <= 1.0
    ensures Min(a, b) <= Lerp(Int(a), Int(b), f) <= Max(a, b)
  {
    BlendBetween(a, b, f);
    TruncBetween(Blend(a, b, f), Min(a, b), Max(a, b));
    var n := Trunc(Blend(a, b, f));
    assert InInt32(n);
  }

  lemma BlendBetween(a: int, b: int, f: real)
    requires 0.0 <= f <= 1.0
    ensures Min(a, b) as real <= Blend(a, b, f) <= Max(a, b) as real
  {
    var d := (b - a) as real;
    ProductBetween(d, f);
    assert Blend(a, b, f) == a as real + d * f;
    if a <= b {
      assert 0.0 <= d * f <= d;
      assert a as real <= Blend(a, b, f) <= b as real;
    } else {
      assert d <= d * f <= 0.0;
      assert b as real <= Blend(a, b, f) <= a as real;
    }
  }

  /** The endpoints of the interpolation, with fraction 0 and 1. */
  lemma LerpEnds(a: int, b: int)
    requires InInt32(a) && InInt32(b)
    ensures Lerp(Int(a), Int(b), 0.0) == a
    ensures Lerp(Int(a), Int(b), 1.0) == b
  {
  }

  /** A stored channel lies between the two stops' stored channels, or is 0
      when either stop's channel is NaN. */
  predicate ChannelBetween(x: Byte, a: Num, b: Num) {
    if a.NaN? || b.NaN? then x == 0
    else Min(ClampByte(a.v), ClampByte(b.v)) <= x <= Max(ClampByte(a.v), ClampByte(b.v))
  }

  lemma ChannelIsBetween(a: Num, b: Num, f: real)
    requires NumInInt32(a) && NumInInt32(b)
    requires 0.0 <= f <= 1.0
    ensures ChannelBetween(Channel(a, b, f), a, b)
  {
    if a.Int? && b.Int? {
      LerpBetween(a.v, b.v, f);
      var l := Lerp(a, b, f);
      ClampByteMonotone(Min(a.v, b.v), l);
      ClampByteMonotone(l, Max(a.v, b.v));
    }
  }

  /** Every level at or past the first stop is a blend of the two stops of
      its segment: each channel lies between theirs. */
  lemma LevelBetweenStops(s: seq<NStop>, i: nat, rule: FractionRule)
    requires |s| >= 1 && Normalized(s)
    requires s[0].pos <= Level(i)
    ensures var j := Segment(s, Level(i));
            var lo := s[j].color;
            var hi := s[Right(s, j)].color;
            var c := LevelColor(s, i, rule);
            ChannelBetween(c.r, lo.r, hi.r) && ChannelBetween(c.g, lo.g, hi.g) && ChannelBetween(c.b, lo.b, hi.b)
  {
    var t := Level(i);
    var j := Segment(s, t);
    var h := Right(s, j);
    SegmentBrackets(s, t);
    if j < |s| - 1 {
      FractionInUnit(rule, t, s[j].pos, s[h].pos);
    }
    var f := Fraction(rule, t, s[j].pos, s[h].pos);
    assert ColorInInt32(s[j].color) && ColorInInt32(s[h].color);
    ChannelIsBetween(s[j].color.r, s[h].color.r, f);
    ChannelIsBetween(s[j].color.g, s[h].color.g, f);
    ChannelIsBetween(s[j].color.b, s[h].color.b, f);
  }

  lemma ChannelAtZero(a: Num, b: Num)
    requires NumInInt32(a) && b.Int?
    ensures Channel(a, b, 0.0) == ClampNum(a)
  {
  }

  lemma ChannelAtOne(a: Num, b: Num)
    requires a.Int? && NumInInt32(b)
    ensures Channel(a, b, 1.0) == ClampNum(b)
  {
  }

  /** A segment no wider than 1e-6 gives fraction 0 and so the colour of
      its left stop (provided the right stop has no NaN channel, which would
      turn `(b - a) * 0` into NaN). */
  lemma NarrowSegmentTakesLeft(s: seq<NStop>, i: nat, rule: FractionRule)
    requires |s| >= 1 && Normalized(s)
    requires var j := Segment(s, Level(i));
             s[Right(s, j)].pos - s[j].pos <= MinWidth && WellFormed(s[Right(s, j)].color)
    ensures LevelColor(s, i, rule) == ClampColor(s[Segment(s, Level(i))].color)
  {
    var j := Segment(s, Level(i));
    var lo, hi := s[j].color, s[Right(s, j)].color;
    assert ColorInInt32(lo);
    ChannelAtZero(lo.r, hi.r);
    ChannelAtZero(lo.g, hi.g);
    ChannelAtZero(lo.b, hi.b);
  }

  /** A position past the last stop scans to the last stop. */
  lemma PastLastSegment(s: seq<NStop>, t: real)
    requires |s| >= 1 && NSorted(s)
    requires |s| == 1 || t > s[|s| - 1].pos
    ensures Segment(s, t) == |s| - 1
  {
  }

  /** Past the last stop (or with a single stop) the scan runs to the end,
      both ends of the segment are the last stop, and its colour is used. */
  lemma PastLastStop(s: seq<NStop>, i: nat, rule: FractionRule)
    requires |s| >= 1 && Normalized(s)
    requires |s| == 1 || Level(i) > s[|s| - 1].pos
    ensures Segment(s, Level(i)) == |s| - 1
    ensures LevelColor(s, i, rule) == ClampColor(s[|s| - 1].color)
  {
    var n := |s|;
    PastLastSegment(s, Level(i));
    assert Right(s, n - 1) == n - 1;
    var lo := s[n - 1].color;
    assert ColorInInt32(lo);
  }

  /** With the first stop at 0, level 0 is the first stop's colour. */
  lemma FirstLevelIsFirstStop(s: seq<NStop>, rule: FractionRule)
    requires |s| >= 1 && Normalized(s)
    requires s[0].pos == 0.0
    requires WellFormed(s[Right(s, 0)].color)
    ensures LevelColor(s, 0, rule) == ClampColor(s[0].color)
  {
    assert Level(0) == 0.0;
    assert Segment(s, 0.0) == 0 by {
      if |s| > 1 {
        assert 0.0 <= s[1].pos;
      }
    }
    var lo, hi := s[0].color, s[Right(s, 0)].color;
    assert Fraction(rule, 0.0, 0.0, s[Right(s, 0)].pos) == 0.0;
    assert ColorInInt32(lo);
    ChannelAtZero(lo.r, hi.r);
    ChannelAtZero(lo.g, hi.g);
    ChannelAtZero(lo.b, hi.b);
  }

  /** With the last stop at 1 and the one before it more than 1e-6 to its
      left, level 255 is the last stop's colour under the intended fraction. */
  lemma LastLevelIsLastStop(s: seq<NStop>)
    requires |s| >= 2 && Normalized(s)
    requires s[|s| - 1].pos == 1.0 && s[|s| - 2].pos < 1.0 - MinWidth
    requires WellFormed(s[|s| - 2].color)
    ensures LevelColor(s, 255, Intended) == ClampColor(s[|s| - 1].color)
  {
    var n := |s|;
    assert Level(255) == 1.0;
    var j := Segment(s, 1.0);
    assert j == n - 2;
    var p := s[n - 2].pos;
    assert Fraction(Intended, 1.0, p, 1.0) == 1.0 by {
      assert 1.0 - p > MinWidth;
      DivSelf(1.0 - p);
    }
    var lo, hi := s[n - 2].color, s[n - 1].color;
    assert ColorInInt32(hi);
    ChannelAtOne(lo.r, hi.r);
    ChannelAtOne(lo.g, hi.g);
    ChannelAtOne(lo.b, hi.b);
  }

  /** As written, the fraction is always 0, so every level is the colour of
      the left stop of its segment: nothing is ever interpolated. */
  lemma AsWrittenNeverInterpolates(s: seq<NStop>, i: nat)
    requires |s| >= 1 && Normalized(s)
    requires WellFormed(s[Right(s, Segment(s, Level(i)))].color)
    ensures LevelColor(s, i, AsWritten) == ClampColor(s[Segment(s, Level(i))].color)
  {
    var j := Segment(s, Level(i));
    var lo, hi := s[j].color, s[Right(s, j)].color;
    assert ColorInInt32(lo);
    ChannelAtZero(lo.r, hi.r);
    ChannelAtZero(lo.g, hi.g);
    ChannelAtZero(lo.b, hi.b);
  }

  /** With the last stop at 1, no level scans to the last stop, so as
      written the last colour is never the left end of a segment. */
  lemma LastStopNeverLeft(s: seq<NStop>, i: nat)
    requires |s| >= 2 && Normalized(s)
    requires s[|s| - 1].pos == 1.0 && i < Levels
    ensures Segment(s, Level(i)) < |s| - 1
  {
    assert Level(i) <= 1.0;
  }

  /** As written, with the last stop at 1, every level takes the colour of
      some stop other than the last, so the last colour is lost. */
  lemma AsWrittenOmitsLastStop(s: seq<NStop>, i: nat)
    requires |s| >= 2 && Normalized(s)
    requires s[|s| - 1].pos == 1.0 && i < Levels
    requires WellFormed(s[Right(s, Segment(s, Level(i)))].color)
    ensures exists j :: 0 <= j < |s| - 1 && LevelColor(s, i, AsWritten) == ClampColor(s[j].color)
  {
    LastStopNeverLeft(s, i);
    AsWrittenNeverInterpolates(s, i);
  }

  // ---------------------------------------------------------------------
  // Whole tables

  /** Sorting stops that are already in order changes nothing; in
      particular the sort is idempotent. */
  lemma {:induction false} SortSortedIsIdentity(s: seq<Stop>)
    requires SortedByPos(s)
    ensures SortByPos(s) == s
  {
    if |s| > 0 {
      SortSortedIsIdentity(s[1..]);
      assert s == [s[0]] + s[1..];
    }
  }

  lemma ClampFromRgb(c: Rgb)
    ensures ClampColor(FromRgb(c)) == c
  {
  }

  /** The normalised form of a sorted list of `#rrggbb` stops in [0,1]. */
  lemma NormalizeHexStops(stops: seq<Stop>, colors: seq<Rgb>)
    requires |stops| == |colors| && SortedByPos(stops)
    requires forall k :: 0 <= k < |stops| ==> 0.0 <= stops[k].pos <= 1.0 && stops[k].color == FormatHex(colors[k])
    ensures Normalize(stops).Some?
    ensures |Normalize(stops).value| == |stops| && Normalized(Normalize(stops).value)
    ensures forall k :: 0 <= k < |stops| ==>
      Normalize(stops).value[k].pos == stops[k].pos && Normalize(stops).value[k].color == FromRgb(colors[k])
  {
    SortSortedIsIdentity(stops);
    NormalizeContents(stops);
    forall x | x in stops
      ensures Parses(x)
    {
      var k :| 0 <= k < |stops| && stops[k] == x;
      HexRoundTrip(colors[k]);
    }
    forall k | 0 <= k < |stops|
      ensures Normalize(stops).value[k].pos == stops[k].pos
      ensures Normalize(stops).value[k].color == FromRgb(colors[k])
    {
      HexRoundTrip(colors[k]);
    }
  }

  /** A ramp of `#rrggbb` stops in order, the first at 0, the last at 1,
      and the one before the last more than 1e-6 short of 1. */
  predicate HexRamp(stops: seq<Stop>, colors: seq<Rgb>) {
    && |stops| == |colors| >= 2
    && SortedByPos(stops)
    && (forall k :: 0 <= k < |stops| ==> 0.0 <= stops[k].pos <= 1.0 && stops[k].color == FormatHex(colors[k]))
    && stops[0].pos == 0.0 && stops[|stops| - 1].pos == 1.0
    && stops[|stops| - 2].pos < 1.0 - MinWidth
  }

  /** The level colours at both ends of a normalised ramp. */
  lemma LevelRampEnds(s: seq<NStop>, colors: seq<Rgb>)
    requires |s| == |colors| >= 2 && Normalized(s)
    requires forall k :: 0 <= k < |s| ==> s[k].color == FromRgb(colors[k])
    requires s[0].pos == 0.0 && s[|s| - 1].pos == 1.0 && s[|s| - 2].pos < 1.0 - MinWidth
    ensures LevelColor(s, 0, Intended) == colors[0] && LevelColor(s, 255, Intended) == colors[|s| - 1]
    ensures LevelColor(s, 0, AsWritten) == colors[0] && LevelColor(s, 255, AsWritten) == colors[|s| - 2]
  {
    var n := |s|;
    ClampFromRgb(colors[0]);
    ClampFromRgb(colors[n - 2]);
    ClampFromRgb(colors[n - 1]);
    assert WellFormed(s[1].color) && WellFormed(s[n - 2].color) && WellFormed(s[n - 1].color);
    FirstLevelIsFirstStop(s, Intended);
    FirstLevelIsFirstStop(s, AsWritten);
    LastLevelIsLastStop(s);
    assert Segment(s, Level(255)) == n - 2 by {
      assert Level(255) == 1.0;
      LastStopNeverLeft(s, 255);
    }
    AsWrittenNeverInterpolates(s, 255);
  }

  /** The normalised ramp has the level colours of `LevelRampEnds`. */
  lemma RampLevels(stops: seq<Stop>, colors: seq<Rgb>)
    requires HexRamp(stops, colors)
    ensures Normalize(stops).Some? && |Normalize(stops).value| == |colors|
    ensures LevelColor(Normalize(stops).value, 0, Intended) == colors[0]
    ensures LevelColor(Normalize(stops).value, 255, Intended) == colors[|colors| - 1]
    ensures LevelColor(Normalize(stops).value, 0, AsWritten) == colors[0]
    ensures LevelColor(Normalize(stops).value, 255, AsWritten) == colors[|colors| - 2]
  {
    RampNormalized(stops, colors);
    LevelRampEnds(Normalize(stops).value, colors);
  }

  /** A ramp normalises to its own positions and parsed colours. */
  lemma RampNormalized(stops: seq<Stop>, colors: seq<Rgb>)
    requires HexRamp(stops, colors)
    ensures Normalize(stops).Some?
    ensures |Normalize(stops).value| == |colors| >= 2 && Normalized(Normalize(stops).value)
    ensures forall k :: 0 <= k < |colors| ==> Normalize(stops).value[k].color == FromRgb(colors[k])
    ensures Normalize(stops).value[0].pos == 0.0
    ensures Normalize(stops).value[|colors| - 1].pos == 1.0
    ensures Normalize(stops).value[|colors| - 2].pos < 1.0 - MinWidth
  {
    NormalizeHexStops(stops, colors);
    var n := |colors|;
    assert Normalize(stops).value[n - 2].pos == stops[n - 2].pos;
    assert Normalize(stops).value[n - 1].pos == stops[n - 1].pos;
  }

  /** On a ramp, both tables start at the first colour; the intended one
      ends at the last colour, the one as written at the colour before it. */
  lemma RampEnds(stops: seq<Stop>, colors: seq<Rgb>)
    requires HexRamp(stops, colors)
    ensures GradientLut(stops).Some? && BuildGradientLut(stops, AsWritten).Some?
    ensures LutRgb(GradientLut(stops).value, 0) == colors[0]
    ensures LutRgb(GradientLut(stops).value, 255) == colors[|colors| - 1]
    ensures LutRgb(BuildGradientLut(stops, AsWritten).value, 0) == colors[0]
    ensures LutRgb(BuildGradientLut(stops, AsWritten).value, 255) == colors[|colors| - 2]
  {
    RampLevels(stops, colors);
    TableColor(stops, Intended, 0);
    TableColor(stops, Intended, 255);
    TableColor(stops, AsWritten, 0);
    TableColor(stops, AsWritten, 255);
  }

  /** With stops `a` at 0 and `b` at 1, the intended table starts at `a`
      and ends at `b`; as written it ends at `a`, so `b` never appears. */
  lemma TwoStopEnds(a: Rgb, b: Rgb)
    ensures GradientLut(TwoStops(a, b)).Some? && BuildGradientLut(TwoStops(a, b), AsWritten).Some?
    ensures LutRgb(GradientLut(TwoStops(a, b)).value, 0) == a
    ensures LutRgb(GradientLut(TwoStops(a, b)).value, 255) == b
    ensures LutRgb(BuildGradientLut(TwoStops(a, b), AsWritten).value, 0) == a
    ensures LutRgb(BuildGradientLut(TwoStops(a, b), AsWritten).value, 255) == a
  {
    RampEnds(TwoStops(a, b), [a, b]);
  }

  /** Stops `a` at 0 and `b` at 1, written `#rrggbb`. */
  function TwoStops(a: Rgb, b: Rgb): seq<Stop> {
    [Stop(0.0, FormatHex(a)), Stop(1.0, FormatHex(b))]
  }

  /** The discrepancy on black to white: entry 255 is black as written and
      white as intended. */
  lemma BlackToWhite()
    ensures BuildGradientLut(BlackWhite, AsWritten).Some?
    ensures LutRgb(BuildGradientLut(BlackWhite, AsWritten).value, 255) == Rgb(0, 0, 0)
    ensures GradientLut(BlackWhite).Some?
    ensures LutRgb(GradientLut(BlackWhite).value, 255) == Rgb(255, 255, 255)
  {
    var black, white := Rgb(0, 0, 0), Rgb(255, 255, 255);
    assert BlackWhite == TwoStops(black, white) by {
      assert FormatHex(black) == "#000000";
      assert FormatHex(white) == "#ffffff";
    }
    TwoStopEnds(black, white);
  }

  /** Black at 0, white at 1. */
  const BlackWhite: seq<Stop> := [Stop(0.0, "#000000"), Stop(1.0, "#ffffff")]

  /** The default ramp: blue, cyan, green, yellow, red at 0, ¼, ½, ¾, 1. */
  const DefaultGradient: seq<Stop> := [
    Stop(0.00, "#0000ff"),
    Stop(0.25, "#00ffff"),
    Stop(0.50, "#00ff00"),
    Stop(0.75, "#ffff00"),
    Stop(1.00, "#ff0000")
  ]

  const DefaultColors: seq<Rgb> :=
    [Rgb(0, 0, 255), Rgb(0, 255, 255), Rgb(0, 255, 0), Rgb(255, 255, 0), Rgb(255, 0, 0)]

  /** The default stops are `#rrggbb` strings of the default colours. */
  lemma DefaultHex()
    ensures forall k :: 0 <= k < 5 ==> DefaultGradient[k].color == FormatHex(DefaultColors[k])
  {
    assert FormatHex(DefaultColors[0]) == "#0000ff";
    assert FormatHex(DefaultColors[1]) == "#00ffff";
    assert FormatHex(DefaultColors[2]) == "#00ff00";
    assert FormatHex(DefaultColors[3]) == "#ffff00";
    assert FormatHex(DefaultColors[4]) == "#ff0000";
  }

  lemma DefaultIsRamp()
    ensures HexRamp(DefaultGradient, DefaultColors)
  {
    var g := DefaultGradient;
    assert SortedByPos(g) by {
      assert g[0].pos <= g[1].pos <= g[2].pos <= g[3].pos <= g[4].pos;
    }
    assert forall k :: 0 <= k < |g| ==> 0.0 <= g[k].pos <= 1.0;
    DefaultHex();
  }

  /** The default ramp runs from blue to red as intended; as written it
      runs from blue to yellow. */
  lemma DefaultGradientEnds()
    ensures GradientLut(DefaultGradient).Some? && BuildGradientLut(DefaultGradient, AsWritten).Some?
    ensures LutRgb(GradientLut(DefaultGradient).value, 0) == Rgb(0, 0, 255)
    ensures LutRgb(GradientLut(DefaultGradient).value, 255) == Rgb(255, 0, 0)
    ensures LutRgb(BuildGradientLut(DefaultGradient, AsWritten).value, 0) == Rgb(0, 0, 255)
    ensures LutRgb(BuildGradientLut(DefaultGradient, AsWritten).value, 255) == Rgb(255, 255, 0)
  {
    DefaultIsRamp();
    RampEnds(DefaultGradient, DefaultColors);
  }
}

/**
 The colour-string decoder of the gradient builder (`_parseColor`): a
 `#rgb` or `#rrggbb` hexadecimal form read with `parseInt(…, 16)`, a
 functional `rgb(…)` form read with the global match `/(\d+\.?\d*)/g`,
 and black for anything else. Channels are JavaScript numbers, so a hex
 pair without digits yields NaN; an `rgb` string without any digit makes
 the match return null and the decoder throw, modelled as `None`.
 */
module ColorParse {
  import opened Js

  /** A decoded colour: three JavaScript numbers, each NaN or an integer. */
  datatype Color = Color(r: Num, g: Num, b: Num)

  /** A colour whose channels are bytes, as stored in the lookup table. */
  datatype Rgb = Rgb(r: Byte, g: Byte, b: Byte)

  const Black: Color := Color(Int(0), Int(0), Int(0))

  function FromRgb(c: Rgb): Color {
    Color(Int(c.r), Int(c.g), Int(c.b))
  }

  predicate NumInInt32(n: Num) {
    n.NaN? || InInt32(n.v)
  }

  /** No channel is NaN. */
  predicate WellFormed(c: Color) {
    c.r.Int? && c.g.Int? && c.b.Int?
  }

  // ---------------------------------------------------------------------
  // Characters

  predicate IsDigit(c: char) {
    '0' <= c <= '9'
  }

  predicate IsHexDigit(c: char) {
    IsDigit(c) || 'a' <= c <= 'f' || 'A' <= c <= 'F'
  }

  function HexDigitValue(c: char): (d: nat)
    requires IsHexDigit(c)
    ensures d < 16
  {
    if IsDigit(c) then c as int - '0' as int
    else if 'a' <= c <= 'f' then c as int - 'a' as int + 10
    else c as int - 'A' as int + 10
  }

  /** The white space and line terminators `parseInt` skips before the number. */
  predicate IsJsSpace(c: char) {
    var n := c as int;
    (0x09 <= n <= 0x0D) || n == 0x20 || n == 0xA0 || n == 0x1680
    || (0x2000 <= n <= 0x200A) || n == 0x2028 || n == 0x2029 || n == 0x202F
    || n == 0x205F || n == 0x3000 || n == 0xFEFF
  }

  function TrimStart(s: string): (r: string)
    ensures |r| <= |s|
    ensures r == s[|s| - |r|..]
    ensures |r| > 0 ==> !IsJsSpace(r[0])
  {
    if |s| > 0 && IsJsSpace(s[0]) then TrimStart(s[1..]) else s
  }

  // ---------------------------------------------------------------------
  // parseInt(s, 16)

  predicate AllHex(s: string) {
    forall k :: 0 <= k < |s| ==> IsHexDigit(s[k])
  }

  function Pow16(n: nat): (p: nat)
    ensures p >= 1
  {
    if n == 0 then 1 else 16 * Pow16(n - 1)
  }

  /** Length of the longest prefix of hexadecimal digits. */
  function HexRun(s: string): (n: nat)
    ensures n <= |s|
    ensures AllHex(s[..n])
    ensures n < |s| ==> !IsHexDigit(s[n])
  {
    if |s| > 0 && IsHexDigit(s[0]) then
      var n := 1 + HexRun(s[1..]);
      assert s[..n] == [s[0]] + s[1..][..n - 1];
      n
    else 0
  }

  function HexValue(w: string): (v: nat)
    requires AllHex(w)
    ensures v < Pow16(|w|)
  {
    if |w| == 0 then 0
    else 16 * HexValue(w[..|w| - 1]) + HexDigitValue(w[|w| - 1])
  }

  /** What `parseInt` reads after the leading white space: whether a minus
      sign was present, and the text after the sign and any `0x` prefix. */
  function SignAndBody(s: string): (r: (bool, string))
    ensures |r.1| <= |s|
  {
    var t := TrimStart(s);
    var negative := |t| > 0 && t[0] == '-';
    var u := if |t| > 0 && (t[0] == '-' || t[0] == '+') then t[1..] else t;
    var w := if |u| >= 2 && u[0] == '0' && (u[1] == 'x' || u[1] == 'X') then u[2..] else u;
    (negative, w)
  }

  /** `parseInt(s, 16)`: skip white space, take an optional sign and an
      optional `0x`/`0X` prefix, then read the longest run of hex digits;
      NaN when that run is empty. */
  function ParseIntHex(s: string): (r: Num)
    ensures r.Int? ==> -(Pow16(|s|) as int) < r.v < Pow16(|s|)
    ensures |s| == 0 ==> r == NaN
  {
    var (negative, w) := SignAndBody(s);
    var d := HexRun(w);
    if d == 0 then NaN
    else
      var v: int := HexValue(w[..d]);
      PrefixShorter(w, d);
      Pow16Monotone(d, |s|);
      Int(if negative then -v else v)
  }

  /** A string of hex digits alone is read as the number it spells. */
  lemma ParseIntHexDigits(s: string)
    requires |s| > 0 && AllHex(s)
    ensures ParseIntHex(s) == Int(HexValue(s))
  {
    assert IsHexDigit(s[0]);
    assert !IsJsSpace(s[0]);
    assert TrimStart(s) == s;
    assert s[0] != '-' && s[0] != '+';
    assert |s| >= 2 ==> IsHexDigit(s[1]) && s[1] != 'x' && s[1] != 'X';
    assert SignAndBody(s) == (false, s);
    HexRunAll(s);
    assert s[..|s|] == s;
  }

  lemma PrefixShorter(w: string, d: nat)
    requires d <= |w|
    ensures |w[..d]| == d
  {
  }

  lemma Pow16Monotone(a: nat, b: nat)
    requires a <= b
    ensures Pow16(a) <= Pow16(b)
  {
    if a < b {
      Pow16Monotone(a, b - 1);
    }
  }

  lemma HexRunAll(s: string)
    requires AllHex(s)
    ensures HexRun(s) == |s|
  {
    if |s| > 0 {
      HexRunAll(s[1..]);
    }
  }

  // ---------------------------------------------------------------------
  // The global match of decimal numbers in an `rgb` string, keeping the
  // integer part of each match

  predicate AllDigits(s: string) {
    forall k :: 0 <= k < |s| ==> IsDigit(s[k])
  }

  predicate HasDigit(s: string) {
    exists k :: 0 <= k < |s| && IsDigit(s[k])
  }

  function DigitRun(s: string): (n: nat)
    ensures n <= |s|
    ensures AllDigits(s[..n])
    ensures n < |s| ==> !IsDigit(s[n])
  {
    if |s| > 0 && IsDigit(s[0]) then
      var n := 1 + DigitRun(s[1..]);
      assert s[..n] == [s[0]] + s[1..][..n - 1];
      n
    else 0
  }

  function DecValue(w: string): nat
    requires AllDigits(w)
  {
    if |w| == 0 then 0
    else 10 * DecValue(w[..|w| - 1]) + (w[|w| - 1] as int - '0' as int)
  }

  /** The integer parts of the successive matches of `\d+\.?\d*`, left to
      right. The caller wraps them to 32 bits. They stand in for
      `Number(m) | 0`, which can differ: the double `Number(m)` rounds a
      long fractional part such as `254.99999999999999` up to the next
      integer, and rounds integer parts beyond 2^53. */
  function Matches(s: string): (m: seq<nat>)
    ensures |m| == 0 <==> !HasDigit(s)
    decreases |s|
  {
    if |s| == 0 then []
    else if !IsDigit(s[0]) then
      var m := Matches(s[1..]);
      assert HasDigit(s) ==> HasDigit(s[1..]) by {
        if HasDigit(s) {
          var k :| 0 <= k < |s| && IsDigit(s[k]);
          assert s[1..][k - 1] == s[k];
        }
      }
      assert HasDigit(s[1..]) ==> HasDigit(s) by {
        if HasDigit(s[1..]) {
          var k :| 0 <= k < |s[1..]| && IsDigit(s[1..][k]);
          assert s[k + 1] == s[1..][k];
        }
      }
      m
    else
      var d := DigitRun(s);
      var rest := s[d..];
      var next := if |rest| > 0 && rest[0] == '.' then rest[1..][DigitRun(rest[1..])..] else rest;
      assert IsDigit(s[0]);
      [DecValue(s[..d])] + Matches(next)
  }

  /** `m[k] | 0`, where a missing component is `undefined | 0 == 0`. */
  function Component(m: seq<nat>, k: nat): (c: int)
    ensures InInt32(c)
    ensures k < |m| && m[k] < TwoTo31 ==> c == m[k]
    ensures k >= |m| ==> c == 0
  {
    if k < |m| then ToInt32(m[k]) else 0
  }

  // ---------------------------------------------------------------------
  // _parseColor

  predicate StartsWithHash(col: string) {
    |col| >= 1 && col[0] == '#'
  }

  predicate StartsWithRgb(col: string) {
    |col| >= 3 && col[..3] == "rgb"
  }

  /** The hex digits after `#`: the three digits doubled for a 4-character
      string, everything after the `#` otherwise. */
  function HexBody(col: string): (n: string)
    requires StartsWithHash(col)
  {
    if |col| == 4 then [col[1], col[1], col[2], col[2], col[3], col[3]]
    else col[1..]
  }

  /** `_parseColor(col)`: `None` stands for the TypeError thrown when an
      `rgb…` string holds no digit at all. */
  function ParseColor(col: string): (r: Option<Color>)
    ensures r.None? <==> StartsWithRgb(col) && !HasDigit(col)
    ensures r.Some? ==> NumInInt32(r.value.r) && NumInInt32(r.value.g) && NumInInt32(r.value.b)
    ensures !StartsWithHash(col) && !StartsWithRgb(col) ==> r == Some(Black)
    ensures StartsWithRgb(col) && r.Some? ==> WellFormed(r.value)
  {
    if StartsWithHash(col) then
      var n := HexBody(col);
      var c := Color(ParseIntHex(Slice(n, 0, 2)), ParseIntHex(Slice(n, 2, 4)), ParseIntHex(Slice(n, 4, 6)));
      HexPairInInt32(Slice(n, 0, 2));
      HexPairInInt32(Slice(n, 2, 4));
      HexPairInInt32(Slice(n, 4, 6));
      Some(c)
    else if StartsWithRgb(col) then
      var m := Matches(col);
      if |m| == 0 then None
      else Some(Color(Int(Component(m, 0)), Int(Component(m, 1)), Int(Component(m, 2))))
    else Some(Black)
  }

  lemma HexPairInInt32(s: string)
    requires |s| <= 2
    ensures NumInInt32(ParseIntHex(s))
  {
    Pow16Monotone(|s|, 2);
  }

  // ---------------------------------------------------------------------
  // Encoders and the properties of the decoder

  function HexChar(d: nat): (c: char)
    requires d < 16
    ensures IsHexDigit(c) && HexDigitValue(c) == d
  {
    if d < 10 then ('0' as int + d) as char else ('a' as int + d - 10) as char
  }

  function HexByte(b: Byte): (s: string)
    ensures |s| == 2 && AllHex(s)
  {
    [HexChar(b / 16), HexChar(b % 16)]
  }

  /** `#rrggbb` with lower-case digits. */
  function FormatHex(c: Rgb): string {
    "#" + HexByte(c.r) + HexByte(c.g) + HexByte(c.b)
  }

  lemma HexByteValue(b: Byte)
    ensures HexValue(HexByte(b)) == b
  {
    var s := HexByte(b);
    assert s[..1] == [s[0]];
    assert HexValue(s[..1]) == HexDigitValue(s[0]);
  }

  /** A `#rrggbb` string decodes to the three byte values it spells. */
  lemma HexRoundTrip(c: Rgb)
    ensures ParseColor(FormatHex(c)) == Some(FromRgb(c))
  {
    var col := FormatHex(c);
    assert |col| == 7 && StartsWithHash(col);
    var n := HexBody(col);
    assert n == HexByte(c.r) + HexByte(c.g) + HexByte(c.b);
    assert Slice(n, 0, 2) == HexByte(c.r);
    assert Slice(n, 2, 4) == HexByte(c.g);
    assert Slice(n, 4, 6) == HexByte(c.b);
    HexByteValue(c.r);
    HexByteValue(c.g);
    HexByteValue(c.b);
    ParseIntHexDigits(HexByte(c.r));
    ParseIntHexDigits(HexByte(c.g));
    ParseIntHexDigits(HexByte(c.b));
  }

  /** Any `#` followed by three pairs of hex digits, in either case,
      decodes to the values of the three pairs. */
  lemma HexLongForm(x: string, y: string, z: string)
    requires |x| == 2 && |y| == 2 && |z| == 2
    requires AllHex(x) && AllHex(y) && AllHex(z)
    ensures ParseColor("#" + x + y + z) == Some(Color(Int(HexValue(x)), Int(HexValue(y)), Int(HexValue(z))))
  {
    var col := "#" + x + y + z;
    assert |col| == 7 && StartsWithHash(col);
    var n := HexBody(col);
    assert n == x + y + z;
    assert Slice(n, 0, 2) == x;
    assert Slice(n, 2, 4) == y;
    assert Slice(n, 4, 6) == z;
    HashForm(col);
    ParseIntHexDigits(x);
    ParseIntHexDigits(y);
    ParseIntHexDigits(z);
  }

  /** A `#…` string is read as three digit pairs of its hex body. */
  lemma HashForm(col: string)
    requires StartsWithHash(col)
    ensures var n := HexBody(col);
            ParseColor(col) == Some(Color(ParseIntHex(Slice(n, 0, 2)), ParseIntHex(Slice(n, 2, 4)), ParseIntHex(Slice(n, 4, 6))))
  {
  }

  /** The short form reads each digit twice: `#rgb` is `#rrggbb`. */
  lemma ShortHexDoubles(x: char, y: char, z: char)
    ensures ParseColor(['#', x, y, z]) == ParseColor(['#', x, x, y, y, z, z])
  {
    var short := ['#', x, y, z];
    var long := ['#', x, x, y, y, z, z];
    assert HexBody(short) == HexBody(long);
  }

  /** With hex digits, each short-form digit d gives the channel 17·d. */
  lemma ShortHexValues(x: char, y: char, z: char)
    requires IsHexDigit(x) && IsHexDigit(y) && IsHexDigit(z)
    ensures ParseColor(['#', x, y, z])
         == Some(Color(Int(17 * HexDigitValue(x)), Int(17 * HexDigitValue(y)), Int(17 * HexDigitValue(z))))
  {
    var n := HexBody(['#', x, y, z]);
    assert Slice(n, 0, 2) == [x, x];
    assert Slice(n, 2, 4) == [y, y];
    assert Slice(n, 4, 6) == [z, z];
    PairValue(x);
    PairValue(y);
    PairValue(z);
    ParseIntHexDigits([x, x]);
    ParseIntHexDigits([y, y]);
    ParseIntHexDigits([z, z]);
  }

  lemma PairValue(x: char)
    requires IsHexDigit(x)
    ensures HexValue([x, x]) == 17 * HexDigitValue(x)
  {
    assert [x, x][..1] == [x];
  }

  /** Text without digits contributes no match. */
  lemma {:induction false} NonDigitPrefix(p: string, s: string)
    requires forall k :: 0 <= k < |p| ==> !IsDigit(p[k])
    ensures Matches(p + s) == Matches(s)
  {
    if |p| > 0 {
      var ps := p + s;
      assert ps[0] == p[0];
      assert ps[1..] == p[1..] + s;
      MatchesSkip(ps);
      assert forall k :: 0 <= k < |p[1..]| ==> p[1..][k] == p[k + 1];
      NonDigitPrefix(p[1..], s);
    } else {
      assert p + s == s;
    }
  }

  lemma MatchesSkip(s: string)
    requires |s| > 0 && !IsDigit(s[0])
    ensures Matches(s) == Matches(s[1..])
  {
  }

  function DigitChar(d: nat): (c: char)
    requires d < 10
    ensures IsDigit(c)
  {
    ('0' as int + d) as char
  }

  /** The decimal numeral of a natural number, without leading zeros. */
  function Decimal(n: nat): (s: string)
    ensures |s| > 0 && AllDigits(s)
    ensures DecValue(s) == n
  {
    if n < 10 then
      [DigitChar(n)]
    else
      var s := Decimal(n / 10) + [DigitChar(n % 10)];
      assert s[..|s| - 1] == Decimal(n / 10);
      s
  }

  /** A run of digits followed by a character that is neither a digit nor
      `.` is one match, and matching resumes at that character. */
  lemma MatchesDigitRun(w: string, rest: string)
    requires |w| > 0 && AllDigits(w)
    requires |rest| > 0 && !IsDigit(rest[0]) && rest[0] != '.'
    ensures Matches(w + rest) == [DecValue(w)] + Matches(rest)
  {
    var s := w + rest;
    DigitRunOf(w, rest);
    assert s[..|w|] == w;
    assert s[|w|..] == rest;
  }

  lemma DigitRunOf(w: string, rest: string)
    requires AllDigits(w)
    requires |rest| > 0 && !IsDigit(rest[0])
    ensures DigitRun(w + rest) == |w|
  {
    if |w| > 0 {
      assert (w + rest)[1..] == w[1..] + rest;
      DigitRunOf(w[1..], rest);
    } else {
      assert w + rest == rest;
    }
  }

  /** `rgb(r,g,b)` with decimal components. */
  function FormatRgb(c: Rgb): string {
    "rgb(" + (Decimal(c.r) + ("," + (Decimal(c.g) + ("," + (Decimal(c.b) + ")")))))
  }

  /** An `rgb(r,g,b)` string decodes to the three byte values it spells. */
  lemma RgbRoundTrip(c: Rgb)
    ensures ParseColor(FormatRgb(c)) == Some(FromRgb(c))
  {
    var col := FormatRgb(c);
    MatchesOfRgbText(Decimal(c.r), Decimal(c.g), Decimal(c.b));
    assert col[0] == 'r' && col[..3] == "rgb";
    var m := Matches(col);
    assert m == [c.r as nat, c.g as nat, c.b as nat];
    assert Component(m, 0) == c.r;
    assert Component(m, 1) == c.g;
    assert Component(m, 2) == c.b;
  }

  lemma MatchesOfRgbText(a: string, b: string, c: string)
    requires |a| > 0 && AllDigits(a)
    requires |b| > 0 && AllDigits(b)
    requires |c| > 0 && AllDigits(c)
    ensures Matches("rgb(" + (a + ("," + (b + ("," + (c + ")")))))) == [DecValue(a), DecValue(b), DecValue(c)]
  {
    var r2 := "," + (b + ("," + (c + ")")));
    TwoComponents(b, c);
    OpenHasNoDigit();
    assert r2[0] == ',';
    SeparatorThenRun("rgb(", a, r2);
  }

  lemma TwoComponents(b: string, c: string)
    requires |b| > 0 && AllDigits(b)
    requires |c| > 0 && AllDigits(c)
    ensures Matches("," + (b + ("," + (c + ")")))) == [DecValue(b), DecValue(c)]
  {
    var r3 := "," + (c + ")");
    LastComponent(c);
    assert r3[0] == ',';
    SeparatorThenRun(",", b, r3);
  }

  lemma OpenHasNoDigit()
    ensures forall k :: 0 <= k < |"rgb("| ==> !IsDigit("rgb("[k])
  {
  }

  lemma LastComponent(c: string)
    requires |c| > 0 && AllDigits(c)
    ensures Matches("," + (c + ")")) == [DecValue(c)]
  {
    MatchesSkip(")");
    assert ")"[1..] == "";
    SeparatorThenRun(",", c, ")");
  }

  /** Text without digits, then a run of digits, then a separator. */
  lemma SeparatorThenRun(p: string, w: string, rest: string)
    requires forall k :: 0 <= k < |p| ==> !IsDigit(p[k])
    requires |w| > 0 && AllDigits(w)
    requires |rest| > 0 && !IsDigit(rest[0]) && rest[0] != '.'
    ensures Matches(p + (w + rest)) == [DecValue(w)] + Matches(rest)
  {
    NonDigitPrefix(p, w + rest);
    MatchesDigitRun(w, rest);
  }
}

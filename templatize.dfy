/**
  The colour templatizer for Waybar theme style sheets: a classifier that
  proposes a HyDE colour variable for a colour literal seen in a CSS context,
  and a two-pass substitution (`rgb(...)`/`rgba(...)` literals first, then
  `#hex` literals) that replaces every literal the classifier names and logs
  each replacement.

  Floating point is replaced by exact arithmetic: brightness is compared as
  the integer 299r + 587g + 114b against the scaled thresholds, and alpha
  values are decimal fractions compared exactly.
*/
module Templatize {
  import opened Wrappers
  import opened Text

  // ------------------------------------------------------ variable names

  const BarBg := "@bar-bg"
  const MainBg := "@main-bg"
  const MainFg := "@main-fg"
  const ActBg := "@wb-act-bg"
  const ActFg := "@wb-act-fg"
  const HvrBg := "@wb-hvr-bg"
  const HvrFg := "@wb-hvr-fg"
  const DarkAccent := "@wallbash_1xa3"
  const MidAccent := "@wallbash_1xa5"
  const LightAccent := "@wallbash_1xa7"

  /** Every name the classifier can propose. */
  const SuggestedNames: set<string> :=
    {BarBg, MainBg, MainFg, ActBg, ActFg, HvrBg, HvrFg, DarkAccent, MidAccent, LightAccent}

  /** Each proposed name is a CSS variable reference, starting with `@`. */
  lemma SuggestedNamesAreReferences()
    ensures forall v <- SuggestedNames :: |v| > 0 && v[0] == '@'
  {
  }

  // ------------------------------------------------------------ hex_to_rgb

  datatype Rgb = Rgb(r: int, g: int, b: int)

  predicate IsHexDigit(c: char) {
    ('0' <= c <= '9') || ('a' <= c <= 'f') || ('A' <= c <= 'F')
  }

  function HexDigitValue(c: char): (v: nat)
    requires IsHexDigit(c)
    ensures v < 16
  {
    if '0' <= c <= '9' then c as int - '0' as int
    else if 'a' <= c <= 'f' then c as int - 'a' as int + 10
    else c as int - 'A' as int + 10
  }

  predicate IsHexDigits(s: string) {
    |s| > 0 && forall i :: 0 <= i < |s| ==> IsHexDigit(s[i])
  }

  /** The value of a string of hexadecimal digits, most significant first. */
  function HexDigitsValue(s: string): nat
    requires forall i :: 0 <= i < |s| ==> IsHexDigit(s[i])
  {
    if s == [] then 0 else 16 * HexDigitsValue(s[..|s| - 1]) + HexDigitValue(s[|s| - 1])
  }

  /** Python's `int(s, 16)` on the two-character slices it is given here:
      surrounding whitespace, an optional sign and hexadecimal digits;
      anything else raises ValueError, here None. */
  function HexInt(s: string): Option<int> {
    var t := Strip(s);
    if |t| > 0 && (t[0] == '+' || t[0] == '-') then
      if IsHexDigits(t[1..]) then
        Some(if t[0] == '-' then -(HexDigitsValue(t[1..]) as int) else HexDigitsValue(t[1..]))
      else None
    else if IsHexDigits(t) then Some(HexDigitsValue(t))
    else None
  }

  /** `s.lstrip('#')`. */
  function DropHashes(s: string): (r: string)
    ensures r == [] || r[0] != '#'
  {
    if |s| > 0 && s[0] == '#' then DropHashes(s[1..]) else s
  }

  /** `lstrip('#')` removes a prefix of `#`s and keeps the rest as it is. */
  lemma {:induction false} DropHashesSuffix(s: string)
    ensures var r := DropHashes(s);
            |r| <= |s| && r == s[|s| - |r|..] && forall i :: 0 <= i < |s| - |r| ==> s[i] == '#'
    decreases |s|
  {
    if |s| > 0 && s[0] == '#' {
      DropHashesSuffix(s[1..]);
      var r := DropHashes(s[1..]);
      assert s[1..][|s| - 1 - |r|..] == s[|s| - |r|..];
      assert forall i :: 1 <= i < |s| - |r| ==> s[i] == s[1..][i - 1];
    }
  }

  /** Every character written twice, as in the three-digit colour form. */
  function Doubled(s: string): (r: string)
    ensures |r| == 2 * |s|
    ensures forall i :: 0 <= i < |s| ==> r[2 * i] == s[i] && r[2 * i + 1] == s[i]
  {
    if s == [] then [] else [s[0], s[0]] + Doubled(s[1..])
  }

  /** Python's slice `s[i:j]` for 0 <= i <= j: both ends are clamped to the
      length. */
  function Slice(s: string, i: nat, j: nat): (r: string)
    requires i <= j
  {
    if j <= |s| then s[i..j] else if i <= |s| then s[i..] else []
  }

  /** `hex_to_rgb`: leading `#`s dropped, a three-digit form doubled, then the
      slices [0:2], [2:4] and [4:6] read in base 16. None where Python raises. */
  function HexToRgb(colour: string): Option<Rgb> {
    Channels(Expanded(DropHashes(colour)))
  }

  /** A three-character form has every character doubled; any other length
      is read as it stands. */
  function Expanded(d: string): string {
    if |d| == 3 then Doubled(d) else d
  }

  /** The slices [0:2], [2:4] and [4:6] read in base 16. */
  function Channels(e: string): Option<Rgb> {
    var r := HexInt(Slice(e, 0, 2));
    var g := HexInt(Slice(e, 2, 4));
    var b := HexInt(Slice(e, 4, 6));
    if r.Some? && g.Some? && b.Some? then Some(Rgb(r.value, g.value, b.value)) else None
  }

  lemma HexPairValue(a: char, b: char)
    requires IsHexDigit(a) && IsHexDigit(b)
    ensures HexInt([a, b]) == Some(16 * HexDigitValue(a) + HexDigitValue(b))
  {
    var t := [a, b];
    assert !IsSpace(a) && !IsSpace(b);
    StripUnpadded(t);
    assert IsHexDigits(t);
    assert t[..1] == [a];
    assert [a][..0] == [];
    assert HexDigitsValue([a]) == HexDigitValue(a);
    assert HexDigitsValue(t) == 16 * HexDigitValue(a) + HexDigitValue(b);
  }

  /** Hex digits carry no `#`: only the one in front is dropped. */
  lemma DropHashOfDigits(h: string)
    requires IsHexDigits(h)
    ensures DropHashes("#" + h) == h
  {
    assert ("#" + h)[1..] == h;
    assert h[0] != '#';
  }

  /** Two hex digits at i read as one channel. */
  lemma HexPairAt(e: string, i: nat)
    requires i + 2 <= |e| && IsHexDigit(e[i]) && IsHexDigit(e[i + 1])
    ensures HexInt(Slice(e, i, i + 2)) == Some(16 * HexDigitValue(e[i]) + HexDigitValue(e[i + 1]))
  {
    assert Slice(e, i, i + 2) == [e[i], e[i + 1]];
    HexPairValue(e[i], e[i + 1]);
  }

  /** A six-digit colour reads as three channels in 0..255, two digits each. */
  lemma HexToRgbSixDigits(h: string)
    requires |h| == 6 && IsHexDigits(h)
    ensures HexToRgb("#" + h) == Some(Rgb(16 * HexDigitValue(h[0]) + HexDigitValue(h[1]),
                                          16 * HexDigitValue(h[2]) + HexDigitValue(h[3]),
                                          16 * HexDigitValue(h[4]) + HexDigitValue(h[5])))
    ensures var c := HexToRgb("#" + h).value;
            0 <= c.r <= 255 && 0 <= c.g <= 255 && 0 <= c.b <= 255
  {
    var c := Rgb(16 * HexDigitValue(h[0]) + HexDigitValue(h[1]),
                 16 * HexDigitValue(h[2]) + HexDigitValue(h[3]),
                 16 * HexDigitValue(h[4]) + HexDigitValue(h[5]));
    HexToRgbPairs(h);
    assert 0 <= c.r <= 255 && 0 <= c.g <= 255 && 0 <= c.b <= 255;
  }

  /** The three slices of six hex digits read as three channels. */
  lemma HexToRgbPairs(h: string)
    requires |h| == 6 && IsHexDigits(h)
    ensures HexToRgb("#" + h) == Some(Rgb(16 * HexDigitValue(h[0]) + HexDigitValue(h[1]),
                                          16 * HexDigitValue(h[2]) + HexDigitValue(h[3]),
                                          16 * HexDigitValue(h[4]) + HexDigitValue(h[5])))
  {
    DropHashOfDigits(h);
    assert Expanded(h) == h;
    assert IsHexDigit(h[0]) && IsHexDigit(h[1]) && IsHexDigit(h[2]);
    assert IsHexDigit(h[3]) && IsHexDigit(h[4]) && IsHexDigit(h[5]);
    ChannelsOfPairs(h);
  }

  /** The red slice [0:2] of two hex digits. */
  lemma RedPair(e: string)
    requires 2 <= |e| && IsHexDigit(e[0]) && IsHexDigit(e[1])
    ensures HexInt(Slice(e, 0, 2)) == Some(16 * HexDigitValue(e[0]) + HexDigitValue(e[1]))
  {
    HexPairAt(e, 0);
  }

  /** The green slice [2:4] of two hex digits. */
  lemma GreenPair(e: string)
    requires 4 <= |e| && IsHexDigit(e[2]) && IsHexDigit(e[3])
    ensures HexInt(Slice(e, 2, 4)) == Some(16 * HexDigitValue(e[2]) + HexDigitValue(e[3]))
  {
    HexPairAt(e, 2);
  }

  /** The blue slice [4:6] of two hex digits. */
  lemma BluePair(e: string)
    requires 6 <= |e| && IsHexDigit(e[4]) && IsHexDigit(e[5])
    ensures HexInt(Slice(e, 4, 6)) == Some(16 * HexDigitValue(e[4]) + HexDigitValue(e[5]))
  {
    HexPairAt(e, 4);
  }

  /** Six hex digits read as three channels, two digits each. */
  lemma ChannelsOfPairs(e: string)
    requires |e| == 6
    requires IsHexDigit(e[0]) && IsHexDigit(e[1]) && IsHexDigit(e[2])
    requires IsHexDigit(e[3]) && IsHexDigit(e[4]) && IsHexDigit(e[5])
    ensures Channels(e) == Some(Rgb(16 * HexDigitValue(e[0]) + HexDigitValue(e[1]),
                                    16 * HexDigitValue(e[2]) + HexDigitValue(e[3]),
                                    16 * HexDigitValue(e[4]) + HexDigitValue(e[5])))
  {
    RedPair(e);
    GreenPair(e);
    BluePair(e);
  }

  /** A three-digit colour doubles each digit: every channel is 17 times its
      digit. */
  lemma HexToRgbThreeDigits(h: string)
    requires |h| == 3 && IsHexDigits(h)
    ensures HexToRgb("#" + h) == Some(Rgb(17 * HexDigitValue(h[0]),
                                          17 * HexDigitValue(h[1]),
                                          17 * HexDigitValue(h[2])))
  {
    DropHashOfDigits(h);
    ChannelsOfDoubled(h);
  }

  lemma ChannelsOfDoubled(h: string)
    requires |h| == 3 && IsHexDigits(h)
    ensures Channels(Doubled(h)) == Some(Rgb(17 * HexDigitValue(h[0]),
                                             17 * HexDigitValue(h[1]),
                                             17 * HexDigitValue(h[2])))
  {
    var e := Doubled(h);
    assert e[0] == e[1] == h[0] && e[2] == e[3] == h[1] && e[4] == e[5] == h[2];
    assert IsHexDigit(h[0]) && IsHexDigit(h[1]) && IsHexDigit(h[2]);
    ChannelsOfRepeats(e, h[0], h[1], h[2]);
  }

  /** Six characters made of three repeated hex digits read as three
      channels, each 17 times its digit. */
  lemma ChannelsOfRepeats(e: string, x: char, y: char, z: char)
    requires |e| == 6 && IsHexDigit(x) && IsHexDigit(y) && IsHexDigit(z)
    requires e[0] == e[1] == x && e[2] == e[3] == y && e[4] == e[5] == z
    ensures Channels(e) == Some(Rgb(17 * HexDigitValue(x), 17 * HexDigitValue(y), 17 * HexDigitValue(z)))
  {
    ChannelsOfPairs(e);
  }

  /** A four-digit colour leaves the last slice empty, which `int` rejects. */
  lemma HexToRgbFourDigits(h: string)
    requires |h| == 4 && IsHexDigits(h)
    ensures HexToRgb("#" + h) == None
  {
    DropHashOfDigits(h);
    assert Slice(h, 4, 6) == [];
    assert Strip([]) == [];
  }

  /** One hex digit on its own reads as its value. */
  lemma HexDigitInt(c: char)
    requires IsHexDigit(c)
    ensures HexInt([c]) == Some(HexDigitValue(c))
  {
    assert !IsSpace(c);
    StripUnpadded([c]);
    assert IsHexDigits([c]);
    assert [c][..0] == [];
    assert HexDigitsValue([c]) == HexDigitValue(c);
  }

  /** A five-digit colour reads two full channels and a one-digit blue from
      the short last slice. */
  lemma HexToRgbFiveDigits(h: string)
    requires |h| == 5 && IsHexDigits(h)
    ensures HexToRgb("#" + h) == Some(Rgb(16 * HexDigitValue(h[0]) + HexDigitValue(h[1]),
                                          16 * HexDigitValue(h[2]) + HexDigitValue(h[3]),
                                          HexDigitValue(h[4])))
  {
    DropHashOfDigits(h);
    assert Expanded(h) == h;
    assert IsHexDigit(h[0]) && IsHexDigit(h[1]) && IsHexDigit(h[2]);
    assert IsHexDigit(h[3]) && IsHexDigit(h[4]);
    ChannelsOfFive(h);
  }

  /** Five hex digits read as two channels of two digits and a last channel
      of one. */
  lemma ChannelsOfFive(e: string)
    requires |e| == 5
    requires IsHexDigit(e[0]) && IsHexDigit(e[1]) && IsHexDigit(e[2])
    requires IsHexDigit(e[3]) && IsHexDigit(e[4])
    ensures Channels(e) == Some(Rgb(16 * HexDigitValue(e[0]) + HexDigitValue(e[1]),
                                    16 * HexDigitValue(e[2]) + HexDigitValue(e[3]),
                                    HexDigitValue(e[4])))
  {
    RedPair(e);
    GreenPair(e);
    BlueDigit(e);
  }

  /** The blue slice [4:6] of a five-character colour is its last digit. */
  lemma BlueDigit(e: string)
    requires |e| == 5 && IsHexDigit(e[4])
    ensures HexInt(Slice(e, 4, 6)) == Some(HexDigitValue(e[4]))
  {
    assert Slice(e, 4, 6) == [e[4]];
    HexDigitInt(e[4]);
  }

  /** `hex_to_rgb` reads a colour only when, once the `#`s are dropped, it
      has three characters or at least five: with fewer, one of the slices
      is empty, which `int` rejects. */
  lemma HexToRgbLengths(colour: string)
    ensures HexToRgb(colour).Some? ==> |DropHashes(colour)| == 3 || |DropHashes(colour)| >= 5
  {
    var d := DropHashes(colour);
    assert HexInt([]) == None;
    if |d| < 3 {
      assert Slice(d, 2, 4) == [];
    } else if |d| == 4 {
      assert Slice(d, 4, 6) == [];
    }
  }

  // ------------------------------------------------------ color_brightness

  /** The weighted channel sum 299r + 587g + 114b: the perceived brightness
      scaled by 255000. */
  function Luma(c: Rgb): int {
    299 * c.r + 587 * c.g + 114 * c.b
  }

  /** `color_brightness` in exact arithmetic. */
  function Brightness(c: Rgb): (v: real)
    ensures v * 255000.0 == Luma(c) as real
  {
    (0.299 * c.r as real + 0.587 * c.g as real + 0.114 * c.b as real) / 255.0
  }

  /** The four brightness thresholds of the classifier are the integer
      thresholds on the weighted sum. */
  lemma BrightnessThresholds(c: Rgb)
    ensures Brightness(c) < 0.3 <==> Luma(c) < 76500
    ensures Brightness(c) < 0.6 <==> Luma(c) < 153000
    ensures Brightness(c) > 0.1 <==> Luma(c) > 25500
    ensures Brightness(c) < 0.95 <==> Luma(c) < 242250
  {
  }

  /** Dark, medium or light accent by brightness. */
  function Bucket(luma: int): (v: string)
    ensures v in {DarkAccent, MidAccent, LightAccent}
  {
    if luma < 76500 then DarkAccent else if luma < 153000 then MidAccent else LightAccent
  }

  /** Stated on the brightness itself, the buckets are those of the source:
      below 0.3 dark, below 0.6 medium, otherwise light. */
  lemma BucketByBrightness(c: Rgb)
    ensures Bucket(Luma(c)) == (if Brightness(c) < 0.3 then DarkAccent
                                else if Brightness(c) < 0.6 then MidAccent
                                else LightAccent)
  {
    BrightnessThresholds(c);
  }

  // ------------------------------------------------------------ alpha values

  /** A decimal fraction: (-1 if negative) * digits / 10^scale. */
  datatype Decimal = Decimal(negative: bool, digits: nat, scale: nat)

  function Pow10(k: nat): (p: nat)
    ensures p >= 1
  {
    if k == 0 then 1 else 10 * Pow10(k - 1)
  }

  function DecimalValue(d: Decimal): real {
    (if d.negative then -1.0 else 1.0) * (d.digits as real / Pow10(d.scale) as real)
  }

  predicate AllDigits(s: string) {
    forall i :: 0 <= i < |s| ==> IsDigit(s[i])
  }

  /** Python's `float(s)` for plain decimals: surrounding whitespace, an
      optional sign, digits with at most one point and at least one digit.
      None where Python raises. */
  function ParseDecimal(s: string): Option<Decimal> {
    var t := Strip(s);
    var negative := |t| > 0 && t[0] == '-';
    var u := if |t| > 0 && (t[0] == '+' || t[0] == '-') then t[1..] else t;
    var parts := SplitOn(u, '.');
    if |parts| == 1 && IsDigits(u) then Some(Decimal(negative, DigitsValue(u), 0))
    else if |parts| == 2 && AllDigits(parts[0]) && AllDigits(parts[1]) && |parts[0]| + |parts[1]| > 0 then
      assert AllDigits(parts[0] + parts[1]);
      Some(Decimal(negative, DigitsValue(parts[0] + parts[1]), |parts[1]|))
    else None
  }

  /** `float` reads digits, a point and digits as the digits over a power of
      ten. */
  lemma ParseDecimalFraction(a: string, b: string)
    requires AllDigits(a) && AllDigits(b) && |a| + |b| > 0
    ensures AllDigits(a + b)
    ensures ParseDecimal(a + "." + b) == Some(Decimal(false, DigitsValue(a + b), |b|))
  {
    var t := a + "." + b;
    assert AllDigits(a + b);
    assert t[0] == (if a == [] then '.' else a[0]);
    assert t[|t| - 1] == (if b == [] then '.' else b[|b| - 1]);
    StripUnpadded(t);
    assert Join([a, b], '.') == t;
    assert '.' !in a && '.' !in b;
    SplitOnJoin([a, b], '.');
  }

  /** `alpha < 0.1`, exactly. */
  predicate BelowTenth(d: Decimal) {
    d.negative || 10 * d.digits < Pow10(d.scale)
  }

  /** `alpha >= 0.9`, exactly. */
  predicate AtLeastNineTenths(d: Decimal) {
    !d.negative && 10 * d.digits >= 9 * Pow10(d.scale)
  }

  /** The alpha comparisons are those of the decimal's value. */
  lemma AlphaThresholds(d: Decimal)
    ensures BelowTenth(d) <==> DecimalValue(d) < 0.1
    ensures AtLeastNineTenths(d) <==> DecimalValue(d) >= 0.9
  {
    var x := d.digits as real;
    var y := Pow10(d.scale) as real;
    QuotientBounds(x, y, 0.1);
    QuotientBounds(x, y, 0.9);
  }

  /** Comparing a quotient with a bound is comparing the numerator with the
      scaled bound. */
  lemma QuotientBounds(x: real, y: real, c: real)
    requires y > 0.0
    ensures x / y < c <==> x < c * y
  {
    var q := x / y;
    assert x == q * y;
    if q < c {
      assert (c - q) * y > 0.0;
    } else {
      assert (q - c) * y >= 0.0;
    }
  }

  // ------------------------------------------------------------ rgb(...) scan

  /** The length of an `rgba(` or `rgb(` opener at position p, or 0. */
  function OpenerAt(s: string, p: nat): (n: nat)
    ensures n == 0 || n == 4 || n == 5
    ensures n > 0 ==> p + n <= |s| && s[p] == 'r'
    ensures n == 5 <==> p <= |s| && StartsWith(s[p..], "rgba(")
    ensures n == 4 <==> p <= |s| && !StartsWith(s[p..], "rgba(") && StartsWith(s[p..], "rgb(")
  {
    if p <= |s| && StartsWith(s[p..], "rgba(") then 5
    else if p <= |s| && StartsWith(s[p..], "rgb(") then 4
    else 0
  }

  /** The first `)` at or after position q. */
  function CloseFrom(s: string, q: nat): (k: Option<nat>)
    ensures k.Some? ==> q <= k.value < |s| && s[k.value] == ')'
    ensures k.Some? ==> forall i :: q <= i < k.value ==> s[i] != ')'
    ensures k.None? ==> forall i :: q <= i < |s| ==> s[i] != ')'
    decreases |s| - q
  {
    if q >= |s| then None
    else if s[q] == ')' then Some(q)
    else CloseFrom(s, q + 1)
  }

  /** The end of a match of `rgba?\([^)]+\)` starting at p, if there is one. */
  function RgbaAt(s: string, p: nat): (e: Option<nat>)
    ensures e.Some? ==> p < e.value <= |s| && s[p] == 'r'
  {
    var n := OpenerAt(s, p);
    if n == 0 then None
    else match CloseFrom(s, p + n)
      case None => None
      case Some(k) => if k > p + n then Some(k + 1) else None
  }

  /** The leftmost match at or after p, as its start and end. */
  function NextRgba(s: string, p: nat): (m: Option<(nat, nat)>)
    ensures m.Some? ==> p <= m.value.0 < m.value.1 <= |s| && s[m.value.0] == 'r'
    ensures m.Some? ==> RgbaAt(s, m.value.0) == Some(m.value.1)
    ensures m.Some? ==> forall i :: p <= i < m.value.0 ==> RgbaAt(s, i).None?
    ensures m.None? ==> forall i :: p <= i < |s| ==> RgbaAt(s, i).None?
    decreases |s| - p
  {
    if p >= |s| then None
    else match RgbaAt(s, p)
      case Some(e) => Some((p, e))
      case None => NextRgba(s, p + 1)
  }

  /** `re.search(r'rgba?\(([^)]+)\)', s).group(1)`: the text inside the
      parentheses of the leftmost match. */
  function RgbaGroup(s: string): Option<string> {
    match NextRgba(s, 0)
    case None => None
    case Some((a, e)) => Some(s[a + OpenerAt(s, a)..e - 1])
  }

  /** The alpha of a group: the fourth comma-separated part as a float, if
      there are four parts and it parses. */
  function Alpha(group: string): Option<Decimal> {
    var parts := SplitOn(group, ',');
    if |parts| >= 4 then ParseDecimal(parts[3]) else None
  }

  /** The alpha of `r, g, b, a` is `float(a)`. */
  lemma AlphaOfParts(r: string, g: string, b: string, a: string)
    requires ',' !in r && ',' !in g && ',' !in b && ',' !in a
    ensures Alpha(r + "," + g + "," + b + "," + a) == ParseDecimal(a)
  {
    var parts := [r, g, b, a];
    assert Join(parts[2..], ',') == b + "," + a;
    assert Join(parts[1..], ',') == g + "," + (b + "," + a);
    assert Join(parts, ',') == r + "," + g + "," + b + "," + a;
    SplitOnJoin(parts, ',');
  }

  // --------------------------------------------------------------- #hex scan

  /** `\w` on ASCII: letters, digits and the underscore. */
  predicate IsWordChar(c: char) {
    ('a' <= c <= 'z') || ('A' <= c <= 'Z') || ('0' <= c <= '9') || c == '_'
  }

  /** The length of the run of hexadecimal digits starting at i. */
  function HexRun(s: string, i: nat): (n: nat)
    ensures i + n <= |s| || (i >= |s| && n == 0)
    ensures forall j :: i <= j < i + n ==> IsHexDigit(s[j])
    ensures i + n < |s| ==> !IsHexDigit(s[i + n])
    decreases |s| - i
  {
    if i < |s| && IsHexDigit(s[i]) then 1 + HexRun(s, i + 1) else 0
  }

  /** `#` at p, then k hexadecimal digits, then a non-word character or the
      end of the text: `#[0-9a-fA-F]{k}\b` matches at p. */
  predicate HexMatchAt(s: string, p: nat, k: nat) {
    && p + 1 + k <= |s| && s[p] == '#'
    && (forall j :: p < j <= p + k ==> IsHexDigit(s[j]))
    && (p + 1 + k == |s| || !IsWordChar(s[p + 1 + k]))
  }

  /** Hexadecimal digits are word characters, so a run of them that ends at
      a word boundary is the whole run. */
  lemma HexMatchIsRun(s: string, p: nat, k: nat)
    requires HexMatchAt(s, p, k)
    ensures k == HexRun(s, p + 1)
  {
  }

  /** The end of a match of `(#[0-9a-fA-F]{3,6})\b` starting at p. The
      repetition is greedy and a shorter repetition always ends before a
      further hex digit, so the only candidate is the whole run, and the run
      must be followed by a non-word character or the end of the text. */
  function HexAt(s: string, p: nat): (e: Option<nat>)
    ensures e.Some? ==> p + 4 <= e.value <= p + 7 && e.value <= |s| && s[p] == '#'
    ensures e.Some? ==> HexMatchAt(s, p, e.value - p - 1)
    ensures e.Some? <==> exists k :: 3 <= k <= 6 && HexMatchAt(s, p, k)
  {
    if p < |s| && s[p] == '#' then
      var n := HexRun(s, p + 1);
      assert forall k | HexMatchAt(s, p, k) :: k == n by {
        forall k | HexMatchAt(s, p, k) ensures k == n { HexMatchIsRun(s, p, k); }
      }
      if 3 <= n <= 6 && (p + 1 + n == |s| || !IsWordChar(s[p + 1 + n])) then
        assert HexMatchAt(s, p, n);
        Some(p + 1 + n)
      else None
    else None
  }

  function NextHex(s: string, p: nat): (m: Option<(nat, nat)>)
    ensures m.Some? ==> p <= m.value.0 < m.value.1 <= |s| && s[m.value.0] == '#'
    ensures m.Some? ==> HexAt(s, m.value.0) == Some(m.value.1)
    ensures m.Some? ==> forall i :: p <= i < m.value.0 ==> HexAt(s, i).None?
    ensures m.None? ==> forall i :: p <= i < |s| ==> HexAt(s, i).None?
    decreases |s| - p
  {
    if p >= |s| then None
    else match HexAt(s, p)
      case Some(e) => Some((p, e))
      case None => NextHex(s, p + 1)
  }

  // ------------------------------------------------------- suggest_hyde_var

  predicate IsBlackHex(cl: string) {
    Contains(cl, "#000000") || cl == "#000"
  }

  predicate IsWhiteHex(cl: string) {
    Contains(cl, "#ffffff") || cl == "#fff"
  }

  predicate BackgroundContext(xl: string) {
    Contains(xl, "background") || Contains(xl, "bg")
  }

  predicate ActiveContext(xl: string) {
    Contains(xl, "active") || Contains(xl, "act")
  }

  predicate HoverContext(xl: string) {
    Contains(xl, "hover") || Contains(xl, "hvr")
  }

  predicate ColourContext(xl: string) {
    Contains(xl, "color") || Contains(xl, "fg")
  }

  /** The rgb group the rgba rules look at: only a colour mentioning `rgba`
      is searched at all. */
  function RgbaRuleGroup(cl: string): Option<string> {
    if Contains(cl, "rgba") then RgbaGroup(cl) else None
  }

  predicate Transparent(m: Option<string>) {
    m.Some? && Alpha(m.value).Some? && BelowTenth(Alpha(m.value).value)
  }

  predicate OpaqueBlack(m: Option<string>) {
    m.Some? && Contains(m.value, "0, 0, 0") && Alpha(m.value).Some? && AtLeastNineTenths(Alpha(m.value).value)
  }

  predicate WhiteRgba(m: Option<string>) {
    m.Some? && Contains(m.value, "255, 255, 255")
  }

  /** `color_lower.split('#')[1].split()[0].split(';')[0].split(',')[0]`, or
      None where the `split()` finds no word. */
  function HexField(cl: string): Option<string>
    requires '#' in cl
  {
    SplitOnSep(cl, '#');
    var words := SplitWords(SplitOn(cl, '#')[1]);
    if words == [] then None
    else Some(SplitOn(SplitOn(words[0], ';')[0], ',')[0])
  }

  /** The weighted brightness sum of the hex field, when it has at most six
      characters and `hex_to_rgb` reads it. */
  function HexLuma(cl: string): Option<int>
    requires '#' in cl
  {
    match HexField(cl)
    case None => None
    case Some(h) =>
      if |h| <= 6 then
        match HexToRgb("#" + h)
        case None => None
        case Some(c) => Some(Luma(c))
      else None
  }

  /** The accent for a colour under a background, colour or border property. */
  function Accent(cl: string): (r: Option<string>)
    requires '#' in cl
  {
    match HexLuma(cl)
    case None => None
    case Some(l) => Some(Bucket(l))
  }

  /** The accent for a colour under no recognised property: only clear
      accents, neither near black nor near white. */
  function PlainAccent(cl: string): (r: Option<string>)
    requires '#' in cl
  {
    match HexLuma(cl)
    case None => None
    case Some(l) => if 25500 < l < 242250 then Some(Bucket(l)) else None
  }

  /** The colour rules, which come before any context rule: almost
      transparent rgba, black hex, mostly opaque black rgba, white hex, white
      rgba. `bg` says whether the context names a background. */
  function ColourRule(cl: string, bg: bool): (r: Option<string>)
    ensures r.None? || r.value in SuggestedNames
  {
    var m := RgbaRuleGroup(cl);
    if Transparent(m) then Some(BarBg)
    else if IsBlackHex(cl) then Some(if bg then MainBg else MainFg)
    else if OpaqueBlack(m) then Some(if bg then MainBg else MainFg)
    else if IsWhiteHex(cl) then Some(MainFg)
    else if WhiteRgba(m) then Some(MainFg)
    else None
  }

  /** The context rules, first match wins: active, hover, background,
      colour or foreground, border, and finally no recognised property. */
  function ContextRule(cl: string, xl: string): (r: Option<string>)
    ensures r.None? || r.value in SuggestedNames
  {
    var m := RgbaRuleGroup(cl);
    var bg := BackgroundContext(xl);
    if ActiveContext(xl) then Some(if bg then ActBg else ActFg)
    else if HoverContext(xl) then Some(if bg then HvrBg else HvrFg)
    else if bg then
      if IsBlackHex(cl) then Some(MainBg)
      else if m.Some? && Contains(m.value, "0, 0, 0") then Some(MainBg)
      else if Transparent(m) then Some(BarBg)
      else if '#' in cl then Accent(cl)
      else None
    else if ColourContext(xl) then
      if IsWhiteHex(cl) then Some(MainFg)
      else if WhiteRgba(m) then Some(MainFg)
      else if '#' in cl then Accent(cl)
      else None
    else if Contains(xl, "border") then
      if IsBlackHex(cl) then Some(MainFg)
      else if IsWhiteHex(cl) then Some(MainFg)
      else if '#' in cl then Accent(cl)
      else None
    else if '#' in cl then PlainAccent(cl)
    else None
  }

  /** The classifier on a lowered colour `cl` and a lowered context `xl`. */
  function Classify(cl: string, xl: string): (r: Option<string>)
    ensures r.None? || r.value in SuggestedNames
  {
    var c := ColourRule(cl, BackgroundContext(xl));
    if c.Some? then c else ContextRule(cl, xl)
  }

  /** `suggest_hyde_var`: None keeps the colour as it is. */
  function Suggest(colour: string, context: string): (r: Option<string>)
    ensures r.None? || r.value in SuggestedNames
  {
    Classify(Lower(colour), Lower(context))
  }

  // ------------------------------------------------- properties of Suggest

  /** Only the lowered colour and context matter. */
  lemma SuggestIgnoresCase(colour: string, context: string)
    ensures Suggest(colour, context) == Suggest(Lower(colour), Lower(context))
  {
    LowerTwice(colour);
    LowerTwice(context);
  }

  /** Lowercase hexadecimal digits. */
  predicate IsLowerHex(h: string) {
    forall i :: 0 <= i < |h| ==> ('0' <= h[i] <= '9') || ('a' <= h[i] <= 'f')
  }

  lemma LowerHexLiteral(h: string)
    requires IsLowerHex(h)
    ensures Lower("#" + h) == "#" + h
  {
    var c := "#" + h;
    assert forall i :: 0 <= i < |c| ==> LowerChar(c[i]) == c[i] by {
      forall i | 0 <= i < |c|
        ensures LowerChar(c[i]) == c[i]
      {
        if i > 0 {
          assert c[i] == h[i - 1];
        }
      }
    }
  }

  /** The hex field of a hex literal is its digits. */
  lemma HexFieldOfLiteral(h: string)
    requires h != [] && IsLowerHex(h)
    ensures '#' in "#" + h
    ensures HexField("#" + h) == Some(h)
  {
    var c := "#" + h;
    assert c[0] == '#';
    assert '#' !in h;
    assert c[1..] == h;
    SplitOnNoSep(h, '#');
    assert SplitOn(c, '#') == ["", h];
    assert IsWord(h);
    SplitWordsCons(h, "");
    assert h + "" == h;
    assert ';' !in h && ',' !in h;
    SplitOnNoSep(h, ';');
    SplitOnNoSep(h, ',');
  }

  /** A literal without `#` matches neither black nor white hex test. */
  lemma NoHashNoHex(cl: string)
    requires '#' !in cl
    ensures !IsBlackHex(cl) && !IsWhiteHex(cl)
  {
    ContainsChars(cl, "#000000");
    ContainsChars(cl, "#ffffff");
    assert "#000000"[0] == '#' && "#ffffff"[0] == '#';
    assert "#000"[0] == '#' && "#fff"[0] == '#';
  }

  /** A hex literal of three or six digits is black, or white, exactly when
      its digits say so. */
  lemma HexLiteralShade(h: string)
    requires |h| == 3 || |h| == 6
    ensures IsBlackHex("#" + h) <==> h == "000" || h == "000000"
    ensures IsWhiteHex("#" + h) <==> h == "fff" || h == "ffffff"
  {
    var c := "#" + h;
    assert c[1..] == h;
    if |h| == 6 {
      ContainsSameLength(c, "#000000");
      ContainsSameLength(c, "#ffffff");
    }
  }

  /** A lowercase three- or six-digit hex literal that is neither black nor
      white goes by its context, in order: active, then hover, then a
      background, colour or border property (an accent by brightness), and
      otherwise an accent only when it is neither near black nor near white. */
  lemma HexLiteralSuggestion(h: string, context: string)
    requires (|h| == 3 || |h| == 6) && IsLowerHex(h)
    requires h != "000" && h != "fff" && h != "000000" && h != "ffffff"
    ensures HexToRgb("#" + h).Some?
    ensures var l := Luma(HexToRgb("#" + h).value);
            var xl := Lower(context);
            var bg := BackgroundContext(xl);
            Suggest("#" + h, context) ==
              if ActiveContext(xl) then Some(if bg then ActBg else ActFg)
              else if HoverContext(xl) then Some(if bg then HvrBg else HvrFg)
              else if bg || ColourContext(xl) || Contains(xl, "border") then Some(Bucket(l))
              else if 25500 < l < 242250 then Some(Bucket(l))
              else None
  {
    var c := "#" + h;
    var xl := Lower(context);
    LowerHexLiteral(h);
    assert IsHexDigits(h);
    if |h| == 3 {
      HexToRgbThreeDigits(h);
    } else {
      HexToRgbSixDigits(h);
    }
    var l := Luma(HexToRgb(c).value);
    assert RgbaRuleGroup(c) == None by {
      ContainsChars(c, "rgba");
      assert 'r' !in c;
    }
    assert !IsBlackHex(c) && !IsWhiteHex(c) by {
      HexLiteralShade(h);
    }
    assert ColourRule(c, BackgroundContext(xl)) == None;
    assert HexLuma(c) == Some(l) by {
      HexFieldOfLiteral(h);
    }
    ReadableHexContext(c, xl, l);
  }

  /** With no rgba group and no black or white shade, a colour whose
      brightness reads as l goes by the first context rule that applies. */
  lemma ReadableHexContext(c: string, xl: string, l: int)
    requires '#' in c && HexLuma(c) == Some(l) && RgbaRuleGroup(c) == None
    requires !IsBlackHex(c) && !IsWhiteHex(c)
    ensures var bg := BackgroundContext(xl);
            ContextRule(c, xl) ==
              if ActiveContext(xl) then Some(if bg then ActBg else ActFg)
              else if HoverContext(xl) then Some(if bg then HvrBg else HvrFg)
              else if bg || ColourContext(xl) || Contains(xl, "border") then Some(Bucket(l))
              else if 25500 < l < 242250 then Some(Bucket(l))
              else None
  {
  }

  /** A four-digit hex literal cannot be read as a colour, so it is kept
      unless an active or hover context names a variable regardless. */
  lemma FourDigitHexKept(h: string, context: string)
    requires |h| == 4 && IsLowerHex(h)
    requires !ActiveContext(Lower(context)) && !HoverContext(Lower(context))
    ensures Suggest("#" + h, context) == None
  {
    var c := "#" + h;
    var xl := Lower(context);
    LowerHexLiteral(h);
    assert HexLuma(c) == None by {
      HexFieldOfLiteral(h);
      assert IsHexDigits(h);
      HexToRgbFourDigits(h);
    }
    assert RgbaRuleGroup(c) == None by {
      ContainsChars(c, "rgba");
      assert 'r' !in c;
    }
    assert !IsBlackHex(c) && !IsWhiteHex(c) by {
      assert c != "#000" && c != "#fff";
      ContainsChars(c, "#000000");
      ContainsChars(c, "#ffffff");
    }
    assert ColourRule(c, BackgroundContext(xl)) == None;
    UnreadableHexContext(c, xl);
  }

  /** With no rgba group, no black or white shade and no brightness, only an
      active or hover context names a variable. */
  lemma UnreadableHexContext(c: string, xl: string)
    requires '#' in c && HexLuma(c) == None && RgbaRuleGroup(c) == None
    requires !IsBlackHex(c) && !IsWhiteHex(c)
    requires !ActiveContext(xl) && !HoverContext(xl)
    ensures ContextRule(c, xl) == None
  {
  }

  /** `#123456` outside any recognised property is a dark accent: its
      weighted sum 45710 lies between 25500 and 76500. */
  lemma DarkAccentExample()
    ensures Suggest("#123456", "") == Some(DarkAccent)
  {
    var h := "123456";
    assert "#123456" == "#" + h;
    assert IsLowerHex(h);
    DarkAccentColour();
    EmptyContext();
    HexLiteralSuggestion(h, "");
    assert Luma(Rgb(18, 52, 86)) == 45710;
  }

  /** `#123456` reads as (18, 52, 86). */
  lemma DarkAccentColour()
    ensures HexToRgb("#" + "123456") == Some(Rgb(18, 52, 86))
  {
    var h := "123456";
    assert IsHexDigits(h);
    HexToRgbSixDigits(h);
    assert HexDigitValue('1') == 1 && HexDigitValue('2') == 2 && HexDigitValue('3') == 3;
    assert HexDigitValue('4') == 4 && HexDigitValue('5') == 5 && HexDigitValue('6') == 6;
  }

  /** An empty context names no property. */
  lemma EmptyContext()
    ensures Lower("") == ""
    ensures !ActiveContext("") && !HoverContext("") && !BackgroundContext("")
    ensures !ColourContext("") && !Contains("", "border")
  {
  }

  /** Black hex literals follow the background test, whatever else the
      context says. */
  lemma BlackHexSuggestion(colour: string, context: string)
    requires Lower(colour) == "#000" || Lower(colour) == "#000000"
    ensures Suggest(colour, context) == Some(if BackgroundContext(Lower(context)) then MainBg else MainFg)
  {
    var cl := Lower(colour);
    ContainsChars(cl, "rgba");
    assert 'r' !in cl;
    assert IsBlackHex(cl) by {
      if cl == "#000000" {
        ContainsSameLength(cl, "#000000");
      }
    }
  }

  /** White hex literals always become the main foreground. */
  lemma WhiteHexSuggestion(colour: string, context: string)
    requires Lower(colour) == "#fff" || Lower(colour) == "#ffffff"
    ensures Suggest(colour, context) == Some(MainFg)
  {
    var cl := Lower(colour);
    ContainsChars(cl, "rgba");
    assert 'r' !in cl;
    assert !IsBlackHex(cl) by {
      ContainsChars(cl, "#000000");
      assert '0' in "#000000";
    }
    assert IsWhiteHex(cl) by {
      if cl == "#ffffff" {
        ContainsSameLength(cl, "#ffffff");
      }
    }
  }

  /** A colour that mentions neither `rgba` nor `#` (an `rgb(...)` literal,
      say) never reaches the black, white or transparent rules: only an
      active or hover context replaces it. */
  lemma RgbLiteralSuggestion(colour: string, context: string)
    requires !Contains(Lower(colour), "rgba") && '#' !in Lower(colour)
    ensures var xl := Lower(context);
            var bg := BackgroundContext(xl);
            Suggest(colour, context) ==
              if ActiveContext(xl) then Some(if bg then ActBg else ActFg)
              else if HoverContext(xl) then Some(if bg then HvrBg else HvrFg)
              else None
  {
    NoHashNoHex(Lower(colour));
  }

  /** The group of an `rgba(...)` literal is what lies between its
      parentheses. */
  lemma RgbaGroupOfLiteral(g: string)
    requires g != [] && ')' !in g
    ensures RgbaGroup("rgba(" + g + ")") == Some(g)
  {
    var s := "rgba(" + g + ")";
    assert s[0..][..5] == "rgba(";
    assert OpenerAt(s, 0) == 5;
    assert forall i :: 5 <= i < |s| - 1 ==> s[i] == g[i - 5];
    assert s[|s| - 1] == ')';
    assert CloseFrom(s, 5) == Some(|s| - 1);
    assert RgbaAt(s, 0) == Some(|s|);
    assert s[5..|s| - 1] == g;
  }

  lemma LowerRgbaLiteral(g: string)
    requires Lower(g) == g
    ensures Lower("rgba(" + g + ")") == "rgba(" + g + ")"
  {
    var c := "rgba(" + g + ")";
    assert forall i :: 0 <= i < |c| ==> LowerChar(c[i]) == c[i] by {
      forall i | 0 <= i < |c|
        ensures LowerChar(c[i]) == c[i]
      {
        if 5 <= i < |c| - 1 {
          assert c[i] == g[i - 5];
          assert LowerChar(g[i - 5]) == Lower(g)[i - 5];
        }
      }
    }
  }

  /** The rgba rules see the group of an `rgba(...)` literal. */
  lemma RgbaLiteralRules(g: string)
    requires g != [] && ')' !in g && Lower(g) == g
    ensures Lower("rgba(" + g + ")") == "rgba(" + g + ")"
    ensures RgbaRuleGroup("rgba(" + g + ")") == Some(g)
    ensures '#' !in g ==> !IsBlackHex("rgba(" + g + ")") && !IsWhiteHex("rgba(" + g + ")")
  {
    LowerRgbaLiteral(g);
    RgbaRuleGroupOfLiteral(g);
    if '#' !in g {
      RgbaLiteralNotHex(g);
    }
  }

  /** An `rgba(...)` literal mentions `rgba`, so the rules read its group. */
  lemma RgbaRuleGroupOfLiteral(g: string)
    requires g != [] && ')' !in g
    ensures RgbaRuleGroup("rgba(" + g + ")") == Some(g)
  {
    var c := "rgba(" + g + ")";
    RgbaGroupOfLiteral(g);
    assert StartsWith(c, "rgba") by {
      assert c[..4] == "rgba";
    }
    ContainsPrefix(c, "rgba");
  }

  /** An `rgba(...)` literal whose group has no `#` is no hex shade. */
  lemma RgbaLiteralNotHex(g: string)
    requires '#' !in g
    ensures !IsBlackHex("rgba(" + g + ")") && !IsWhiteHex("rgba(" + g + ")")
  {
    NotInConcat('#', "rgba(", g, ")");
    NoHashNoHex("rgba(" + g + ")");
  }

  /** An almost transparent `rgba(...)` literal is the bar background, in any
      context. */
  lemma TransparentRgbaSuggestion(g: string, context: string)
    requires g != [] && ')' !in g && Lower(g) == g
    requires Alpha(g).Some? && BelowTenth(Alpha(g).value)
    ensures Suggest("rgba(" + g + ")", context) == Some(BarBg)
  {
    RgbaLiteralRules(g);
  }

  /** A mostly opaque black `rgba(...)` literal follows the background test. */
  lemma OpaqueBlackRgbaSuggestion(g: string, context: string)
    requires g != [] && ')' !in g && '#' !in g && Lower(g) == g
    requires Contains(g, "0, 0, 0") && Alpha(g).Some? && AtLeastNineTenths(Alpha(g).value)
    ensures Suggest("rgba(" + g + ")", context)
         == Some(if BackgroundContext(Lower(context)) then MainBg else MainFg)
  {
    RgbaLiteralRules(g);
  }

  /** An opaque enough white `rgba(...)` literal is the main foreground, in
      any context. */
  lemma WhiteRgbaSuggestion(g: string, context: string)
    requires g != [] && ')' !in g && '#' !in g && Lower(g) == g
    requires Contains(g, "255, 255, 255") && !Contains(g, "0, 0, 0")
    requires Alpha(g).None? || !BelowTenth(Alpha(g).value)
    ensures Suggest("rgba(" + g + ")", context) == Some(MainFg)
  {
    var c := "rgba(" + g + ")";
    RgbaLiteralRules(g);
    assert RgbaRuleGroup(c) == Some(g);
    assert !Transparent(Some(g)) && !OpaqueBlack(Some(g)) && WhiteRgba(Some(g));
    assert ColourRule(c, BackgroundContext(Lower(context))) == Some(MainFg);
  }

  /** Any other `rgba(...)` literal, neither almost transparent, nor mostly
      opaque black, nor white, goes by its context alone: active, then hover,
      then a background naming black; otherwise it is kept. */
  lemma OrdinaryRgbaSuggestion(g: string, context: string)
    requires g != [] && ')' !in g && '#' !in g && Lower(g) == g
    requires !Transparent(Some(g)) && !OpaqueBlack(Some(g)) && !Contains(g, "255, 255, 255")
    ensures var xl := Lower(context);
            var bg := BackgroundContext(xl);
            Suggest("rgba(" + g + ")", context) ==
              if ActiveContext(xl) then Some(if bg then ActBg else ActFg)
              else if HoverContext(xl) then Some(if bg then HvrBg else HvrFg)
              else if bg && Contains(g, "0, 0, 0") then Some(MainBg)
              else None
  {
    var c := "rgba(" + g + ")";
    var xl := Lower(context);
    RgbaLiteralRules(g);
    NotInConcat('#', "rgba(", g, ")");
    assert ColourRule(c, BackgroundContext(xl)) == None;
    OrdinaryRgbaContext(c, g, xl);
  }

  /** The context rules on an `rgba(...)` literal with no `#` whose group is
      neither almost transparent nor white. */
  lemma OrdinaryRgbaContext(c: string, g: string, xl: string)
    requires RgbaRuleGroup(c) == Some(g) && '#' !in c && !IsBlackHex(c) && !IsWhiteHex(c)
    requires !Transparent(Some(g)) && !Contains(g, "255, 255, 255")
    ensures var bg := BackgroundContext(xl);
            ContextRule(c, xl) ==
              if ActiveContext(xl) then Some(if bg then ActBg else ActFg)
              else if HoverContext(xl) then Some(if bg then HvrBg else HvrFg)
              else if bg && Contains(g, "0, 0, 0") then Some(MainBg)
              else None
  {
  }

  // ------------------------------------------------------ substitution pass

  /** The first pass replaces `rgb(...)`/`rgba(...)` literals, the second
      `#hex` literals. */
  datatype PassKind = RgbaPass | HexPass

  /** The pass's pattern matches s[a..e]. */
  predicate MatchAt(kind: PassKind, s: string, a: nat, e: nat) {
    match kind
    case RgbaPass => RgbaAt(s, a) == Some(e)
    case HexPass => HexAt(s, a) == Some(e)
  }

  /** The next literal of the pass at or after p, as its start and end: a
      match, and no match starts earlier. */
  function NextLiteral(kind: PassKind, s: string, p: nat): (m: Option<(nat, nat)>)
    ensures m.Some? ==> p <= m.value.0 < m.value.1 <= |s|
    ensures m.Some? ==> s[m.value.0] == (if kind == RgbaPass then 'r' else '#')
    ensures m.Some? ==> MatchAt(kind, s, m.value.0, m.value.1)
    ensures m.Some? ==> forall i, e :: p <= i < m.value.0 ==> !MatchAt(kind, s, i, e)
    ensures m.None? ==> forall i, e :: p <= i < |s| ==> !MatchAt(kind, s, i, e)
  {
    match kind
    case RgbaPass => NextRgba(s, p)
    case HexPass => NextHex(s, p)
  }

  /** One logged replacement: the literal, the variable that replaced it and
      the first 30 characters of the context it was judged in. */
  datatype Replacement = Replacement(literal: string, variable: string, context: string)

  /** The context of a literal starting at a: the up to 50 characters before
      it in the text the pass is reading. */
  function ContextBefore(s: string, a: nat): (ctx: string)
    requires a <= |s|
    ensures |ctx| <= 50 && |ctx| <= a && ctx == s[a - |ctx|..a]
  {
    s[if a >= 50 then a - 50 else 0..a]
  }

  /** `context[:30]`. */
  function Head30(ctx: string): (r: string)
    ensures |r| <= 30 && r <= ctx
    ensures |r| == (if |ctx| <= 30 then |ctx| else 30)
  {
    if |ctx| <= 30 then ctx else ctx[..30]
  }

  /** The classifier a pass consults, given a literal and its context. */
  type Classifier = (string, string) -> Option<string>

  /** What every classifier here returns: nothing, or a reference to a
      variable. */
  ghost predicate NamesReferences(classify: Classifier) {
    forall literal, context :: classify(literal, context).None? ||
      (classify(literal, context).value != [] && classify(literal, context).value[0] == '@')
  }

  lemma SuggestNamesReferences()
    ensures NamesReferences(Suggest)
  {
    SuggestedNamesAreReferences();
  }

  /** What the callback returns for the literal s[a..e], with what it logs:
      the classifier's name and one log entry, or the literal itself and
      nothing. */
  function Emit(classify: Classifier, s: string, a: nat, e: nat): (string, seq<Replacement>)
    requires a <= e <= |s|
  {
    var literal := s[a..e];
    var context := ContextBefore(s, a);
    match classify(literal, context)
    case None => (literal, [])
    case Some(v) => (v, [Replacement(literal, v, Head30(context))])
  }

  /** The callback either keeps the literal and logs nothing, or returns a
      reference and logs it. */
  lemma EmitShape(classify: Classifier, s: string, a: nat, e: nat)
    requires a <= e <= |s| && NamesReferences(classify)
    ensures Emit(classify, s, a, e).1 == [] ==> Emit(classify, s, a, e).0 == s[a..e]
    ensures Emit(classify, s, a, e).1 != [] ==> Emit(classify, s, a, e).0 != [] && Emit(classify, s, a, e).0[0] == '@'
  {
  }

  /** The text from p on after one `re.sub` pass with `classify` in the
      callback, and the replacements made there: each literal the classifier
      names is replaced by that name and logged, every other literal and all
      text between literals is kept. */
  function Substituted(kind: PassKind, classify: Classifier, s: string, p: nat): (string, seq<Replacement>)
    requires p <= |s|
    decreases |s| - p
  {
    var m := NextLiteral(kind, s, p);
    if m.None? then (s[p..], [])
    else
      var a := m.value.0;
      var e := m.value.1;
      var piece := Emit(classify, s, a, e);
      var rest := Substituted(kind, classify, s, e);
      (s[p..a] + piece.0 + rest.0, piece.1 + rest.1)
  }

  /** One step of a pass: the text up to the next literal, what the callback
      made of it, and the rest of the pass. */
  lemma SubstitutedStep(kind: PassKind, classify: Classifier, s: string, p: nat, a: nat, e: nat)
    requires p <= |s| && NextLiteral(kind, s, p) == Some((a, e))
    ensures p <= a < e <= |s|
    ensures Substituted(kind, classify, s, p)
         == (s[p..a] + Emit(classify, s, a, e).0 + Substituted(kind, classify, s, e).0,
             Emit(classify, s, a, e).1 + Substituted(kind, classify, s, e).1)
  {
  }

  /** Having read the text up to p, written `out` and logged `log`, the pass
      is on course: what it still writes and logs completes the whole pass. */
  predicate PassSoFar(kind: PassKind, classify: Classifier, s: string, p: nat, out: string, log: seq<Replacement>)
    requires p <= |s|
  {
    var rest := Substituted(kind, classify, s, p);
    Substituted(kind, classify, s, 0) == (out + rest.0, log + rest.1)
  }

  /** Nothing read, nothing written: the pass is on course. */
  lemma PassStart(kind: PassKind, classify: Classifier, s: string)
    ensures PassSoFar(kind, classify, s, 0, [], [])
  {
    var whole := Substituted(kind, classify, s, 0);
    assert [] + whole.0 == whole.0 && [] + whole.1 == whole.1;
  }

  /** Copying the text up to the next literal and what the callback makes of
      that literal keeps the pass on course. */
  lemma PassStep(kind: PassKind, classify: Classifier, s: string, p: nat, a: nat, e: nat,
                 out: string, log: seq<Replacement>)
    requires p <= |s| && NextLiteral(kind, s, p) == Some((a, e))
    requires PassSoFar(kind, classify, s, p, out, log)
    ensures p <= a < e <= |s|
    ensures PassSoFar(kind, classify, s, e, out + (s[p..a] + Emit(classify, s, a, e).0), log + Emit(classify, s, a, e).1)
  {
    SubstitutedStep(kind, classify, s, p, a, e);
    var piece := Emit(classify, s, a, e);
    var rest := Substituted(kind, classify, s, e);
    AppendAssoc(out, s[p..a] + piece.0, rest.0);
    AppendAssoc(log, piece.1, rest.1);
  }

  /** With no literal left, the rest of the text is copied and the pass is
      complete. */
  lemma PassEnd(kind: PassKind, classify: Classifier, s: string, p: nat, out: string, log: seq<Replacement>)
    requires p <= |s| && NextLiteral(kind, s, p).None?
    requires PassSoFar(kind, classify, s, p, out, log)
    ensures Substituted(kind, classify, s, 0) == (out + s[p..], log)
  {
    assert Substituted(kind, classify, s, p) == (s[p..], []);
    assert log + [] == log;
  }

  /** One `re.sub` pass, left to right over the literals, appending to the
      log as it goes. */
  method SubstitutePass(kind: PassKind, classify: Classifier, s: string) returns (out: string, log: seq<Replacement>)
    ensures out == Substituted(kind, classify, s, 0).0
    ensures log == Substituted(kind, classify, s, 0).1
  {
    out, log := [], [];
    var p := 0;
    var next := NextLiteral(kind, s, 0);
    PassStart(kind, classify, s);
    while next.Some?
      invariant p <= |s| && next == NextLiteral(kind, s, p)
      invariant PassSoFar(kind, classify, s, p, out, log)
      decreases |s| - p
    {
      var a, e := next.value.0, next.value.1;
      var piece := Emit(classify, s, a, e);
      PassStep(kind, classify, s, p, a, e, out, log);
      out := out + (s[p..a] + piece.0);
      log := log + piece.1;
      p := e;
      next := NextLiteral(kind, s, p);
    }
    PassEnd(kind, classify, s, p, out, log);
    out := out + s[p..];
  }

  /** A pass changes the text exactly when it logs a replacement: kept
      literals are copied as they are, and a replacement puts an `@` where a
      literal began. */
  lemma {:induction false} SubstitutedChanges(kind: PassKind, classify: Classifier, s: string, p: nat)
    requires p <= |s| && NamesReferences(classify)
    ensures Substituted(kind, classify, s, p).1 == [] <==> Substituted(kind, classify, s, p).0 == s[p..]
    decreases |s| - p
  {
    var m := NextLiteral(kind, s, p);
    if m.Some? {
      var a, e := m.value.0, m.value.1;
      var piece := Emit(classify, s, a, e);
      var rest := Substituted(kind, classify, s, e);
      SubstitutedStep(kind, classify, s, p, a, e);
      SubstitutedChanges(kind, classify, s, e);
      var out := s[p..a] + piece.0 + rest.0;
      assert Substituted(kind, classify, s, p).0 == out;
      assert Substituted(kind, classify, s, p).1 == piece.1 + rest.1;
      SliceThree(s, p, a, e);
      EmitShape(classify, s, a, e);
      if piece.1 == [] {
        assert out == s[p..a] + s[a..e] + rest.0;
        if out == s[p..] {
          AppendCancel(s[p..a] + s[a..e], rest.0, s[p..a] + s[a..e], s[e..]);
        }
      } else {
        assert s[a] != '@';
        DiffersAt(s[p..a], piece.0, rest.0, s[p..]);
      }
    }
  }

  /** Text with a different character where the insertion begins is not the
      text with the insertion. */
  lemma DiffersAt(x: string, v: string, r: string, t: string)
    requires v != [] && |x| < |t| && t[|x|] != v[0]
    ensures x + v + r != t
  {
    assert (x + v + r)[|x|] == v[0];
  }

  /** r records a literal s[a..e] that the pass matched at or after p, the
      first 30 characters of the context before it in the text the pass
      reads, and the name the classifier chose for that pair. */
  ghost predicate LoggedMatch(kind: PassKind, s: string, p: nat, r: Replacement) {
    exists a: nat, e: nat :: p <= a < e <= |s| && MatchAt(kind, s, a, e) &&
      r.literal == s[a..e] && r.context == Head30(ContextBefore(s, a)) &&
      Suggest(r.literal, ContextBefore(s, a)) == Some(r.variable)
  }

  /** Every logged replacement records a literal the pass matched, with the
      first 30 characters of its context and the name the classifier chose. */
  lemma {:induction false} SubstitutedMatches(kind: PassKind, s: string, p: nat)
    requires p <= |s|
    ensures forall r <- Substituted(kind, Suggest, s, p).1 :: LoggedMatch(kind, s, p, r)
    decreases |s| - p
  {
    match NextLiteral(kind, s, p)
    case None =>
    case Some((a, e)) =>
      SubstitutedMatches(kind, s, e);
      var piece := Emit(Suggest, s, a, e);
      SubstitutedStep(kind, Suggest, s, p, a, e);
      forall r <- piece.1 ensures LoggedMatch(kind, s, p, r) {
        assert MatchAt(kind, s, a, e);
      }
      forall r <- Substituted(kind, Suggest, s, e).1 ensures LoggedMatch(kind, s, p, r) {
        assert LoggedMatch(kind, s, e, r);
      }
  }

  /** Every logged replacement records a literal the pass matched, with the
      first 30 characters of its context and the name the classifier chose;
      that name is one of the proposed variables and the literal is of the
      pass's kind. */
  lemma SubstitutedLog(kind: PassKind, s: string, p: nat)
    requires p <= |s|
    ensures forall r <- Substituted(kind, Suggest, s, p).1 ::
              r.variable in SuggestedNames && |r.context| <= 30 &&
              r.literal != [] && r.literal[0] == (if kind == RgbaPass then 'r' else '#')
    ensures forall r <- Substituted(kind, Suggest, s, p).1 :: LoggedMatch(kind, s, p, r)
  {
    SubstitutedMatches(kind, s, p);
    forall r <- Substituted(kind, Suggest, s, p).1
      ensures r.variable in SuggestedNames && |r.context| <= 30 &&
              r.literal != [] && r.literal[0] == (if kind == RgbaPass then 'r' else '#')
    {
      LoggedMatchShape(kind, s, p, r);
    }
  }

  /** A logged match names a proposed variable, keeps at most 30 characters
      of context and records a literal of the pass's kind. */
  lemma LoggedMatchShape(kind: PassKind, s: string, p: nat, r: Replacement)
    requires LoggedMatch(kind, s, p, r)
    ensures r.variable in SuggestedNames && |r.context| <= 30
    ensures r.literal != [] && r.literal[0] == (if kind == RgbaPass then 'r' else '#')
  {
    var a: nat, e: nat :| p <= a < e <= |s| && MatchAt(kind, s, a, e) &&
      r.literal == s[a..e] && r.context == Head30(ContextBefore(s, a)) &&
      Suggest(r.literal, ContextBefore(s, a)) == Some(r.variable);
    MatchAtStart(kind, s, a, e);
    assert r.literal[0] == s[a];
  }

  /** A match of the pass starts with the pass's opening character. */
  lemma MatchAtStart(kind: PassKind, s: string, a: nat, e: nat)
    requires MatchAt(kind, s, a, e)
    ensures a < e <= |s| && s[a] == (if kind == RgbaPass then 'r' else '#')
  {
    match kind
    case RgbaPass =>
    case HexPass =>
  }

  /** The whole file: the rgba pass, then the hex pass over its result. */
  function Templatized(original: string): (r: (string, seq<Replacement>))
    ensures forall x <- r.1 :: x.variable in SuggestedNames
  {
    var first := Substituted(RgbaPass, Suggest, original, 0);
    var second := Substituted(HexPass, Suggest, first.0, 0);
    SubstitutedLog(RgbaPass, original, 0);
    SubstitutedLog(HexPass, first.0, 0);
    (second.0, first.1 + second.1)
  }

  /** A run that replaces nothing leaves the text as it was. */
  lemma TemplatizedUnchanged(original: string)
    ensures Templatized(original).1 == [] ==> Templatized(original).0 == original
  {
    var first := Substituted(RgbaPass, Suggest, original, 0);
    SuggestNamesReferences();
    SubstitutedChanges(RgbaPass, Suggest, original, 0);
    SubstitutedChanges(HexPass, Suggest, first.0, 0);
    assert original[0..] == original;
    assert first.0[0..] == first.0;
  }

  /** The statistics `templatize_theme_file` returns. */
  datatype Report = Report(replacements: nat, details: seq<Replacement>, modified: bool)

  /** The files a run writes: the backup of the original and the new text. */
  datatype Write = Write(backup: string, content: string)

  /** `templatize_theme_file` on the text of a theme file: the two passes, the
      report, and the files written, which are none on a dry run or when the
      text did not change. */
  method TemplatizeThemeFile(original: string, dryRun: bool) returns (report: Report, written: Option<Write>)
    ensures var (content, details) := Templatized(original);
            report == Report(|details|, details, content != original) &&
            written == (if !dryRun && content != original then Some(Write(original, content)) else None)
    ensures report.replacements == 0 ==> !report.modified
  {
    var content := original;
    var rgbaLog, hexLog;
    content, rgbaLog := SubstitutePass(RgbaPass, Suggest, content);
    content, hexLog := SubstitutePass(HexPass, Suggest, content);
    var details := rgbaLog + hexLog;
    TemplatizedUnchanged(original);
    report := Report(|details|, details, content != original);
    written := if !dryRun && report.modified then Some(Write(original, content)) else None;
  }
}

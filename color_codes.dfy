/** Colour helpers shared by the two colour scripts: `#rrggbb` text and RGB triples, the
    colour distance compared against a tolerance, and the "neutral" (grey) test. */
module ColorCodes {
  import opened Wrappers

  /** One 8-bit channel, as PIL returns it for an RGB image. */
  type Channel = x: int | 0 <= x < 256

  datatype Rgb = Rgb(r: Channel, g: Channel, b: Channel)

  predicate IsHexChar(c: char) {
    '0' <= c <= '9' || 'a' <= c <= 'f' || 'A' <= c <= 'F'
  }

  predicate IsLowerHexChar(c: char) {
    '0' <= c <= '9' || 'a' <= c <= 'f'
  }

  /** The lower-case digit that `'{:02x}'` prints for `d`. */
  function HexDigit(d: int): (c: char)
    requires 0 <= d < 16
    ensures IsLowerHexChar(c)
  {
    if d < 10 then (48 + d) as char else (97 + d - 10) as char
  }

  /** The value of one base-16 digit, in either case, as `int(_, 16)` reads it. */
  function HexValue(c: char): (d: int)
    requires IsHexChar(c)
    ensures 0 <= d < 16
  {
    if '0' <= c <= '9' then c as int - 48
    else if 'a' <= c <= 'f' then c as int - 97 + 10
    else c as int - 65 + 10
  }

  function LowerHex(c: char): char
    requires IsHexChar(c)
  {
    if 'A' <= c <= 'F' then (c as int + 32) as char else c
  }

  lemma HexDigitValue(d: int)
    requires 0 <= d < 16
    ensures HexValue(HexDigit(d)) == d
  {
  }

  lemma HexValueDigit(c: char)
    requires IsHexChar(c)
    ensures HexDigit(HexValue(c)) == LowerHex(c)
  {
  }

  /** `'{:02x}'.format(n)` for a channel: always exactly two lower-case digits. */
  function ByteToHex(n: Channel): string {
    [HexDigit(n / 16), HexDigit(n % 16)]
  }

  /** `rgb_to_hex`: `#` followed by six lower-case hex digits. */
  function RgbToHex(c: Rgb): (s: string)
    ensures |s| == 7 && s[0] == '#'
    ensures forall i :: 1 <= i < 7 ==> IsLowerHexChar(s[i])
  {
    "#" + ByteToHex(c.r) + ByteToHex(c.g) + ByteToHex(c.b)
  }

  /** `hex_color.lstrip('#')`: every leading `#` is removed. */
  function StripHashes(s: string): (t: string)
    ensures |t| <= |s| && t == s[|s| - |t|..]
    ensures forall k :: 0 <= k < |s| - |t| ==> s[k] == '#'
    ensures t == [] || t[0] != '#'
  {
    if |s| > 0 && s[0] == '#' then StripHashes(s[1..]) else s
  }

  /** Python's slice `s[i:j]` for `0 <= i <= j`: bounds past the end are clamped. */
  function Slice(s: string, i: nat, j: nat): (t: string)
    requires i <= j
    ensures |t| <= j - i
  {
    if j <= |s| then s[i..j] else if i <= |s| then s[i..] else []
  }

  /** `int(p, 16)` for a slice of at most two characters made of hex digits; anything else
      (in particular an empty slice) raises `ValueError`, here `None`. */
  function ParseHexPair(p: string): (v: Option<Channel>)
    requires |p| <= 2
    ensures v.Some? <==> |p| > 0 && forall i :: 0 <= i < |p| ==> IsHexChar(p[i])
  {
    if |p| == 1 && IsHexChar(p[0]) then Some(HexValue(p[0]))
    else if |p| == 2 && IsHexChar(p[0]) && IsHexChar(p[1]) then Some(16 * HexValue(p[0]) + HexValue(p[1]))
    else None
  }

  /** `hex_to_rgb`: strip the leading `#`s and read the slices `[0:2]`, `[2:4]`, `[4:6]`;
      `None` where Python raises `ValueError`. Characters past the sixth are ignored. */
  function HexToRgb(h: string): Option<Rgb> {
    var s := StripHashes(h);
    var r := ParseHexPair(Slice(s, 0, 2));
    var g := ParseHexPair(Slice(s, 2, 4));
    var b := ParseHexPair(Slice(s, 4, 6));
    if r.Some? && g.Some? && b.Some? then Some(Rgb(r.value, g.value, b.value)) else None
  }

  /** The slice `s[i:i + 2]` parses exactly when it is not empty and all hex digits. */
  lemma SliceParses(s: string, i: nat)
    ensures ParseHexPair(Slice(s, i, i + 2)).Some? <==>
      i < |s| && forall k :: i <= k < |s| && k < i + 2 ==> IsHexChar(s[k])
  {
    var p := Slice(s, i, i + 2);
    assert forall k :: 0 <= k < |p| ==> p[k] == s[i + k];
  }

  /** `hex_to_rgb` succeeds exactly when at least five characters follow the leading `#`s
      and the first six of them (all of them, if there are five) are hex digits: a
      five-digit code is read with a one-digit blue channel. */
  lemma HexToRgbAccepts(h: string)
    ensures var s := StripHashes(h);
      HexToRgb(h).Some? <==> |s| >= 5 && forall i :: 0 <= i < |s| && i < 6 ==> IsHexChar(s[i])
  {
    ThreeSlicesParse(StripHashes(h));
  }

  /** The three slices of `hex_to_rgb` all parse exactly when `s` has at least five
      characters and its first six (or five) are hex digits. */
  lemma ThreeSlicesParse(s: string)
    ensures (ParseHexPair(Slice(s, 0, 2)).Some? && ParseHexPair(Slice(s, 2, 4)).Some?
             && ParseHexPair(Slice(s, 4, 6)).Some?)
      <==> |s| >= 5 && forall i :: 0 <= i < |s| && i < 6 ==> IsHexChar(s[i])
  {
    SliceParses(s, 0);
    SliceParses(s, 2);
    SliceParses(s, 4);
  }

  lemma ByteRoundTrip(n: Channel)
    ensures ParseHexPair(ByteToHex(n)) == Some(n)
  {
    HexDigitValue(n / 16);
    HexDigitValue(n % 16);
  }

  /** Reading back what `rgb_to_hex` wrote gives the colour back. */
  lemma HexRoundTrip(c: Rgb)
    ensures HexToRgb(RgbToHex(c)) == Some(c)
  {
    var h := RgbToHex(c);
    var s := ByteToHex(c.r) + ByteToHex(c.g) + ByteToHex(c.b);
    assert h == "#" + s;
    assert StripHashes(h) == s by {
      assert StripHashes(h) == StripHashes(h[1..]);
      assert h[1..] == s;
    }
    PairsOfSix(ByteToHex(c.r), ByteToHex(c.g), ByteToHex(c.b));
    ByteRoundTrip(c.r);
    ByteRoundTrip(c.g);
    ByteRoundTrip(c.b);
  }

  lemma PairsOfSix(x: string, y: string, z: string)
    requires |x| == 2 && |y| == 2 && |z| == 2
    ensures Slice(x + y + z, 0, 2) == x
    ensures Slice(x + y + z, 2, 4) == y
    ensures Slice(x + y + z, 4, 6) == z
  {
    var s := x + y + z;
    assert s[0..2] == x;
    assert s[2..4] == y;
    assert s[4..6] == z;
  }

  /** A single leading `#` does not change what `hex_to_rgb` reads. */
  lemma HashDropped(h: string)
    requires |h| > 1 && h[0] == '#' && h[1] != '#'
    ensures HexToRgb(h[1..]) == HexToRgb(h)
  {
    assert StripHashes(h) == StripHashes(h[1..]);
    assert StripHashes(h[1..]) == h[1..];
  }

  /** The text starts with six hex digits (in either case). */
  predicate SixHexDigits(s: string) {
    |s| >= 6 && IsHexChar(s[0]) && IsHexChar(s[1]) && IsHexChar(s[2])
    && IsHexChar(s[3]) && IsHexChar(s[4]) && IsHexChar(s[5])
  }

  /** `#` and the first six digits of `s`, lower-cased. */
  function CanonicalHex(s: string): string
    requires SixHexDigits(s)
  {
    ['#', LowerHex(s[0]), LowerHex(s[1]), LowerHex(s[2]), LowerHex(s[3]), LowerHex(s[4]), LowerHex(s[5])]
  }

  /** Whenever the text after the leading `#`s starts with six hex digits, `hex_to_rgb`
      succeeds and writing the colour back gives `#` and those six digits in lower case. */
  lemma HexCanonical(h: string)
    requires SixHexDigits(StripHashes(h))
    ensures HexToRgb(h).Some?
    ensures RgbToHex(HexToRgb(h).value) == CanonicalHex(StripHashes(h))
  {
    var s := StripHashes(h);
    SixParse(h);
    SixCanonical(s);
  }

  /** The colour that the six digits of `s` spell. */
  function SixValue(s: string): Rgb
    requires SixHexDigits(s)
  {
    PairInRange(s[0], s[1]);
    PairInRange(s[2], s[3]);
    PairInRange(s[4], s[5]);
    Rgb(16 * HexValue(s[0]) + HexValue(s[1]), 16 * HexValue(s[2]) + HexValue(s[3]), 16 * HexValue(s[4]) + HexValue(s[5]))
  }

  lemma PairInRange(x: char, y: char)
    requires IsHexChar(x) && IsHexChar(y)
    ensures 0 <= 16 * HexValue(x) + HexValue(y) < 256
  {
  }

  lemma SixParse(h: string)
    requires SixHexDigits(StripHashes(h))
    ensures HexToRgb(h) == Some(SixValue(StripHashes(h)))
  {
    var s := StripHashes(h);
    var v := SixValue(s);
    PairParses(s, 0);
    PairParses(s, 2);
    PairParses(s, 4);
    assert ParseHexPair(Slice(s, 0, 2)) == Some(v.r);
    assert ParseHexPair(Slice(s, 2, 4)) == Some(v.g);
    assert ParseHexPair(Slice(s, 4, 6)) == Some(v.b);
  }

  lemma SixCanonical(s: string)
    requires SixHexDigits(s)
    ensures RgbToHex(SixValue(s)) == CanonicalHex(s)
  {
    var v := SixValue(s);
    PairCanonical(s[0], s[1]);
    PairCanonical(s[2], s[3]);
    PairCanonical(s[4], s[5]);
    HashAndPairs(ByteToHex(v.r), ByteToHex(v.g), ByteToHex(v.b));
  }

  lemma HashAndPairs(x: string, y: string, z: string)
    requires |x| == 2 && |y| == 2 && |z| == 2
    ensures "#" + x + y + z == ['#', x[0], x[1], y[0], y[1], z[0], z[1]]
  {
  }

  lemma PairParses(s: string, i: nat)
    requires i + 2 <= |s| && IsHexChar(s[i]) && IsHexChar(s[i + 1])
    ensures ParseHexPair(Slice(s, i, i + 2)) == Some(16 * HexValue(s[i]) + HexValue(s[i + 1]))
  {
    assert Slice(s, i, i + 2) == [s[i], s[i + 1]];
  }

  lemma PairCanonical(x: char, y: char)
    requires IsHexChar(x) && IsHexChar(y)
    ensures var n := 16 * HexValue(x) + HexValue(y);
      0 <= n < 256 && ByteToHex(n) == [LowerHex(x), LowerHex(y)]
  {
    var n := 16 * HexValue(x) + HexValue(y);
    assert n / 16 == HexValue(x) && n % 16 == HexValue(y);
    HexValueDigit(x);
    HexValueDigit(y);
  }

  /** The squared Euclidean distance between two colours. */
  function DistanceSquared(a: Rgb, b: Rgb): nat {
    (a.r - b.r) * (a.r - b.r) + (a.g - b.g) * (a.g - b.g) + (a.b - b.b) * (a.b - b.b)
  }

  /** `color_distance(a, b) < t`, with the square root compared exactly: a distance is never
      negative, so nothing is within a tolerance `t <= 0`, and for `t > 0` the test is
      `d < t * t`. */
  predicate Within(a: Rgb, b: Rgb, t: int) {
    t > 0 && DistanceSquared(a, b) < t * t
  }

  lemma WithinSymmetric(a: Rgb, b: Rgb, t: int)
    ensures Within(a, b, t) <==> Within(b, a, t)
  {
  }

  function Max3(x: int, y: int, z: int): int {
    if x >= y && x >= z then x else if y >= z then y else z
  }

  function Min3(x: int, y: int, z: int): int {
    if x <= y && x <= z then x else if y <= z then y else z
  }

  /** `is_neutral`: the spread between the largest and the smallest channel is below `t`. */
  predicate IsNeutral(p: Rgb, t: int) {
    Max3(p.r, p.g, p.b) - Min3(p.r, p.g, p.b) < t
  }

  function Abs(x: int): nat { if x < 0 then -x else x }

  /** A colour is neutral exactly when every two of its channels differ by less than `t`. */
  lemma NeutralIffChannelsClose(p: Rgb, t: int)
    ensures IsNeutral(p, t) <==> Abs(p.r - p.g) < t && Abs(p.g - p.b) < t && Abs(p.r - p.b) < t
  {
  }
}

/**
 * `Color(hex:)`: the alpha, red, green and blue bytes read from a hexadecimal
 * string of 3, 6 or 8 digits, before they are divided by 255.
 */
module HexColor {
  import opened Chars
  import opened Strings

  /** The four components, each meant to be a byte. */
  datatype Argb = Argb(alpha: nat, red: nat, green: nat, blue: nat)

  /** What any other length of string gives. */
  const OpaqueBlack := Argb(255, 0, 0, 0)

  predicate IsByte(n: nat) { n <= 0xFF }

  /** `hex.trimmingCharacters(in: CharacterSet.alphanumerics.inverted)`. */
  function Trimmed(hex: string): string
  {
    Trim(hex, AlphanumericsInverted)
  }

  function Pow16(n: nat): (p: nat)
    ensures p >= 1
  {
    if n == 0 then 1 else 16 * Pow16(n - 1)
  }

  lemma {:induction false} Pow16Monotone(m: nat, n: nat)
    requires m <= n
    ensures Pow16(m) <= Pow16(n)
    decreases n
  {
    if m < n {
      Pow16Monotone(m, n - 1);
    }
  }

  predicate AllHexDigits(s: string)
  {
    forall k :: 0 <= k < |s| ==> IsHexDigit(s[k])
  }

  /**
   * The value of a hexadecimal digit. HexValue is only ever applied to runs
   * of digits, so the 0 for any other character is never read.
   */
  function D(c: char): (v: nat)
    ensures v < 16
  {
    if IsHexDigit(c) then HexDigitValue(c) else 0
  }

  /** The number a string of hexadecimal digits denotes, most significant digit first. */
  function HexValue(digits: string): (v: nat)
    ensures v < Pow16(|digits|)
    decreases |digits|
  {
    if digits == [] then 0
    else HexValue(digits[..|digits| - 1]) * 16 + D(digits[|digits| - 1])
  }

  /** The length of the longest run of hexadecimal digits at the start of `s`. */
  function HexRun(s: string): (n: nat)
    ensures n <= |s|
    ensures forall k :: 0 <= k < n ==> IsHexDigit(s[k])
    ensures n < |s| ==> !IsHexDigit(s[n])
    decreases |s|
  {
    if s != [] && IsHexDigit(s[0]) then 1 + HexRun(s[1..]) else 0
  }

  /** `s` opens with `0x` or `0X`. */
  predicate HasHexPrefix(s: string)
  {
    |s| >= 2 && s[0] == '0' && (s[1] == 'x' || s[1] == 'X')
  }

  /**
   * `Scanner(string: s).scanHexInt64(&int)` starting from `int == 0`: an
   * optional `0x` or `0X`, then the longest run of hexadecimal digits; 0
   * when there is none.
   */
  function ScanHex(s: string): nat
  {
    var body := if HasHexPrefix(s) then s[2..] else s;
    HexValue(body[..HexRun(body)])
  }

  /** The scanned number has no more digits than the string has characters. */
  lemma ScanBound(s: string)
    ensures ScanHex(s) < Pow16(|s|)
  {
    var body := if HasHexPrefix(s) then s[2..] else s;
    Pow16Monotone(HexRun(body), |s|);
  }

  lemma Pow16Lengths()
    ensures Pow16(3) == 0x1000 && Pow16(6) == 0x100_0000 && Pow16(8) == 0x1_0000_0000
  {
  }

  /**
   * The four components for the trimmed string's length: 3 digits give one
   * nibble per channel, times 17; 6 digits give one byte each to red, green
   * and blue; 8 digits give one byte each to alpha, red, green and blue,
   * counted from the most significant end; anything else is opaque black.
   * Dividing by a power of two is the right shift, and `%` the mask.
   */
  function ColorComponents(hex: string): (c: Argb)
    ensures IsByte(c.alpha) && IsByte(c.red) && IsByte(c.green) && IsByte(c.blue)
    ensures |Trimmed(hex)| != 3 && |Trimmed(hex)| != 6 && |Trimmed(hex)| != 8 ==> c == OpaqueBlack
    ensures |Trimmed(hex)| != 8 ==> c.alpha == 0xFF
  {
    var t := Trimmed(hex);
    var v := ScanHex(t);
    ScanBound(t);
    Pow16Lengths();
    if |t| == 3 then
      Argb(0xFF, (v / 0x100) * 17, (v / 0x10 % 0x10) * 17, (v % 0x10) * 17)
    else if |t| == 6 then
      Argb(0xFF, v / 0x1_0000, v / 0x100 % 0x100, v % 0x100)
    else if |t| == 8 then
      Argb(v / 0x100_0000, v / 0x1_0000 % 0x100, v / 0x100 % 0x100, v % 0x100)
    else
      OpaqueBlack
  }

  // ---------------------------------------------------------------------------
  // What the formats mean
  // ---------------------------------------------------------------------------

  /** A string made only of hexadecimal digits is scanned whole. */
  lemma ScanAllDigits(t: string)
    requires AllHexDigits(t)
    ensures ScanHex(t) == HexValue(t)
  {
    assert !HasHexPrefix(t) by {
      if |t| >= 2 { assert IsHexDigit(t[1]); }
    }
    assert t[..HexRun(t)] == t;
  }

  /** One more digit on the right multiplies by 16 and adds it. */
  lemma HexValueSnoc(t: string, n: nat)
    requires 0 < n <= |t|
    ensures HexValue(t[..n]) == HexValue(t[..n - 1]) * 16 + D(t[n - 1])
  {
    assert t[..n][..n - 1] == t[..n - 1];
  }

  /** Two digits make one byte. */
  lemma Pair(t: string, i: nat)
    requires i + 2 <= |t|
    ensures HexValue(t[i..i + 2]) == D(t[i]) * 16 + D(t[i + 1])
  {
    var p := t[i..i + 2];
    HexValueSnoc(p, 2);
    HexValueSnoc(p, 1);
    assert p[..2] == p;
  }

  lemma MulPositive(k: int, d: int)
    requires k >= 1 && d > 0
    ensures k * d >= d
  {
    assert k * d == (k - 1) * d + d;
    assert (k - 1) * d >= 0;
  }

  /** Quotient and remainder are unique. */
  lemma DivMod(q: nat, r: nat, d: nat)
    requires 0 <= r < d
    ensures (q * d + r) / d == q && (q * d + r) % d == r
  {
    var n := q * d + r;
    var k := n / d - q;
    assert n == (n / d) * d + n % d;
    assert k * d == r - n % d by {
      assert (n / d) * d == k * d + q * d;
    }
    if k >= 1 {
      MulPositive(k, d);
    } else if k <= -1 {
      MulPositive(-k, d);
    }
    assert k == 0;
  }

  /** The value of three digits, taken apart again by the shifts and masks. */
  lemma HexValue3(t: string)
    requires |t| == 3
    ensures HexValue(t) / 0x100 == D(t[0])
    ensures HexValue(t) / 0x10 % 0x10 == D(t[1])
    ensures HexValue(t) % 0x10 == D(t[2])
  {
    assert t[..3] == t;
    HexValueSnoc(t, 3);
    HexValueSnoc(t, 2);
    HexValueSnoc(t, 1);
    ThreeNibbles(HexValue(t), D(t[0]), D(t[1]), D(t[2]));
  }

  /** Three nibbles packed most significant first come apart again by shifts and masks. */
  lemma ThreeNibbles(v: nat, x: nat, y: nat, z: nat)
    requires y < 0x10 && z < 0x10
    requires v == (x * 0x10 + y) * 0x10 + z
    ensures v / 0x100 == x && v / 0x10 % 0x10 == y && v % 0x10 == z
  {
    DivMod(x * 0x10 + y, z, 0x10);
    DivMod(x, y, 0x10);
    assert v == x * 0x100 + (y * 0x10 + z);
    DivMod(x, y * 0x10 + z, 0x100);
  }

  lemma MulDistributes(x: int, p: int, y: int)
    ensures (x * p + y) * 16 == x * (p * 16) + y * 16
  {
  }

  /** Appending digits shifts the value left by as many places. */
  lemma {:induction false} HexValueAppend(a: string, b: string)
    ensures HexValue(a + b) == HexValue(a) * Pow16(|b|) + HexValue(b)
    decreases |b|
  {
    var ab := a + b;
    if b == [] {
      assert ab == a;
    } else {
      var b' := b[..|b| - 1];
      var c := b[|b| - 1];
      assert ab[..|ab| - 1] == a + b';
      assert ab[|ab| - 1] == c;
      HexValueAppend(a, b');
      var x, y := HexValue(a), HexValue(b');
      var p := Pow16(|b'|);
      assert Pow16(|b|) == p * 16;
      assert HexValue(b) == y * 16 + D(c);
      assert HexValue(ab) == (x * p + y) * 16 + D(c);
      MulDistributes(x, p, y);
    }
  }

  /** Cutting the digits at `i`: the leading part counts `|t| - i` places higher. */
  lemma HexValueSplit(t: string, i: nat)
    requires i <= |t|
    ensures HexValue(t) == HexValue(t[..i]) * Pow16(|t| - i) + HexValue(t[i..])
  {
    assert t == t[..i] + t[i..];
    HexValueAppend(t[..i], t[i..]);
  }

  /** Three bytes packed most significant first come apart again by shifts and masks. */
  lemma ThreeBytes(v: nat, x: nat, y: nat, z: nat)
    requires y < 0x100 && z < 0x100
    requires v == (x * 0x100 + y) * 0x100 + z
    ensures v / 0x1_0000 == x && v / 0x100 % 0x100 == y && v % 0x100 == z
  {
    DivMod(x * 0x100 + y, z, 0x100);
    DivMod(x, y, 0x100);
    assert v == x * 0x1_0000 + (y * 0x100 + z);
    DivMod(x, y * 0x100 + z, 0x1_0000);
  }

  /** Four bytes packed most significant first come apart again by shifts and masks. */
  lemma FourBytes(v: nat, h: nat, x: nat, y: nat, z: nat, w: nat)
    requires y < 0x100 && z < 0x100 && w < 0x100
    requires h == (x * 0x100 + y) * 0x100 + z && v == h * 0x100 + w
    ensures v / 0x100_0000 == x && v / 0x1_0000 % 0x100 == y
    ensures v / 0x100 % 0x100 == z && v % 0x100 == w
  {
    ThreeBytes(h, x, y, z);
    DivMod(h, w, 0x100);
    assert v == (x * 0x100 + y) * 0x1_0000 + (z * 0x100 + w);
    DivMod(x * 0x100 + y, z * 0x100 + w, 0x1_0000);
    assert v == x * 0x100_0000 + ((y * 0x100 + z) * 0x100 + w);
    DivMod(x, (y * 0x100 + z) * 0x100 + w, 0x100_0000);
  }

  /** Two more digits on the right shift the value one byte up. */
  lemma HexValueByte(t: string, n: nat)
    requires 2 <= n <= |t|
    ensures HexValue(t[..n]) == HexValue(t[..n - 2]) * 0x100 + HexValue(t[n - 2..n])
    ensures HexValue(t[n - 2..n]) < 0x100
  {
    var a := t[..n];
    assert a[..n - 2] == t[..n - 2] && a[n - 2..] == t[n - 2..n];
    HexValueSplit(a, n - 2);
    assert Pow16(2) == 0x100;
  }

  /** Six digits are three bytes, most significant first. */
  lemma ThreeBytesPacked(t: string)
    requires |t| == 6
    ensures HexValue(t[0..2]) < 0x100 && HexValue(t[2..4]) < 0x100 && HexValue(t[4..6]) < 0x100
    ensures HexValue(t) == (HexValue(t[0..2]) * 0x100 + HexValue(t[2..4])) * 0x100 + HexValue(t[4..6])
  {
    assert t[..6] == t;
    HexValueByte(t, 6);
    assert t[..2] == t[0..2];
    HexValueByte(t, 4);
  }

  /** Eight digits are a six-digit value shifted by one byte, plus the last byte. */
  lemma FourBytesPacked(t: string)
    requires |t| == 8
    ensures HexValue(t[0..2]) < 0x100 && HexValue(t[2..4]) < 0x100
    ensures HexValue(t[4..6]) < 0x100 && HexValue(t[6..8]) < 0x100
    ensures HexValue(t[..6]) == (HexValue(t[0..2]) * 0x100 + HexValue(t[2..4])) * 0x100 + HexValue(t[4..6])
    ensures HexValue(t) == HexValue(t[..6]) * 0x100 + HexValue(t[6..8])
  {
    assert t[..8] == t;
    HexValueByte(t, 8);
    HexValueByte(t, 6);
    assert t[..2] == t[0..2];
    HexValueByte(t, 4);
  }

  /** The value of six digits, taken apart again into its three bytes. */
  lemma HexValue6(t: string)
    requires |t| == 6
    ensures HexValue(t) / 0x1_0000 == HexValue(t[0..2])
    ensures HexValue(t) / 0x100 % 0x100 == HexValue(t[2..4])
    ensures HexValue(t) % 0x100 == HexValue(t[4..6])
  {
    ThreeBytesPacked(t);
    ThreeBytes(HexValue(t), HexValue(t[0..2]), HexValue(t[2..4]), HexValue(t[4..6]));
  }

  /** The value of eight digits, taken apart again into its four bytes. */
  lemma HexValue8(t: string)
    requires |t| == 8
    ensures HexValue(t) / 0x100_0000 == HexValue(t[0..2])
    ensures HexValue(t) / 0x1_0000 % 0x100 == HexValue(t[2..4])
    ensures HexValue(t) / 0x100 % 0x100 == HexValue(t[4..6])
    ensures HexValue(t) % 0x100 == HexValue(t[6..8])
  {
    FourBytesPacked(t);
    FourBytes(HexValue(t), HexValue(t[..6]), HexValue(t[0..2]), HexValue(t[2..4]), HexValue(t[4..6]), HexValue(t[6..8]));
  }

  /** Three digits: alpha 255, and each digit `d` gives the component `d * 17`. */
  lemma ThreeDigits(hex: string)
    requires |Trimmed(hex)| == 3 && AllHexDigits(Trimmed(hex))
    ensures var t := Trimmed(hex);
      ColorComponents(hex) == Argb(0xFF, D(t[0]) * 17, D(t[1]) * 17, D(t[2]) * 17)
  {
    var t := Trimmed(hex);
    ScanAllDigits(t);
    HexValue3(t);
  }

  /** Six digits: alpha 255, then red, green and blue from the three digit pairs. */
  lemma SixDigits(hex: string)
    requires |Trimmed(hex)| == 6 && AllHexDigits(Trimmed(hex))
    ensures var t := Trimmed(hex);
      ColorComponents(hex) == Argb(0xFF, HexValue(t[0..2]), HexValue(t[2..4]), HexValue(t[4..6]))
  {
    var t := Trimmed(hex);
    ScanAllDigits(t);
    HexValue6(t);
  }

  /** Eight digits: alpha, red, green and blue from the four digit pairs in that order. */
  lemma EightDigits(hex: string)
    requires |Trimmed(hex)| == 8 && AllHexDigits(Trimmed(hex))
    ensures var t := Trimmed(hex);
      ColorComponents(hex) == Argb(HexValue(t[0..2]), HexValue(t[2..4]), HexValue(t[4..6]), HexValue(t[6..8]))
  {
    var t := Trimmed(hex);
    ScanAllDigits(t);
    HexValue8(t);
  }

  /**
   * A trimmed string that does not open with a hexadecimal digit scans as 0:
   * the colour is black, opaque unless the length is 8, where alpha is read
   * from the scanned 0 as well.
   */
  lemma NoLeadingDigitIsBlack(hex: string)
    requires Trimmed(hex) == [] || !IsHexDigit(Trimmed(hex)[0])
    ensures ColorComponents(hex) == if |Trimmed(hex)| == 8 then Argb(0, 0, 0, 0) else OpaqueBlack
  {
    var t := Trimmed(hex);
    assert !HasHexPrefix(t);
    assert HexRun(t) == 0;
    assert t[..0] == [];
  }

  /**
   * The scan stops at the first character that is not a hexadecimal digit:
   * what follows it is never read.
   */
  lemma ScanStopsAtNonDigit(digits: string, rest: string)
    requires AllHexDigits(digits) && !HasHexPrefix(digits + rest)
    requires rest == [] || !IsHexDigit(rest[0])
    ensures ScanHex(digits + rest) == HexValue(digits)
  {
    RunOfDigits(digits, rest);
  }

  /** A `0x` or `0X` in front of the digits is skipped. */
  lemma ScanSkipsPrefix(x: char, digits: string, rest: string)
    requires x == 'x' || x == 'X'
    requires AllHexDigits(digits)
    requires rest == [] || !IsHexDigit(rest[0])
    ensures ScanHex(['0', x] + digits + rest) == HexValue(digits)
  {
    var s := ['0', x] + digits + rest;
    assert HasHexPrefix(s);
    assert s[2..] == digits + rest;
    RunOfDigits(digits, rest);
  }

  lemma {:induction false} RunOfDigits(digits: string, rest: string)
    requires AllHexDigits(digits)
    requires rest == [] || !IsHexDigit(rest[0])
    ensures HexRun(digits + rest) == |digits|
    ensures (digits + rest)[..|digits|] == digits
    decreases |digits|
  {
    if digits != [] {
      assert (digits + rest)[1..] == digits[1..] + rest;
      RunOfDigits(digits[1..], rest);
    } else {
      assert digits + rest == rest;
    }
  }

  /**
   * Only characters outside the ASCII letters and digits at the two ends are
   * dropped; interior ones stay and count toward the length.
   */
  lemma TrimmedCore(before: string, core: string, after: string)
    requires forall k :: 0 <= k < |before| ==> !IsAlphanumeric(before[k])
    requires forall k :: 0 <= k < |after| ==> !IsAlphanumeric(after[k])
    requires core != [] ==> IsAlphanumeric(core[0]) && IsAlphanumeric(core[|core| - 1])
    ensures Trimmed(before + core + after) == core
  {
    TrimPadded(before, core, after, AlphanumericsInverted);
  }

  /** `Color(hex: "#FFF")` is opaque white. */
  lemma WhiteFromShortForm(hex: string)
    requires hex == "#FFF"
    ensures ColorComponents(hex) == Argb(0xFF, 0xFF, 0xFF, 0xFF)
  {
    var t := hex[1..];
    assert t == "FFF" && hex == "#" + t + "";
    TrimmedCore("#", t, "");
    ThreeDigits(hex);
  }

  /** The value of a two-digit string. */
  lemma TwoDigits(a: char, b: char)
    requires IsHexDigit(a) && IsHexDigit(b)
    ensures HexValue([a, b]) == D(a) * 16 + D(b)
  {
    Pair([a, b], 0);
    assert [a, b][0..2] == [a, b];
  }

  lemma ArgbExampleBytes(t: string)
    requires t == "80FF5733"
    ensures AllHexDigits(t)
    ensures HexValue(t[0..2]) == 0x80 && HexValue(t[2..4]) == 0xFF
    ensures HexValue(t[4..6]) == 0x57 && HexValue(t[6..8]) == 0x33
  {
    assert t[0..2] == ['8', '0'] && t[2..4] == ['F', 'F'];
    assert t[4..6] == ['5', '7'] && t[6..8] == ['3', '3'];
    TwoDigits('8', '0');
    TwoDigits('F', 'F');
    TwoDigits('5', '7');
    TwoDigits('3', '3');
  }

  /** `Color(hex: "#80FF5733")` is read as alpha 0x80, then red, green and blue. */
  lemma ArgbExample(hex: string)
    requires hex == "#80FF5733"
    ensures ColorComponents(hex) == Argb(0x80, 0xFF, 0x57, 0x33)
  {
    var t := hex[1..];
    assert t == "80FF5733";
    ArgbExampleBytes(t);
    assert hex == "#" + t + "";
    TrimmedCore("#", t, "");
    EightDigits(hex);
  }

  /**
   * `Color(hex: "#F.F")`: the interior dot stays, so the trimmed length is 3,
   * but the scan stops at it and reads only the first digit, 15, which lands
   * in the blue nibble.
   */
  lemma InteriorDotExample(hex: string)
    requires hex == "#F.F"
    ensures ColorComponents(hex) == Argb(0xFF, 0, 0, 0xFF)
  {
    var t := hex[1..];
    assert t == "F.F" && hex == "#" + t + "";
    TrimmedCore("#", t, "");
    assert t == "F" + ".F";
    ScanStopsAtNonDigit("F", ".F");
    assert HexValue("F") == HexValue([]) * 16 + D('F');
  }
}

/**
 * Hex colour decoding of Swift/ColorExtension.swift: `Color(hex:)`,
 * `NSColor(hex:alpha:)`, `NSColor(red:green:blue:alpha:)` and
 * `UIColor(hex:)`. Swift's `UInt64`/`UInt` values are naturals below 2^64;
 * `>>` is `Shr`, `<<` is `Shl` and `&` is the bitwise `BitAnd`. Channels are
 * the integers the code computes before it divides them by 255.
 */
module ColorExtension {
  import opened Wrappers
  import opened Text
  import StringExtension

  const UInt64Max: nat := 0xFFFF_FFFF_FFFF_FFFF

  // ---------------------------------------------------------------------
  // Unsigned integer arithmetic
  // ---------------------------------------------------------------------

  function Pow2(k: nat): (p: nat)
    ensures p >= 1
  {
    if k == 0 then 1 else 2 * Pow2(k - 1)
  }

  function Pow16(n: nat): (p: nat)
    ensures p >= 1
  {
    if n == 0 then 1 else 16 * Pow16(n - 1)
  }

  /** `v >> k` */
  function Shr(v: nat, k: nat): nat
  {
    if k == 0 then v else Shr(v / 2, k - 1)
  }

  /** `v << k`, for the small mask constants it is applied to */
  function Shl(v: nat, k: nat): nat
  {
    if k == 0 then v else 2 * Shl(v, k - 1)
  }

  /** The mask of the `k` low bits, 2^k - 1. */
  function LowMask(k: nat): nat
  {
    if k == 0 then 0 else 2 * LowMask(k - 1) + 1
  }

  /** `a & b`, bit by bit from the least significant one. */
  function BitAnd(a: nat, b: nat): nat
    decreases a
  {
    if a == 0 || b == 0 then 0
    else 2 * BitAnd(a / 2, b / 2) + (if a % 2 == 1 && b % 2 == 1 then 1 else 0)
  }

  lemma MulStep(x: int, y: int, d: int)
    requires x < y && d > 0
    ensures x * d + d <= y * d
  {
    var k := y - x;
    assert (k - 1) * d >= 0;
    assert k * d == (k - 1) * d + d;
    assert y * d == x * d + k * d;
  }

  /** Quotient and remainder are the only ones that fit. */
  lemma DivModUnique(a: int, d: int, q: int, r: int)
    requires d > 0 && a == q * d + r && 0 <= r < d
    ensures a / d == q && a % d == r
  {
    var q', r' := a / d, a % d;
    assert a == q' * d + r';
    if q' < q {
      MulStep(q', q, d);
    } else if q < q' {
      MulStep(q, q', d);
    }
  }

  lemma DivDiv(a: nat, b: nat, c: nat)
    requires b >= 1 && c >= 1
    ensures a / b / c == a / (b * c)
  {
    var q := a / b / c;
    var r := (a / b) % c * b + a % b;
    assert a / b == q * c + (a / b) % c;
    assert a == (a / b) * b + a % b;
    assert a == q * (b * c) + r;
    assert (a / b) % c * b <= (c - 1) * b;
    DivModUnique(a, b * c, q, r);
  }

  /** The remainder modulo `b * p` splits into a low digit and the rest. */
  lemma ModSplit(a: nat, b: nat, p: nat)
    requires b >= 1 && p >= 1
    ensures a % (b * p) == (a / b) % p * b + a % b
  {
    var q := a / b;
    var u := q / p;
    var v := q % p;
    assert a == q * b + a % b;
    assert q == u * p + v;
    assert a == u * (b * p) + (v * b + a % b);
    assert v * b <= (p - 1) * b;
    DivModUnique(a, b * p, u, v * b + a % b);
  }

  lemma BitAndOdd(a: nat, x: nat)
    ensures BitAnd(a, 2 * x + 1) == 2 * BitAnd(a / 2, x) + a % 2
  {
    assert (2 * x + 1) / 2 == x && (2 * x + 1) % 2 == 1;
  }

  lemma BitAndEven(a: nat, x: nat)
    ensures BitAnd(a, 2 * x) == 2 * BitAnd(a / 2, x)
  {
    if a > 0 && x > 0 {
      assert (2 * x) / 2 == x && (2 * x) % 2 == 0;
    }
  }

  /** Masking with the `k` low bits is the remainder modulo 2^k. */
  lemma {:induction false} BitAndLowMask(a: nat, k: nat)
    ensures BitAnd(a, LowMask(k)) == a % Pow2(k)
  {
    if k > 0 {
      BitAndOdd(a, LowMask(k - 1));
      BitAndLowMask(a / 2, k - 1);
      ModSplit(a, 2, Pow2(k - 1));
    }
  }

  /** A right shift by `k` is division by 2^k. */
  lemma {:induction false} ShrIsDivision(v: nat, k: nat)
    ensures Shr(v, k) == v / Pow2(k)
  {
    if k > 0 {
      ShrIsDivision(v / 2, k - 1);
      DivDiv(v, 2, Pow2(k - 1));
    }
  }

  /** Shifting a value left and back right gives it back. */
  lemma {:induction false} ShrShl(v: nat, k: nat)
    ensures Shr(Shl(v, k), k) == v
  {
    if k > 0 {
      ShrShl(v, k - 1);
      ShrOfDouble(Shl(v, k - 1), k - 1);
    }
  }

  lemma ShrOfDouble(v: nat, k: nat)
    ensures Shr(2 * v, k + 1) == Shr(v, k)
  {
    assert (2 * v) / 2 == v;
  }

  /** Masking with a shifted mask is masking the shifted value, shifted back. */
  lemma {:induction false} BitAndShiftedMask(a: nat, m: nat, k: nat)
    ensures BitAnd(a, Shl(m, k)) == Shl(BitAnd(Shr(a, k), m), k)
  {
    if k > 0 {
      BitAndShiftedMask(a / 2, m, k - 1);
      BitAndEven(a, Shl(m, k - 1));
    }
  }

  lemma Pow16IsPow2(n: nat)
    ensures Pow16(n) == Pow2(4 * n)
  {
    if n > 0 {
      Pow16IsPow2(n - 1);
      var m := 4 * (n - 1);
      assert Pow2(m + 4) == 2 * Pow2(m + 3) == 4 * Pow2(m + 2) == 8 * Pow2(m + 1) == 16 * Pow2(m);
    }
  }

  lemma {:induction false} Pow16Monotone(n: nat, m: nat)
    requires n <= m
    ensures Pow16(n) <= Pow16(m)
  {
    if n < m {
      Pow16Monotone(n, m - 1);
    }
  }

  lemma MaskConstants()
    ensures LowMask(4) == 0xF && LowMask(8) == 0xFF
    ensures Shl(0xFF, 8) == 0xFF00 && Shl(0xFF, 16) == 0xFF_0000
    ensures Pow2(4) == 16 && Pow2(8) == 0x100 && Pow2(16) == 0x1_0000 && Pow2(24) == 0x100_0000
  {
  }

  lemma DigitConstants()
    ensures Pow16(1) == 16 && Pow16(2) == 0x100 && Pow16(3) == 0x1000 && Pow16(4) == 0x1_0000
    ensures Pow16(6) == 0x100_0000 && Pow16(8) == 0x1_0000_0000
  {
  }

  lemma WordConstant()
    ensures Pow16(16) == UInt64Max + 1
  {
    DigitConstants();
    assert Pow16(16) == 16 * Pow16(15) == 0x100 * Pow16(14) == 0x1000 * Pow16(13) == 0x1_0000 * Pow16(12)
      == 0x10_0000 * Pow16(11) == 0x100_0000 * Pow16(10) == 0x1000_0000 * Pow16(9) == 0x1_0000_0000 * Pow16(8);
  }

  // ---------------------------------------------------------------------
  // Hexadecimal digits
  // ---------------------------------------------------------------------

  predicate IsHexDigit(c: char)
  {
    '0' <= c <= '9' || 'a' <= c <= 'f' || 'A' <= c <= 'F'
  }

  function HexDigitValue(c: char): (d: nat)
    requires IsHexDigit(c)
    ensures d < 16
  {
    if '0' <= c <= '9' then c as nat - '0' as nat
    else if 'a' <= c <= 'f' then c as nat - 'a' as nat + 10
    else c as nat - 'A' as nat + 10
  }

  predicate AllHex(s: string)
  {
    forall i | 0 <= i < |s| :: IsHexDigit(s[i])
  }

  /** The value of a string of hex digits, most significant first. */
  function HexValue(ds: string): (v: nat)
    requires AllHex(ds)
    ensures v < Pow16(|ds|)
  {
    if ds == [] then 0
    else 16 * HexValue(ds[..|ds| - 1]) + HexDigitValue(ds[|ds| - 1])
  }

  lemma HexValueOfOne(ds: string)
    requires |ds| == 1 && AllHex(ds)
    ensures HexValue(ds) == HexDigitValue(ds[0])
  {
    assert ds[..0] == [];
  }

  lemma HexValueOfPair(ds: string)
    requires |ds| == 2 && AllHex(ds)
    ensures HexValue(ds) == 16 * HexDigitValue(ds[0]) + HexDigitValue(ds[1])
  {
    HexValueOfOne(ds[..1]);
  }

  lemma ShiftInDigit(a: int, b: int, d: int, p: int)
    ensures 16 * (a * p + b) + d == a * (16 * p) + (16 * b + d)
  {
  }

  /** The digits before position `k` count `Pow16` of the digits after it. */
  lemma {:induction false} HexSplit(ds: string, k: nat)
    requires AllHex(ds) && k <= |ds|
    ensures AllHex(ds[..k]) && AllHex(ds[k..])
    ensures HexValue(ds) == HexValue(ds[..k]) * Pow16(|ds| - k) + HexValue(ds[k..])
  {
    if k == |ds| {
      assert ds[..k] == ds;
      assert ds[k..] == [];
    } else {
      var init := ds[..|ds| - 1];
      var last := ds[|ds| - 1];
      var tail := ds[k..];
      assert AllHex(init);
      HexSplit(init, k);
      assert init[..k] == ds[..k];
      assert tail[..|tail| - 1] == init[k..];
      assert tail[|tail| - 1] == last;
      var a, b, p := HexValue(ds[..k]), HexValue(init[k..]), Pow16(|init| - k);
      assert HexValue(init) == a * p + b;
      assert HexValue(ds) == 16 * HexValue(init) + HexDigitValue(last);
      assert HexValue(tail) == 16 * b + HexDigitValue(last);
      assert Pow16(|ds| - k) == 16 * p;
      ShiftInDigit(a, b, HexDigitValue(last), p);
    }
  }

  /** The digits from `i` to `j` of a hex string, read off its value. */
  lemma HexWindow(ds: string, i: nat, j: nat)
    requires AllHex(ds) && i <= j <= |ds|
    ensures AllHex(ds[i..j])
    ensures (HexValue(ds) / Pow16(|ds| - j)) % Pow16(j - i) == HexValue(ds[i..j])
  {
    HexSplit(ds, j);
    DivModUnique(HexValue(ds), Pow16(|ds| - j), HexValue(ds[..j]), HexValue(ds[j..]));
    var front := ds[..j];
    HexSplit(front, i);
    assert front[..i] == ds[..i];
    assert front[i..] == ds[i..j];
    DivModUnique(HexValue(front), Pow16(j - i), HexValue(ds[..i]), HexValue(ds[i..j]));
  }

  /** The bit field holding the digits from `i` to `j`. */
  lemma HexField(ds: string, i: nat, j: nat)
    requires AllHex(ds) && i <= j <= |ds|
    ensures AllHex(ds[i..j])
    ensures BitAnd(Shr(HexValue(ds), 4 * (|ds| - j)), LowMask(4 * (j - i))) == HexValue(ds[i..j])
  {
    ShrIsDivision(HexValue(ds), 4 * (|ds| - j));
    Pow16IsPow2(|ds| - j);
    BitAndLowMask(Shr(HexValue(ds), 4 * (|ds| - j)), 4 * (j - i));
    Pow16IsPow2(j - i);
    HexWindow(ds, i, j);
  }

  // ---------------------------------------------------------------------
  // Scanner.scanHexInt64
  // ---------------------------------------------------------------------

  /** Number of hex digits at the start of `s`. */
  function HexRun(s: string): (n: nat)
    ensures n <= |s|
    ensures AllHex(s[..n])
    ensures n < |s| ==> !IsHexDigit(s[n])
  {
    if s == [] || !IsHexDigit(s[0]) then 0
    else
      var m := HexRun(s[1..]);
      assert forall i | 1 <= i < m + 1 :: s[i] == s[1..][i - 1];
      1 + m
  }

  /** The leading whitespace a `Scanner` skips by default. */
  function SkipWhitespace(s: string): (r: string)
    ensures |r| <= |s| && r == s[|s| - |r|..]
    ensures r == [] || !StringExtension.IsWhitespace(r[0])
    ensures forall i | 0 <= i < |s| - |r| :: StringExtension.IsWhitespace(s[i])
  {
    if s == [] || !StringExtension.IsWhitespace(s[0]) then s
    else
      var r := SkipWhitespace(s[1..]);
      assert forall i | 1 <= i < |s| - |r| :: s[i] == s[1..][i - 1];
      r
  }

  /** A "0x" or "0X" marker followed by a digit, which the scanner skips. */
  predicate HasHexMarker(t: string)
  {
    |t| >= 3 && t[0] == '0' && (t[1] == 'x' || t[1] == 'X') && IsHexDigit(t[2])
  }

  /**
   * The value `scanHexInt64` stores: whitespace and an optional hex marker
   * are skipped; the longest run of hex digits is read; with no digits the
   * variable keeps its initial 0, and a run too large for 64 bits gives the
   * largest `UInt64`.
   */
  function ScanHexInt64(s: string): (v: nat)
    ensures v <= UInt64Max
  {
    var t := SkipWhitespace(s);
    var body := if HasHexMarker(t) then t[2..] else t;
    var digits := body[..HexRun(body)];
    if HexValue(digits) <= UInt64Max then HexValue(digits) else UInt64Max
  }

  /** The scanned value of at most 16 characters is below 16^count. */
  lemma ScanBelow(s: string)
    requires |s| <= 16
    ensures ScanHexInt64(s) < Pow16(|s|)
  {
    var t := SkipWhitespace(s);
    var body := if HasHexMarker(t) then t[2..] else t;
    var digits := body[..HexRun(body)];
    assert |digits| <= |s|;
    Pow16Monotone(|digits|, |s|);
    assert HexValue(digits) < Pow16(|s|);
    assert HexValue(digits) <= UInt64Max by {
      Pow16Monotone(|s|, 16);
      WordConstant();
    }
  }

  /** A string of hex digits has no whitespace or marker to skip and is one run of digits. */
  lemma PlainHexDigits(s: string)
    requires AllHex(s)
    ensures SkipWhitespace(s) == s && !HasHexMarker(s) && HexRun(s) == |s|
  {
    if s != [] {
      assert IsHexDigit(s[0]);
    }
    if |s| >= 2 {
      assert IsHexDigit(s[1]);
    }
  }

  /** A string of at most 16 hex digits scans to its value. */
  lemma ScanAllHex(s: string)
    requires AllHex(s) && |s| <= 16
    ensures ScanHexInt64(s) == HexValue(s)
  {
    PlainHexDigits(s);
    assert s[..|s|] == s;
    Pow16Monotone(|s|, 16);
    WordConstant();
  }

  // ---------------------------------------------------------------------
  // Color(hex:)
  // ---------------------------------------------------------------------

  /** Letters and digits; `CharacterSet.alphanumerics` restricted to ASCII. */
  predicate IsAlphanumeric(c: char)
  {
    'a' <= c <= 'z' || 'A' <= c <= 'Z' || '0' <= c <= '9'
  }

  /** Number of non-alphanumerics at the start of `s`. */
  function LeadingCount(s: string): (n: nat)
    ensures n <= |s|
    ensures forall i | 0 <= i < n :: !IsAlphanumeric(s[i])
    ensures n < |s| ==> IsAlphanumeric(s[n])
  {
    if s == [] || IsAlphanumeric(s[0]) then 0
    else
      var m := LeadingCount(s[1..]);
      assert forall i | 1 <= i < m + 1 :: s[i] == s[1..][i - 1];
      1 + m
  }

  /** Number of non-alphanumerics at the end of `s`. */
  function TrailingCount(s: string): (n: nat)
    ensures n <= |s|
    ensures forall i | |s| - n <= i < |s| :: !IsAlphanumeric(s[i])
    ensures n < |s| ==> IsAlphanumeric(s[|s| - n - 1])
  {
    if s == [] || IsAlphanumeric(s[|s| - 1]) then 0
    else 1 + TrailingCount(s[..|s| - 1])
  }

  /**
   * `trimmingCharacters(in: CharacterSet.alphanumerics.inverted)`: the
   * non-alphanumerics at both ends go, those in between stay.
   */
  function TrimNonAlphanumerics(s: string): (r: string)
    ensures LeadingCount(s) + |r| <= |s|
    ensures r == s[LeadingCount(s)..LeadingCount(s) + |r|]
    ensures forall i | LeadingCount(s) + |r| <= i < |s| :: !IsAlphanumeric(s[i])
    ensures r == [] || (IsAlphanumeric(r[0]) && IsAlphanumeric(r[|r| - 1]))
  {
    var start := LeadingCount(s);
    var rest := s[start..];
    var r := rest[..|rest| - TrailingCount(rest)];
    assert forall i | start + |r| <= i < |s| :: s[i] == rest[i - start];
    r
  }

  /** The integer channels of a colour, each meant to lie in 0..255. */
  datatype Argb = Argb(alpha: nat, red: nat, green: nat, blue: nat)

  /** 12-bit RGB: one digit per channel, scaled by 17. */
  function Rgb12(v: nat): Argb
  {
    Argb(255, Shr(v, 8) * 17, BitAnd(Shr(v, 4), 0xF) * 17, BitAnd(v, 0xF) * 17)
  }

  /** 24-bit RGB: one byte per channel. */
  function Rgb24(v: nat): Argb
  {
    Argb(255, Shr(v, 16), BitAnd(Shr(v, 8), 0xFF), BitAnd(v, 0xFF))
  }

  /** 32-bit ARGB: alpha in the top byte. */
  function Argb32(v: nat): Argb
  {
    Argb(Shr(v, 24), BitAnd(Shr(v, 16), 0xFF), BitAnd(Shr(v, 8), 0xFF), BitAnd(v, 0xFF))
  }

  /**
   * The channels `Color(hex:)` computes: 3 characters are 12-bit RGB, 6
   * characters 24-bit RGB, 8 characters 32-bit ARGB; any other length gives
   * (1, 1, 1, 0).
   */
  function ColorChannels(hex: string): (c: Argb)
    ensures var n := |TrimNonAlphanumerics(hex)|;
      n != 3 && n != 6 && n != 8 ==> c == Argb(1, 1, 1, 0)
  {
    var t := TrimNonAlphanumerics(hex);
    var v := ScanHexInt64(t);
    if |t| == 3 then Rgb12(v)
    else if |t| == 6 then Rgb24(v)
    else if |t| == 8 then Argb32(v)
    else Argb(1, 1, 1, 0)
  }

  predicate InByteRange(c: Argb)
  {
    c.alpha <= 255 && c.red <= 255 && c.green <= 255 && c.blue <= 255
  }

  lemma Rgb12Bytes(v: nat)
    requires v < 0x1000
    ensures InByteRange(Rgb12(v))
  {
    MaskConstants();
    ShrIsDivision(v, 8);
    BitAndLowMask(Shr(v, 4), 4);
    BitAndLowMask(v, 4);
  }

  lemma Rgb24Bytes(v: nat)
    requires v < 0x100_0000
    ensures InByteRange(Rgb24(v))
  {
    MaskConstants();
    ShrIsDivision(v, 16);
    BitAndLowMask(Shr(v, 8), 8);
    BitAndLowMask(v, 8);
  }

  lemma Argb32Bytes(v: nat)
    requires v < 0x1_0000_0000
    ensures InByteRange(Argb32(v))
  {
    MaskConstants();
    ShrIsDivision(v, 24);
    BitAndLowMask(Shr(v, 16), 8);
    BitAndLowMask(Shr(v, 8), 8);
    BitAndLowMask(v, 8);
  }

  /** For 3, 6 and 8 characters every channel fits in a byte, whatever the characters are. */
  lemma ColorChannelsInRange(hex: string)
    requires var n := |TrimNonAlphanumerics(hex)|; n == 3 || n == 6 || n == 8
    ensures InByteRange(ColorChannels(hex))
  {
    var t := TrimNonAlphanumerics(hex);
    var v := ScanHexInt64(t);
    ScanBelow(t);
    DigitConstants();
    if |t| == 3 {
      Rgb12Bytes(v);
    } else if |t| == 6 {
      Rgb24Bytes(v);
    } else {
      Argb32Bytes(v);
    }
  }

  /** The leading `k` digits are the value shifted right past the others. */
  lemma LeadingDigits(t: string, k: nat)
    requires AllHex(t) && k <= |t|
    ensures AllHex(t[..k])
    ensures Shr(HexValue(t), 4 * (|t| - k)) == HexValue(t[..k])
  {
    HexSplit(t, k);
    DivModUnique(HexValue(t), Pow16(|t| - k), HexValue(t[..k]), HexValue(t[k..]));
    ShrIsDivision(HexValue(t), 4 * (|t| - k));
    Pow16IsPow2(|t| - k);
  }

  lemma TopDigit(t: string)
    requires |t| == 3 && AllHex(t)
    ensures Shr(HexValue(t), 8) == HexDigitValue(t[0])
  {
    LeadingDigits(t, 1);
    HexValueOfOne(t[..1]);
  }

  lemma Rgb12Digits(t: string)
    requires |t| == 3 && AllHex(t)
    ensures Rgb12(HexValue(t)) == Argb(255, 17 * HexDigitValue(t[0]), 17 * HexDigitValue(t[1]), 17 * HexDigitValue(t[2]))
  {
    MaskConstants();
    TopDigit(t);
    HexField(t, 1, 2);
    HexField(t, 2, 3);
    HexValueOfOne(t[1..2]);
    HexValueOfOne(t[2..3]);
  }

  lemma TopByte(t: string)
    requires (|t| == 6 || |t| == 8) && AllHex(t)
    ensures AllHex(t[0..2])
    ensures Shr(HexValue(t), 4 * (|t| - 2)) == HexValue(t[0..2])
  {
    LeadingDigits(t, 2);
    assert t[..2] == t[0..2];
  }

  lemma Rgb24Digits(t: string)
    requires |t| == 6 && AllHex(t)
    ensures AllHex(t[0..2]) && AllHex(t[2..4]) && AllHex(t[4..6])
    ensures Rgb24(HexValue(t)) == Argb(255, HexValue(t[0..2]), HexValue(t[2..4]), HexValue(t[4..6]))
  {
    MaskConstants();
    TopByte(t);
    HexField(t, 2, 4);
    HexField(t, 4, 6);
  }

  lemma Argb32Digits(t: string)
    requires |t| == 8 && AllHex(t)
    ensures AllHex(t[0..2]) && AllHex(t[2..4]) && AllHex(t[4..6]) && AllHex(t[6..8])
    ensures Argb32(HexValue(t)) == Argb(HexValue(t[0..2]), HexValue(t[2..4]), HexValue(t[4..6]), HexValue(t[6..8]))
  {
    MaskConstants();
    TopByte(t);
    HexField(t, 2, 4);
    HexField(t, 4, 6);
    HexField(t, 6, 8);
  }

  /** Three digits: each channel is its digit times 17, and alpha is 255. */
  lemma ColorShorthand(hex: string)
    requires var t := TrimNonAlphanumerics(hex); |t| == 3 && AllHex(t)
    ensures var t := TrimNonAlphanumerics(hex);
      ColorChannels(hex) == Argb(255, 17 * HexDigitValue(t[0]), 17 * HexDigitValue(t[1]), 17 * HexDigitValue(t[2]))
  {
    var t := TrimNonAlphanumerics(hex);
    ScanAllHex(t);
    Rgb12Digits(t);
  }

  /** Six digits: alpha is 255 and red, green, blue are the successive bytes. */
  lemma ColorRgb(hex: string)
    requires var t := TrimNonAlphanumerics(hex); |t| == 6 && AllHex(t)
    ensures var t := TrimNonAlphanumerics(hex);
      (AllHex(t[0..2]) && AllHex(t[2..4]) && AllHex(t[4..6]) &&
       ColorChannels(hex) == Argb(255, HexValue(t[0..2]), HexValue(t[2..4]), HexValue(t[4..6])))
  {
    var t := TrimNonAlphanumerics(hex);
    ScanAllHex(t);
    Rgb24Digits(t);
  }

  /** Eight digits: the bytes are alpha, red, green, blue in that order. */
  lemma ColorArgb(hex: string)
    requires var t := TrimNonAlphanumerics(hex); |t| == 8 && AllHex(t)
    ensures var t := TrimNonAlphanumerics(hex);
      (AllHex(t[0..2]) && AllHex(t[2..4]) && AllHex(t[4..6]) && AllHex(t[6..8]) &&
       ColorChannels(hex) == Argb(HexValue(t[0..2]), HexValue(t[2..4]), HexValue(t[4..6]), HexValue(t[6..8])))
  {
    var t := TrimNonAlphanumerics(hex);
    ScanAllHex(t);
    Argb32Digits(t);
  }

  // ---------------------------------------------------------------------
  // NSColor
  // ---------------------------------------------------------------------

  /** Integer red, green, blue and the alpha passed on to the designated initialiser. */
  datatype Rgba = Rgba(red: int, green: int, blue: int, alpha: real)

  /**
   * `NSColor(hex:alpha:)`: the string goes to the scanner untrimmed, and the
   * channels are masked out of the low 24 bits of the scanned value.
   */
  function NSColorHexChannels(hex: string, alpha: real): (c: Rgba)
    ensures c.alpha == alpha
  {
    var v := ScanHexInt64(hex);
    Rgba(Shr(BitAnd(v, 0xFF_0000), 16), Shr(BitAnd(v, 0xFF00), 8), BitAnd(v, 0xFF), alpha)
  }

  /** `NSColor(hex:)` is `NSColor(hex:alpha:)` with alpha 1. */
  function NSColorHex(hex: string): (c: Rgba)
    ensures c == NSColorHexChannels(hex, 1.0)
  {
    NSColorHexChannels(hex, 1.0)
  }

  /** The `(v & m) >> k` masks pick the same bytes as `(v >> k) & 0xFF`. */
  lemma MasksAgree(v: nat)
    ensures Shr(BitAnd(v, 0xFF_0000), 16) == BitAnd(Shr(v, 16), 0xFF)
    ensures Shr(BitAnd(v, 0xFF00), 8) == BitAnd(Shr(v, 8), 0xFF)
  {
    MaskConstants();
    BitAndShiftedMask(v, 0xFF, 16);
    ShrShl(BitAnd(Shr(v, 16), 0xFF), 16);
    BitAndShiftedMask(v, 0xFF, 8);
    ShrShl(BitAnd(Shr(v, 8), 0xFF), 8);
  }

  /** The three bytes `(v >> 16) & 0xFF`, `(v >> 8) & 0xFF`, `v & 0xFF` are the low 24 bits of `v`. */
  lemma LowBytes(v: nat)
    ensures BitAnd(Shr(v, 16), 0xFF) <= 255 && BitAnd(Shr(v, 8), 0xFF) <= 255 && BitAnd(v, 0xFF) <= 255
    ensures BitAnd(Shr(v, 16), 0xFF) * 0x1_0000 + BitAnd(Shr(v, 8), 0xFF) * 0x100 + BitAnd(v, 0xFF) == v % 0x100_0000
  {
    MaskConstants();
    BitAndLowMask(Shr(v, 16), 8);
    BitAndLowMask(Shr(v, 8), 8);
    BitAndLowMask(v, 8);
    ShrIsDivision(v, 16);
    ShrIsDivision(v, 8);
    ModSplit(v, 0x100, 0x1_0000);
    ModSplit(v / 0x100, 0x100, 0x100);
    DivDiv(v, 0x100, 0x100);
  }

  /** Every NSColor channel is a byte, and together they are the low 24 bits of the scan. */
  lemma NSColorHexBytes(hex: string, alpha: real)
    ensures var c := NSColorHexChannels(hex, alpha);
      c.red <= 255 && c.green <= 255 && c.blue <= 255 &&
      c.red * 0x1_0000 + c.green * 0x100 + c.blue == ScanHexInt64(hex) % 0x100_0000
  {
    var v := ScanHexInt64(hex);
    MasksAgree(v);
    LowBytes(v);
  }

  /** A leading '#' is not skipped by the scanner, so the colour comes out black. */
  lemma NSColorHashIsBlack(hex: string, alpha: real)
    requires |hex| >= 1 && hex[0] == '#'
    ensures NSColorHexChannels(hex, alpha) == Rgba(0, 0, 0, alpha)
  {
    assert SkipWhitespace(hex) == hex;
    assert HexRun(hex) == 0;
    assert hex[..0] == [];
    MaskConstants();
  }

  /**
   * `NSColor(red:green:blue:alpha:)` as a release build runs it: the range
   * checks are debug-only `assert`s, so every component is passed on, and
   * the colour is made with alpha 1 whatever `alpha` is.
   */
  function NSColorComponents(red: int, green: int, blue: int, alpha: real): (c: Rgba)
    ensures c.alpha == 1.0
    ensures c.red == red && c.green == green && c.blue == blue
  {
    Rgba(red, green, blue, 1.0)
  }

  /** The alpha argument has no effect on the colour. */
  lemma AlphaIgnored(red: int, green: int, blue: int, a1: real, a2: real)
    ensures NSColorComponents(red, green, blue, a1) == NSColorComponents(red, green, blue, a2)
  {
  }

  /** `NSColor(red:green:blue:)` passes alpha 1 to the four-argument form. */
  function NSColorRgb(red: int, green: int, blue: int): (c: Rgba)
    ensures c == NSColorComponents(red, green, blue, 1.0)
  {
    NSColorComponents(red, green, blue, 1.0)
  }

  // ---------------------------------------------------------------------
  // UIColor(hex:)
  // ---------------------------------------------------------------------

  /** `lowercased()`, for ASCII letters. */
  function LowerChar(c: char): char
  {
    if 'A' <= c <= 'Z' then (c as int - 'A' as int + 'a' as int) as char else c
  }

  function Lowercased(s: string): (r: string)
    ensures |r| == |s|
    ensures forall i | 0 <= i < |s| :: r[i] == LowerChar(s[i])
  {
    if s == [] then [] else Lowercased(s[..|s| - 1]) + [LowerChar(s[|s| - 1])]
  }

  predicate HasPrefix(s: string, p: string)
  {
    |p| <= |s| && s[..|p|] == p
  }

  /**
   * The prefix handling of `UIColor(hex:)`: a lowercased string starting
   * with "0x" loses every "0x"; otherwise a string starting with '#' loses
   * every '#'; anything else is kept as it is.
   */
  function StrippedHex(hex: string): string
  {
    var lower := Lowercased(hex);
    if HasPrefix(lower, "0x") then ReplacingOccurrences(lower, "0x", "")
    else if HasPrefix(hex, "#") then ReplacingOccurrences(hex, "#", "")
    else hex
  }

  /** Every character written twice, in order. */
  function Doubled(s: string): (d: string)
    ensures |d| == 2 * |s|
    ensures forall i | 0 <= i < |s| :: d[2 * i] == s[i] && d[2 * i + 1] == s[i]
  {
    if s == [] then [] else Doubled(s[..|s| - 1]) + [s[|s| - 1], s[|s| - 1]]
  }

  /** The `forEach` loop that appends each character twice to `str`. */
  method ExpandShorthand(s: string) returns (str: string)
    ensures str == Doubled(s)
  {
    str := "";
    var i := 0;
    while i < |s|
      invariant 0 <= i <= |s|
      invariant str == Doubled(s[..i])
    {
      assert s[..i + 1][..i] == s[..i];
      str := str + [s[i], s[i]];
      i := i + 1;
    }
    assert s[..|s|] == s;
  }

  /** The digits handed to the integer parser. */
  function HexBody(hex: string): string
  {
    var s := StrippedHex(hex);
    if |s| == 3 then Doubled(s) else s
  }

  /**
   * `UInt(_:radix: 16)`: an optional sign, then at least one hex digit and
   * nothing else; the value must fit in 64 bits, and a '-' is only allowed
   * for a zero magnitude.
   */
  function ParseHexUInt(s: string): (r: Option<nat>)
    ensures r.Some? ==> r.value <= UInt64Max
    ensures s == [] ==> r.None?
  {
    if s == [] then None
    else
      var signed := s[0] == '+' || s[0] == '-';
      var digits := if signed then s[1..] else s;
      if digits == [] || !AllHex(digits) then None
      else if s[0] == '-' then (if HexValue(digits) == 0 then Some(0) else None)
      else if HexValue(digits) <= UInt64Max then Some(HexValue(digits))
      else None
  }

  /** A string of 1 to 16 hex digits parses to its value. */
  lemma ParseAllHex(s: string)
    requires AllHex(s) && 1 <= |s| <= 16
    ensures ParseHexUInt(s) == Some(HexValue(s))
  {
    assert IsHexDigit(s[0]);
    Pow16Monotone(|s|, 16);
    WordConstant();
  }

  /** A string that is neither signed nor all hex digits is rejected. */
  lemma ParseRejects(s: string)
    requires s != [] && s[0] != '+' && s[0] != '-' && !AllHex(s)
    ensures ParseHexUInt(s) == None
  {
  }

  /** What `UIColor(hex:)` initialises from: three channels or the fallback integer. */
  datatype UIColorInit = Channels(red: nat, green: nat, blue: nat) | HexInt(value: nat)

  /** The colour `UIColor(hex:)` makes from the parsed value, or 0xFFFFFF when parsing fails. */
  function UIColorOf(hex: string): UIColorInit
  {
    match ParseHexUInt(HexBody(hex))
    case None => HexInt(0xFF_FFFF)
    case Some(v) => Channels(BitAnd(Shr(v, 16), 0xFF), BitAnd(Shr(v, 8), 0xFF), BitAnd(v, 0xFF))
  }

  /** `UIColor(hex:)` step by step, with the local `string` reassigned. */
  method UIColorFromHex(hex: string) returns (c: UIColorInit)
    ensures c == UIColorOf(hex)
  {
    var str := "";
    var lowercaseHexString := Lowercased(hex);
    if HasPrefix(lowercaseHexString, "0x") {
      str := ReplacingOccurrences(lowercaseHexString, "0x", "");
    } else if HasPrefix(hex, "#") {
      str := ReplacingOccurrences(hex, "#", "");
    } else {
      str := hex;
    }
    if |str| == 3 {
      str := ExpandShorthand(str);
    }
    var parsed := ParseHexUInt(str);
    if parsed.None? {
      return HexInt(0xFF_FFFF);
    }
    var hexValue := parsed.value;
    c := Channels(BitAnd(Shr(hexValue, 16), 0xFF), BitAnd(Shr(hexValue, 8), 0xFF), BitAnd(hexValue, 0xFF));
  }

  /** The fallback is taken exactly when the body does not parse. */
  lemma UIColorFallback(hex: string)
    ensures UIColorOf(hex) == HexInt(0xFF_FFFF) <==> ParseHexUInt(HexBody(hex)).None?
    ensures UIColorOf(hex).HexInt? ==> UIColorOf(hex).value == 0xFF_FFFF
  {
  }

  /** A parsed colour uses the same bytes as `NSColor(hex:alpha:)` does on that value. */
  lemma UIColorMatchesNSColorMasks(hex: string)
    requires ParseHexUInt(HexBody(hex)).Some?
    ensures var v := ParseHexUInt(HexBody(hex)).value; var c := UIColorOf(hex);
      c.Channels? &&
      c.red == Shr(BitAnd(v, 0xFF_0000), 16) && c.green == Shr(BitAnd(v, 0xFF00), 8) && c.blue == BitAnd(v, 0xFF) &&
      c.red <= 255 && c.green <= 255 && c.blue <= 255 &&
      c.red * 0x1_0000 + c.green * 0x100 + c.blue == v % 0x100_0000
  {
    var v := ParseHexUInt(HexBody(hex)).value;
    MasksAgree(v);
    LowBytes(v);
  }

  /** The byte of six hex digits that sits `shift` bits up is the pair of digits ending at `j`. */
  lemma PairChannel(d: string, j: nat, shift: nat)
    requires |d| == 6 && AllHex(d) && 2 <= j <= 6 && shift == 4 * (6 - j)
    ensures AllHex(d[j - 2..j])
    ensures BitAnd(Shr(HexValue(d), shift), 0xFF) == HexValue(d[j - 2..j])
  {
    HexField(d, j - 2, j);
    assert LowMask(8) == 0xFF by {
      MaskConstants();
    }
  }

  /** Six hex digits parse, and the shifted and masked channels are their successive pairs. */
  lemma SixDigitChannels(d: string)
    requires |d| == 6 && AllHex(d)
    ensures ParseHexUInt(d) == Some(HexValue(d))
    ensures AllHex(d[0..2]) && AllHex(d[2..4]) && AllHex(d[4..6])
    ensures BitAnd(Shr(HexValue(d), 16), 0xFF) == HexValue(d[0..2])
    ensures BitAnd(Shr(HexValue(d), 8), 0xFF) == HexValue(d[2..4])
    ensures BitAnd(HexValue(d), 0xFF) == HexValue(d[4..6])
  {
    ParseAllHex(d);
    PairChannel(d, 2, 16);
    PairChannel(d, 4, 8);
    PairChannel(d, 6, 0);
    assert Shr(HexValue(d), 0) == HexValue(d);
  }

  /** Six hex digits after the prefix: the channels are the successive bytes. */
  lemma UIColorRgb(hex: string)
    requires var s := StrippedHex(hex); |s| == 6 && AllHex(s)
    ensures var s := StrippedHex(hex);
      (AllHex(s[0..2]) && AllHex(s[2..4]) && AllHex(s[4..6]) &&
       UIColorOf(hex) == Channels(HexValue(s[0..2]), HexValue(s[2..4]), HexValue(s[4..6])))
  {
    var s := StrippedHex(hex);
    assert HexBody(hex) == s;
    SixDigitChannels(s);
  }

  /** A doubled hex digit is worth 17 times the digit. */
  lemma DoubledPair(d: string, c: char)
    requires |d| == 2 && d[0] == c && d[1] == c && IsHexDigit(c)
    ensures AllHex(d) && HexValue(d) == 17 * HexDigitValue(c)
  {
    HexValueOfPair(d);
  }

  /** Three hex digits after the prefix: each is doubled, so each channel is digit times 17. */
  lemma UIColorShorthand(hex: string)
    requires var s := StrippedHex(hex); |s| == 3 && AllHex(s)
    ensures var s := StrippedHex(hex);
      UIColorOf(hex) == Channels(17 * HexDigitValue(s[0]), 17 * HexDigitValue(s[1]), 17 * HexDigitValue(s[2]))
  {
    var s := StrippedHex(hex);
    var d := Doubled(s);
    assert HexBody(hex) == d;
    assert AllHex(d) by {
      forall i | 0 <= i < |d|
        ensures IsHexDigit(d[i])
      {
        assert d[i] == s[i / 2];
      }
    }
    SixDigitChannels(d);
    DoubledPair(d[0..2], s[0]);
    DoubledPair(d[2..4], s[1]);
    DoubledPair(d[4..6], s[2]);
  }

  /** '#' is not a letter, so it never lowercases to the start of "0x". */
  lemma NoMarkerAfterHash(rest: string)
    ensures !HasPrefix(Lowercased("#" + rest), "0x")
  {
    var lower := Lowercased("#" + rest);
    assert lower[0] == '#';
  }

  /** A '#' prefix, with no other '#' after it, is removed and nothing else changes. */
  lemma StripHashPrefix(rest: string)
    requires forall i | 0 <= i < |rest| :: rest[i] != '#'
    ensures StrippedHex("#" + rest) == rest
  {
    var hex := "#" + rest;
    NoMarkerAfterHash(rest);
    assert HasPrefix(hex, "#");
    assert hex[1..] == rest;
    assert ReplacingOccurrences(hex, "#", "") == ReplacingOccurrences(rest, "#", "");
    forall i | 0 <= i < |rest|
      ensures !OccursAt("#", rest, i)
    {
      assert rest[i..i + 1] == [rest[i]];
    }
    ReplacingAbsent(rest, "#", "");
  }

  /** Lowercasing keeps a "0x" or "0X" in front and lowercases the rest. */
  lemma LowercasedMarker(marker: char, rest: string)
    requires marker == 'x' || marker == 'X'
    ensures Lowercased(['0', marker] + rest) == "0x" + Lowercased(rest)
  {
    var hex := ['0', marker] + rest;
    var lower := Lowercased(hex);
    var low := Lowercased(rest);
    forall i | 0 <= i < |lower|
      ensures lower[i] == ("0x" + low)[i]
    {
      if i >= 2 {
        assert hex[i] == rest[i - 2];
      }
    }
  }

  /** With a leading marker, the first replacement removes it and the scan goes on after it. */
  lemma StrippedAfterMarker(hex: string)
    requires HasPrefix(Lowercased(hex), "0x")
    ensures StrippedHex(hex) == ReplacingOccurrences(Lowercased(hex)[2..], "0x", "")
  {
  }

  /** A "0x" prefix, in either case, is removed and the rest lowercased. */
  lemma StripHexMarker(marker: char, rest: string)
    requires marker == 'x' || marker == 'X'
    requires !Occurs("0x", Lowercased(rest))
    ensures StrippedHex(['0', marker] + rest) == Lowercased(rest)
  {
    var hex := ['0', marker] + rest;
    var low := Lowercased(rest);
    LowercasedMarker(marker, rest);
    assert HasPrefix(Lowercased(hex), "0x");
    assert Lowercased(hex)[2..] == low;
    StrippedAfterMarker(hex);
    ReplacingAbsent(low, "0x", "");
  }

  /** Every "0x" goes, not only the leading one. */
  lemma StripRemovesEveryMarker()
    ensures StrippedHex("0x10X2") == "12"
  {
    var lower := Lowercased("0x10X2");
    assert lower == "0x10x2";
    assert HasPrefix(lower, "0x");
    assert ReplacingOccurrences("2", "0x", "") == "2";
    assert ReplacingOccurrences("0x2", "0x", "") == "2";
    assert ReplacingOccurrences("10x2", "0x", "") == "12";
    assert ReplacingOccurrences("0x10x2", "0x", "") == "12";
  }
}

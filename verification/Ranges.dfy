/** Arithmetic of address blocks: which numbers share their first bits, and hexadecimal text that sorts like numbers. */
module Ranges {
  import opened Prelude
  import opened Text

  lemma {:induction false} Pow2Grows(a: nat, b: nat)
    requires a <= b
    ensures Pow2(a) <= Pow2(b)
    decreases b - a
  {
    if a < b {
      Pow2Grows(a + 1, b);
    }
  }

  lemma EightMore(n: nat)
    ensures Pow2(n + 8) == 256 * Pow2(n)
  {
    assert Pow2(n + 2) == 4 * Pow2(n) && Pow2(n + 4) == 4 * Pow2(n + 2);
    assert Pow2(n + 6) == 4 * Pow2(n + 4) && Pow2(n + 8) == 4 * Pow2(n + 6);
  }

  // ---------- Bits ----------

  /** v >> h. */
  function Shift(v: nat, h: nat): nat {
    if h == 0 then v else Shift(v / 2, h - 1)
  }

  function Bit(v: nat, k: nat): nat {
    Shift(v, k) % 2
  }

  lemma {:induction false} NextBit(v: nat, k: nat)
    ensures Shift(v, k) == 2 * Shift(v, k + 1) + Bit(v, k)
  {
    if k > 0 {
      NextBit(v / 2, k - 1);
    }
  }

  lemma {:induction false} ShiftedOut(v: nat, width: nat)
    requires v < Pow2(width)
    ensures Shift(v, width) == 0
  {
    if width > 0 {
      ShiftedOut(v / 2, width - 1);
    }
  }

  /** Numbers below 2^width agree above bit h if and only if they agree in the bits from h up. */
  lemma {:induction false} ShiftIsLeadingBits(v: nat, w: nat, h: nat, width: nat)
    requires h <= width && v < Pow2(width) && w < Pow2(width)
    ensures Shift(v, h) == Shift(w, h) <==> forall k :: h <= k < width ==> Bit(v, k) == Bit(w, k)
    decreases width - h
  {
    if h == width {
      ShiftedOut(v, width);
      ShiftedOut(w, width);
    } else {
      ShiftIsLeadingBits(v, w, h + 1, width);
      NextBit(v, h);
      NextBit(w, h);
    }
  }

  // ---------- Blocks ----------

  /** value with its h low bits cleared. */
  function BlockStart(value: nat, h: nat): nat {
    if h == 0 then value else 2 * BlockStart(value / 2, h - 1)
  }

  /** value with its h low bits set. */
  function BlockEnd(value: nat, h: nat): nat {
    if h == 0 then value else 2 * BlockEnd(value / 2, h - 1) + 1
  }

  lemma {:induction false} BlockFits(value: nat, h: nat, width: nat)
    requires h <= width && value < Pow2(width)
    ensures BlockStart(value, h) <= value <= BlockEnd(value, h) < Pow2(width)
  {
    if h > 0 {
      BlockFits(value / 2, h - 1, width - 1);
    }
  }

  /** Between those two bounds are the numbers that agree with value above bit h. */
  lemma {:induction false} InBlock(v: nat, value: nat, h: nat)
    ensures BlockStart(value, h) <= v <= BlockEnd(value, h) <==> Shift(v, h) == Shift(value, h)
  {
    if h > 0 {
      InBlock(v / 2, value / 2, h - 1);
    }
  }

  lemma {:induction false} CoarserBlock(v: nat, w: nat, h: nat, g: nat)
    requires h <= g && Shift(v, h) == Shift(w, h)
    ensures Shift(v, g) == Shift(w, g)
    decreases g - h
  {
    if h < g {
      NextBit(v, h);
      NextBit(w, h);
      CoarserBlock(v, w, h + 1, g);
    }
  }

  /** A small block that meets a large one at x lies inside it. */
  lemma NestedBlocks(x: nat, y: nat, v: nat, h: nat, w: nat, g: nat)
    requires h <= g
    requires BlockStart(v, h) <= x <= BlockEnd(v, h) && BlockStart(v, h) <= y <= BlockEnd(v, h)
    requires BlockStart(w, g) <= x <= BlockEnd(w, g)
    ensures BlockStart(w, g) <= y <= BlockEnd(w, g)
  {
    InBlock(x, v, h);
    InBlock(y, v, h);
    InBlock(x, w, g);
    InBlock(y, w, g);
    CoarserBlock(y, x, h, g);
  }

  // ---------- Text order ----------

  /** SQLite's a <= b on text. */
  predicate TextLe(a: string, b: string) {
    a == "" || (b != "" && (a[0] < b[0] || (a[0] == b[0] && TextLe(a[1..], b[1..]))))
  }

  predicate IsLowerDigit(c: char) {
    '0' <= c <= '9' || 'a' <= c <= 'f'
  }

  predicate LowerHex(s: string) {
    forall i :: 0 <= i < |s| ==> IsLowerDigit(s[i])
  }

  lemma ShiftDigit(d: nat, p: nat, x: nat, y: nat)
    ensures 16 * (d * p + x) + y == d * (16 * p) + (16 * x + y)
  {
    assert 16 * (d * p) == d * (16 * p);
  }

  lemma {:induction false} PrependDigit(c: char, t: string)
    ensures HexNumber([c] + t) == Digit(c) * Pow16(|t|) + HexNumber(t)
  {
    var s := [c] + t;
    if t == "" {
      assert s[..0] == "";
    } else {
      var n := |t| - 1;
      PrependDigit(c, t[..n]);
      assert s[..|s| - 1] == [c] + t[..n] && s[|s| - 1] == t[n];
      ShiftDigit(Digit(c), Pow16(n), HexNumber(t[..n]), Digit(t[n]));
    }
  }

  lemma LeadingDigit(s: string)
    requires s != ""
    ensures HexNumber(s) == Digit(s[0]) * Pow16(|s| - 1) + HexNumber(s[1..])
  {
    PrependDigit(s[0], s[1..]);
    assert s == [s[0]] + s[1..];
  }

  lemma DigitOrder(c: char, d: char)
    requires IsLowerDigit(c) && IsLowerDigit(d)
    ensures c < d <==> Digit(c) < Digit(d)
    ensures c == d <==> Digit(c) == Digit(d)
  {
  }

  /** Lowercase hexadecimal texts of one length sort like their numbers. */
  lemma {:induction false} TextOrderIsNumeric(a: string, b: string)
    requires |a| == |b| && LowerHex(a) && LowerHex(b)
    ensures TextLe(a, b) <==> HexNumber(a) <= HexNumber(b)
  {
    if a != "" {
      LeadingDigit(a);
      LeadingDigit(b);
      HexNumberBound(a[1..]);
      HexNumberBound(b[1..]);
      TextOrderIsNumeric(a[1..], b[1..]);
      DigitOrder(a[0], b[0]);
      FirstDecides(Digit(a[0]), HexNumber(a[1..]), Digit(b[0]), HexNumber(b[1..]), Pow16(|a| - 1));
    }
  }

  lemma FirstDecides(x: nat, y: nat, u: nat, v: nat, p: nat)
    requires y < p && v < p
    ensures x * p + y <= u * p + v <==> x < u || (x == u && y <= v)
  {
    if x < u {
      assert (x + 1) * p <= u * p;
    } else if u < x {
      assert (u + 1) * p <= x * p;
    }
  }

  lemma {:induction false} Pow16IsPow2(n: nat)
    ensures Pow16(n) == Pow2(4 * n)
  {
    if n > 0 {
      Pow16IsPow2(n - 1);
      assert Pow2(4 * n) == 2 * Pow2(4 * n - 1) == 4 * Pow2(4 * n - 2) == 8 * Pow2(4 * n - 3) == 16 * Pow2(4 * n - 4);
    }
  }

  /** value.toString(16).padStart(32, "0"). */
  function Hex32(v: nat): string {
    PadStart(ToHex(v), 32)
  }

  lemma {:induction false} ToHexIsLower(n: nat)
    ensures LowerHex(ToHex(n))
  {
    if n >= 16 {
      ToHexIsLower(n / 16);
    }
  }

  lemma PaddedIsLower(k: nat, s: string)
    requires LowerHex(s)
    ensures LowerHex(Zeros(k) + s)
  {
  }

  lemma Hex32Means(v: nat)
    requires v < Pow2(128)
    ensures |Hex32(v)| == 32 && LowerHex(Hex32(v)) && HexNumber(Hex32(v)) == v
  {
    Pow16IsPow2(32);
    NumeralLength(v, 32);
    ToHexMeans(v);
    ToHexIsLower(v);
    PadTo32(ToHex(v));
  }

  lemma PadTo32(s: string)
    requires |s| <= 32 && LowerHex(s)
    ensures var t := PadStart(s, 32); |t| == 32 && LowerHex(t) && HexNumber(t) == HexNumber(s)
  {
    PaddedNumber(32 - |s|, s);
    PaddedIsLower(32 - |s|, s);
  }
}

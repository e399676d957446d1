/** Splitting and joining text, and hexadecimal numerals, as JavaScript and SQLite do them. */
module Text {
  // ---------- split and join ----------

  function Join(parts: seq<string>, c: char): string {
    if parts == [] then ""
    else if |parts| == 1 then parts[0]
    else parts[0] + [c] + Join(parts[1..], c)
  }

  /** text.split(c). */
  function Split(s: string, c: char): (parts: seq<string>)
    ensures parts != [] && Join(parts, c) == s
    ensures forall p <- parts :: c !in p
  {
    if s == "" then [""]
    else
      var rest := Split(s[1..], c);
      if s[0] == c then
        assert ([""] + rest)[1..] == rest;
        [""] + rest
      else
        assert ([[s[0]] + rest[0]] + rest[1..])[1..] == rest[1..];
        [[s[0]] + rest[0]] + rest[1..]
  }

  lemma {:induction false} SplitOneStep(p: string, rest: string, c: char)
    requires c !in p
    ensures Split(p + [c] + rest, c) == [p] + Split(rest, c)
  {
    var s := p + [c] + rest;
    if p == "" {
      assert s[1..] == rest;
    } else {
      assert s[1..] == p[1..] + [c] + rest;
      SplitOneStep(p[1..], rest, c);
      assert s[0] == p[0] && [p[0]] + p[1..] == p;
      assert ([p[1..]] + Split(rest, c))[1..] == Split(rest, c);
    }
  }

  lemma SplitWhole(p: string, c: char)
    requires c !in p
    ensures Split(p, c) == [p]
  {
    if p != "" {
      SplitWhole(p[1..], c);
      assert [p[0]] + p[1..] == p;
    }
  }

  /** Parts without the separator are recovered. */
  lemma {:induction false} SplitJoin(parts: seq<string>, c: char)
    requires parts != [] && forall p <- parts :: c !in p
    ensures Split(Join(parts, c), c) == parts
  {
    if |parts| == 1 {
      SplitWhole(parts[0], c);
    } else {
      SplitJoin(parts[1..], c);
      SplitOneStep(parts[0], Join(parts[1..], c), c);
    }
  }

  // ---------- Hexadecimal ----------

  predicate IsDigit(c: char) {
    '0' <= c <= '9'
  }

  predicate IsHexDigit(c: char) {
    IsDigit(c) || 'a' <= c <= 'f' || 'A' <= c <= 'F'
  }

  predicate IsHex(s: string) {
    forall c <- s :: IsHexDigit(c)
  }

  function Digit(c: char): (d: nat)
    ensures d < 16
  {
    if '0' <= c <= '9' then c as int - '0' as int
    else if 'a' <= c <= 'f' then c as int - 'a' as int + 10
    else if 'A' <= c <= 'F' then c as int - 'A' as int + 10
    else 0
  }

  function DigitChar(d: nat): (c: char)
    requires d < 16
    ensures IsHexDigit(c) && Digit(c) == d && Lower(c) == c
  {
    if d < 10 then '0' + d as char else 'a' + (d - 10) as char
  }

  /** toLowerCase on ASCII. */
  function Lower(c: char): (l: char)
    ensures Digit(l) == Digit(c) && (IsHexDigit(c) <==> IsHexDigit(l)) && (l == '0' <==> c == '0') && (l == ':' <==> c == ':')
  {
    if 'A' <= c <= 'Z' then (c as int - 'A' as int + 'a' as int) as char else c
  }

  function LowerAll(s: string): (l: string)
    ensures |l| == |s| && forall i :: 0 <= i < |s| ==> l[i] == Lower(s[i])
  {
    seq(|s|, i requires 0 <= i < |s| => Lower(s[i]))
  }

  lemma LowerConcat(a: string, b: string)
    ensures LowerAll(a + b) == LowerAll(a) + LowerAll(b)
  {
  }

  lemma LowerZeros(n: nat)
    ensures LowerAll(Zeros(n)) == Zeros(n)
  {
  }

  /** The sixteen digits. */
  lemma DigitTable(d: nat)
    requires d < 16
    ensures DigitChar(d) == "0123456789abcdef"[d] && Lower("0123456789ABCDEF"[d]) == "0123456789abcdef"[d]
    ensures Digit("0123456789abcdef"[d]) == d && Digit("0123456789ABCDEF"[d]) == d
    ensures IsHexDigit("0123456789abcdef"[d]) && IsHexDigit("0123456789ABCDEF"[d])
  {
  }

  /** There are no others. */
  lemma HexDigitFrom(c: char) returns (d: nat)
    requires IsHexDigit(c)
    ensures d < 16 && (c == "0123456789abcdef"[d] || c == "0123456789ABCDEF"[d])
  {
    d := Digit(c);
  }

  /** BigInt("0x" + s). */
  function HexNumber(s: string): nat {
    if s == "" then 0 else 16 * HexNumber(s[..|s| - 1]) + Digit(s[|s| - 1])
  }

  /** n.toString(16). */
  function ToHex(n: nat): (s: string)
    ensures s != ""
  {
    if n < 16 then [DigitChar(n)] else ToHex(n / 16) + [DigitChar(n % 16)]
  }

  function Zeros(n: nat): (s: string)
    ensures |s| == n && forall i :: 0 <= i < n ==> s[i] == '0'
  {
    if n == 0 then "" else "0" + Zeros(n - 1)
  }

  /** s.padStart(n, "0"). */
  function PadStart(s: string, n: nat): string {
    if |s| < n then Zeros(n - |s|) + s else s
  }

  /** A lowercase numeral without leading zeros. */
  predicate Minimal(s: string) {
    s != "" && IsHex(s) && LowerAll(s) == s && (s == "0" || s[0] != '0')
  }

  lemma {:induction false} ToHexMeans(n: nat)
    ensures HexNumber(ToHex(n)) == n && Minimal(ToHex(n))
    ensures n < 16 ==> |ToHex(n)| == 1
    ensures n > 0 ==> ToHex(n)[0] != '0'
  {
    var s := ToHex(n);
    if n < 16 {
      assert s[..0] == "";
      if n == 0 {
        assert s == "0";
      }
    } else {
      ToHexMeans(n / 16);
      assert s[..|s| - 1] == ToHex(n / 16);
      assert s[0] == ToHex(n / 16)[0];
    }
  }

  /** A numeral without leading zeros is determined by its value. */
  lemma {:induction false} MinimalUnique(s: string)
    requires Minimal(s)
    ensures ToHex(HexNumber(s)) == s
    ensures s[0] != '0' ==> HexNumber(s) > 0
  {
    var n := |s| - 1;
    LastDigit(s);
    if n == 0 {
      assert s == [s[0]];
      OneDigit(s[0]);
    } else {
      MinimalUnique(s[..n]);
      AppendDigit(s[..n], s[n]);
    }
  }

  lemma OneDigit(c: char)
    requires DigitChar(Digit(c)) == c
    ensures ToHex(HexNumber([c])) == [c] && (c != '0' ==> HexNumber([c]) > 0)
  {
    assert [c][..0] == "";
    assert HexNumber([c]) == Digit(c);
    if c != '0' {
      NonzeroDigit(c);
    }
  }

  lemma AppendDigit(p: string, c: char)
    requires ToHex(HexNumber(p)) == p && HexNumber(p) > 0 && DigitChar(Digit(c)) == c
    ensures ToHex(HexNumber(p + [c])) == p + [c] && HexNumber(p + [c]) > 0
  {
    assert (p + [c])[..|p|] == p;
    ToHexAppend(HexNumber(p), Digit(c));
  }

  lemma NonzeroDigit(c: char)
    requires IsHexDigit(c) && c != '0'
    ensures Digit(c) > 0
  {
  }

  lemma ToHexAppend(h: nat, d: nat)
    requires h > 0 && d < 16
    ensures ToHex(16 * h + d) == ToHex(h) + [DigitChar(d)] && 16 * h + d > 0
  {
    var n := 16 * h + d;
    assert n / 16 == h && n % 16 == d && n >= 16;
  }

  lemma LastDigit(s: string)
    requires Minimal(s)
    ensures var n := |s| - 1;
            && s == s[..n] + [s[n]] && DigitChar(Digit(s[n])) == s[n]
            && (n > 0 ==> Minimal(s[..n]) && s[..n][0] == s[0] != '0')
  {
    var n := |s| - 1;
    assert s[n] in s && LowerAll(s)[n] == Lower(s[n]);
    DigitRoundTrip(s[n]);
    if n > 0 {
      forall i | 0 <= i < n ensures LowerAll(s[..n])[i] == s[..n][i] {
        assert LowerAll(s)[i] == Lower(s[i]);
      }
    }
  }

  lemma DigitRoundTrip(c: char)
    requires IsHexDigit(c)
    ensures DigitChar(Digit(c)) == Lower(c)
  {
  }

  lemma {:induction false} HexNumberBound(s: string)
    ensures HexNumber(s) < Pow16(|s|)
  {
    if s != "" {
      HexNumberBound(s[..|s| - 1]);
    }
  }

  function Pow16(n: nat): nat {
    if n == 0 then 1 else 16 * Pow16(n - 1)
  }

  lemma {:induction false} NumeralLength(n: nat, k: nat)
    requires n < Pow16(k) && k > 0
    ensures |ToHex(n)| <= k
  {
    if n >= 16 {
      assert Pow16(k) == 16 * Pow16(k - 1);
      NumeralLength(n / 16, k - 1);
    }
  }

  /** Case and leading zeros do not change the value. */
  lemma {:induction false} LowerNumber(s: string)
    ensures HexNumber(LowerAll(s)) == HexNumber(s)
  {
    if s != "" {
      LowerNumber(s[..|s| - 1]);
      assert LowerAll(s)[..|s| - 1] == LowerAll(s[..|s| - 1]);
    }
  }

  lemma {:induction false} PaddedNumber(k: nat, s: string)
    ensures HexNumber(Zeros(k) + s) == HexNumber(s)
  {
    if s == "" {
      assert Zeros(k) + s == Zeros(k);
      ZerosNumber(k);
    } else {
      assert (Zeros(k) + s)[..k + |s| - 1] == Zeros(k) + s[..|s| - 1];
      PaddedNumber(k, s[..|s| - 1]);
    }
  }

  lemma {:induction false} ZerosNumber(k: nat)
    ensures HexNumber(Zeros(k)) == 0
  {
    if k > 0 {
      assert Zeros(k)[..k - 1] == Zeros(k - 1);
      ZerosNumber(k - 1);
    }
  }

  // ---------- Leading zeros ----------

  /** ltrim(s, '0'). */
  function TrimZeros(s: string): string {
    if s != "" && s[0] == '0' then TrimZeros(s[1..]) else s
  }

  /** A numeral in lowercase without leading zeros, "0" for zero. */
  function Strip(s: string): string {
    if TrimZeros(s) == "" then "0" else LowerAll(TrimZeros(s))
  }

  /** Strip(s) is the value of s in shortest form, and s pads it with zeros. */
  ghost predicate Stripped(s: string) {
    && Strip(s) == ToHex(HexNumber(s)) && |Strip(s)| <= |s|
    && LowerAll(s) == Zeros(|s| - |Strip(s)|) + Strip(s)
  }

  lemma StripNothing(s: string)
    requires s != "" && IsHex(s) && s[0] != '0'
    ensures Stripped(s)
  {
    var l := LowerAll(s);
    forall i | 0 <= i < |l| ensures IsHexDigit(l[i]) {
      assert s[i] in s;
    }
    assert LowerAll(l) == l;
    LowerNumber(s);
    MinimalUnique(l);
    assert Zeros(0) + l == l;
  }

  lemma StripZero()
    ensures Stripped("0")
  {
    var s := "0";
    assert s[..0] == "" && s[1..] == "";
    assert TrimZeros(s) == "" && Strip(s) == s;
    assert HexNumber(s) == 0 && ToHex(0) == [DigitChar(0)] == s;
    assert LowerAll(s)[0] == '0' && LowerAll(s) == s;
    assert Zeros(0) + s == s;
  }

  lemma TrimOne(t: string)
    ensures TrimZeros("0" + t) == TrimZeros(t)
  {
    assert ("0" + t)[1..] == t;
  }

  lemma NumberOne(t: string)
    ensures HexNumber("0" + t) == HexNumber(t)
  {
    assert Zeros(1) == "0";
    PaddedNumber(1, t);
  }

  lemma LowerOne(t: string)
    ensures LowerAll("0" + t) == "0" + LowerAll(t)
  {
    LowerConcat("0", t);
    assert LowerAll("0") == "0";
  }

  lemma StripOne(t: string)
    requires t != "" && Stripped(t)
    ensures Stripped("0" + t)
  {
    TrimOne(t);
    NumberOne(t);
    LowerOne(t);
    OneMoreZero(|t| - |Strip(t)|, Strip(t));
  }

  lemma OneMoreZero(k: nat, m: string)
    ensures "0" + (Zeros(k) + m) == Zeros(k + 1) + m
  {
  }

  lemma {:induction false} StripIsMinimal(s: string)
    requires s != "" && IsHex(s)
    ensures Stripped(s)
  {
    if s[0] != '0' {
      StripNothing(s);
    } else if |s| == 1 {
      assert s == "0";
      StripZero();
    } else {
      StripIsMinimal(s[1..]);
      StripOne(s[1..]);
      assert s == "0" + s[1..];
    }
  }
}

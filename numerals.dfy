/** The Python integer conversions the MAC helpers use: `int(s, 16)`,
    `f"{n:0{w}X}"` and `f"{n}"`. */
module Numerals {
  import opened Wrappers
  import opened Text

  // ---------------------------------------------------------------------------
  // Powers

  function Pow16(k: nat): (r: nat)
    ensures r >= 1
  {
    if k == 0 then 1 else 16 * Pow16(k - 1)
  }

  function Pow2(k: nat): (r: nat)
    ensures r >= 1
  {
    if k == 0 then 1 else 2 * Pow2(k - 1)
  }

  lemma {:induction false} Pow16IsPow2(k: nat)
    ensures Pow16(k) == Pow2(4 * k)
  {
    if k > 0 {
      Pow16IsPow2(k - 1);
      var m := 4 * (k - 1);
      assert Pow2(m + 4) == 2 * Pow2(m + 3) == 4 * Pow2(m + 2) == 8 * Pow2(m + 1) == 16 * Pow2(m);
    }
  }

  lemma {:induction false} Pow2Add(a: nat, b: nat)
    ensures Pow2(a + b) == Pow2(a) * Pow2(b)
    decreases b
  {
    if b > 0 {
      Pow2Add(a, b - 1);
      assert Pow2(a) * Pow2(b) == 2 * (Pow2(a) * Pow2(b - 1));
    }
  }

  /** Dividing twice is dividing by the product (Euclidean division, positive divisors). */
  lemma DivDiv(n: int, a: int, b: int)
    requires a > 0 && b > 0
    ensures n / a / b == n / (a * b)
  {
    var q, r := n / a, n % a;
    var q2, r2 := q / b, q % b;
    assert n == q * a + r;
    assert q == q2 * b + r2;
    assert n == q2 * (a * b) + (r2 * a + r) by {
      assert q * a == (q2 * b + r2) * a;
      assert (q2 * b + r2) * a == q2 * (a * b) + r2 * a;
    }
    assert 0 <= r2 * a + r < a * b by {
      assert r2 * a <= (b - 1) * a;
      assert (b - 1) * a == a * b - a;
    }
    DivUnique(n, a * b, q2, r2 * a + r);
  }

  /** A quotient is below `b` when the dividend is below `a * b`. */
  lemma DivBound(n: int, a: int, b: int)
    requires 0 <= n < a * b && a > 0
    ensures n / a < b
  {
    MulMono(b, n / a, a);
  }

  lemma MulMono(x: int, y: int, a: int)
    requires a > 0
    ensures x <= y ==> x * a <= y * a
  {
  }

  lemma DivUnique(n: int, d: int, q: int, r: int)
    requires d > 0 && 0 <= r < d && n == q * d + r
    ensures n / d == q && n % d == r
  {
    var q', r' := n / d, n % d;
    var k := q' - q;
    assert k * d == q' * d - q * d;
    assert k * d == r - r';
    if k > 0 {
      MulAtLeast(k, d);
    } else if k < 0 {
      MulAtLeast(-k, d);
    }
  }

  lemma MulAtLeast(k: int, d: int)
    requires k >= 1 && d > 0
    ensures k * d >= d
  {
    assert k * d == (k - 1) * d + d;
    assert (k - 1) * d >= 0;
  }

  // ---------------------------------------------------------------------------
  // Hexadecimal digits

  predicate IsHexDigit(c: char) {
    IsDigit(c) || ('a' <= c <= 'f') || ('A' <= c <= 'F')
  }

  predicate AllHex(s: string) {
    forall i :: 0 <= i < |s| ==> IsHexDigit(s[i])
  }

  function HexDigitValue(c: char): (d: nat)
    requires IsHexDigit(c)
    ensures d < 16
  {
    if IsDigit(c) then c as int - '0' as int
    else if 'a' <= c <= 'f' then c as int - 'a' as int + 10
    else c as int - 'A' as int + 10
  }

  /** The upper-case digit for a value below 16 (format type `X`). */
  function HexChar(d: nat): (c: char)
    requires d < 16
    ensures IsHexDigit(c) && HexDigitValue(c) == d && !IsLowerLetter(c)
  {
    if d < 10 then ('0' as int + d) as char else ('A' as int + d - 10) as char
  }

  /** The value of a string of hex digits, most significant first. */
  function HexValue(s: string): (v: nat)
    requires AllHex(s)
    ensures v < Pow16(|s|)
    decreases |s|
  {
    if s == [] then 0 else 16 * HexValue(s[..|s| - 1]) + HexDigitValue(s[|s| - 1])
  }

  /** The `w` lowest hex digits of `n`, upper case, zero-filled. */
  function FixedHex(n: nat, w: nat): (r: string)
    ensures |r| == w && AllHex(r)
    ensures forall i :: 0 <= i < w ==> !IsLowerLetter(r[i])
  {
    if w == 0 then [] else FixedHex(n / 16, w - 1) + [HexChar(n % 16)]
  }

  lemma {:induction false} HexValueOfFixedHex(n: nat, w: nat)
    ensures HexValue(FixedHex(n, w)) == n % Pow16(w)
  {
    if w > 0 {
      var f := FixedHex(n, w);
      assert f[..w - 1] == FixedHex(n / 16, w - 1);
      assert f[w - 1] == HexChar(n % 16);
      HexValueOfFixedHex(n / 16, w - 1);
      assert HexValue(f) == 16 * ((n / 16) % Pow16(w - 1)) + n % 16;
      ModSplit(n, Pow16(w - 1));
    }
  }

  /** The fixed-width digits of a number that fits spell that number. */
  lemma HexValueOfFixedHexFits(n: nat, w: nat)
    requires n < Pow16(w)
    ensures HexValue(FixedHex(n, w)) == n
  {
    HexValueOfFixedHex(n, w);
    DivUnique(n, Pow16(w), 0, n);
  }

  lemma {:induction false} Pow16Add(a: nat, b: nat)
    ensures Pow16(a + b) == Pow16(a) * Pow16(b)
    decreases b
  {
    if b > 0 {
      Pow16Add(a, b - 1);
      assert Pow16(a) * Pow16(b) == 16 * (Pow16(a) * Pow16(b - 1));
    }
  }

  lemma AllHexConcat(a: string, b: string)
    requires AllHex(a) && AllHex(b)
    ensures AllHex(a + b)
  {
    forall i | 0 <= i < |a + b| ensures IsHexDigit((a + b)[i]) {
      if i >= |a| { assert (a + b)[i] == b[i - |a|]; }
    }
  }

  /** The last digit of a hex string is its least significant one. */
  lemma HexValueSnoc(a: string, c: char)
    requires AllHex(a) && IsHexDigit(c)
    ensures AllHex(a + [c]) && HexValue(a + [c]) == 16 * HexValue(a) + HexDigitValue(c)
  {
    AllHexConcat(a, [c]);
    assert (a + [c])[..|a|] == a;
  }

  lemma ShiftArith(x: int, p: int, y: int, l: int)
    ensures 16 * (x * p + y) + l == x * (16 * p) + (16 * y + l)
  {
  }

  /** The digits of a concatenation: the first part shifted past the second. */
  lemma {:induction false} HexValueConcat(a: string, b: string)
    requires AllHex(a) && AllHex(b)
    ensures AllHex(a + b) && HexValue(a + b) == HexValue(a) * Pow16(|b|) + HexValue(b)
    decreases |b|
  {
    AllHexConcat(a, b);
    if b == [] {
      assert a + b == a;
    } else {
      var b' := b[..|b| - 1];
      var c := b[|b| - 1];
      assert b == b' + [c];
      assert a + b == (a + b') + [c];
      HexValueConcat(a, b');
      HexValueSnoc(a + b', c);
      HexValueSnoc(b', c);
      ShiftArith(HexValue(a), Pow16(|b'|), HexValue(b'), HexDigitValue(c));
    }
  }

  /** A run of `0` digits is worth 0 and a run of `F` digits one less than
      the next power. */
  lemma {:induction false} HexValueRepeat(d: nat)
    ensures AllHex(Repeat('0', d)) && HexValue(Repeat('0', d)) == 0
    ensures AllHex(Repeat('F', d)) && HexValue(Repeat('F', d)) == Pow16(d) - 1
  {
    if d > 0 {
      HexValueRepeat(d - 1);
      assert Repeat('0', d) == Repeat('0', d - 1) + ['0'] by { RepeatSnoc('0', d); }
      assert Repeat('F', d) == Repeat('F', d - 1) + ['F'] by { RepeatSnoc('F', d); }
      HexValueConcat(Repeat('0', d - 1), ['0']);
      HexValueConcat(Repeat('F', d - 1), ['F']);
    }
  }

  lemma RepeatSnoc(c: char, d: nat)
    requires d > 0
    ensures Repeat(c, d) == Repeat(c, d - 1) + [c]
  {
    var r := Repeat(c, d - 1) + [c];
    assert |r| == d && forall i :: 0 <= i < d ==> r[i] == c;
  }

  lemma ModSplit(n: int, p: int)
    requires p > 0
    ensures n % (16 * p) == 16 * ((n / 16) % p) + n % 16
  {
    var q := n / 16;
    assert n == 16 * q + n % 16;
    assert q == (q / p) * p + q % p;
    assert 16 * q == (q / p) * (16 * p) + 16 * (q % p);
    assert 0 <= 16 * (q % p) + n % 16 < 16 * p;
    DivUnique(n, 16 * p, q / p, 16 * (q % p) + n % 16);
  }

  lemma {:induction false} FixedHexOfHexValue(s: string)
    requires AllHex(s)
    ensures FixedHex(HexValue(s), |s|) == Upper(s)
    decreases |s|
  {
    if s != [] {
      var init := s[..|s| - 1];
      var last := s[|s| - 1];
      var v := HexValue(s);
      var d := HexDigitValue(last);
      assert v / 16 == HexValue(init) && v % 16 == d by {
        DivUnique(v, 16, HexValue(init), d);
      }
      FixedHexOfHexValue(init);
      assert FixedHex(v, |s|) == Upper(init) + [HexChar(d)];
      assert HexChar(d) == UpperChar(last);
      assert Upper(s) == Upper(init) + [UpperChar(last)] by {
        assert s == init + [last];
        UpperConcat(init, [last]);
      }
    }
  }

  /** `n // 16**k`: the number left once the `k` lowest hex digits are dropped. */
  function DropDigits(n: nat, k: nat): (r: nat)
    ensures r == n / Pow16(k)
  {
    DivNonneg(n, Pow16(k));
    n / Pow16(k)
  }

  lemma DivNonneg(n: int, d: int)
    requires n >= 0 && d > 0
    ensures n / d >= 0
  {
  }

  lemma {:induction false} FixedHexSplit(n: nat, a: nat, b: nat)
    ensures FixedHex(n, a + b) == FixedHex(DropDigits(n, b), a) + FixedHex(n, b)
    decreases b
  {
    if b > 0 {
      FixedHexSplit(n / 16, a, b - 1);
      DivDiv(n, 16, Pow16(b - 1));
    }
  }

  // ---------------------------------------------------------------------------
  // f"{n:0{w}X}"

  /** The shortest upper-case hex digits of `n` (format type `X`, no width). */
  function Hex(n: nat): (r: string)
    ensures 1 <= |r|
    decreases n
  {
    if n < 16 then [HexChar(n)] else Hex(n / 16) + [HexChar(n % 16)]
  }

  function ZeroPad(s: string, w: nat): (r: string)
    ensures |r| == if |s| >= w then |s| else w
  {
    if |s| >= w then s else Repeat('0', w - |s|) + s
  }

  /** `f"{n:0{w}X}"`: upper-case hex, zero-filled to a total width of `w`
      characters; a negative number keeps its sign in front of the zeros. */
  function FormatHex(n: int, w: nat): string {
    if n >= 0 then ZeroPad(Hex(n), w)
    else "-" + ZeroPad(Hex(-n), if w > 0 then w - 1 else 0)
  }

  lemma {:induction false} FixedHexZero(w: nat)
    ensures FixedHex(0, w) == Repeat('0', w)
  {
    if w > 0 {
      FixedHexZero(w - 1);
      assert Repeat('0', w) == Repeat('0', w - 1) + ['0'];
    }
  }

  lemma {:induction false} HexLength(n: nat, w: nat)
    requires 1 <= w && n < Pow16(w)
    ensures |Hex(n)| <= w
    ensures ZeroPad(Hex(n), w) == FixedHex(n, w)
    decreases n
  {
    if n < 16 {
      FixedHexZero(w - 1);
      assert n / 16 == 0;
    } else {
      assert w >= 2;
      var q := n / 16;
      assert q < Pow16(w - 1);
      HexLength(q, w - 1);
      var h := Hex(q);
      var c := [HexChar(n % 16)];
      var z := Repeat('0', w - 1 - |h|);
      assert Hex(n) == h + c;
      assert ZeroPad(Hex(n), w) == z + (h + c);
      assert FixedHex(n, w) == FixedHex(q, w - 1) + c;
      assert FixedHex(n, w) == (z + h) + c;
    }
  }

  /** A number below 16^w is formatted with exactly `w` digits, and they are its
      fixed-width digits. */
  lemma FormatHexFixed(n: int, w: nat)
    requires 1 <= w && 0 <= n < Pow16(w)
    ensures FormatHex(n, w) == FixedHex(n, w)
  {
    HexLength(n, w);
  }

  /** Upper-case hex digits format back from their own value. */
  lemma FormatOfHexValue(s: string)
    requires |s| >= 1 && AllHex(s)
    requires forall i :: 0 <= i < |s| ==> !IsLowerLetter(s[i])
    ensures FormatHex(HexValue(s), |s|) == s
  {
    FormatHexFixed(HexValue(s), |s|);
    FixedHexOfHexValue(s);
    UpperUnchanged(s);
  }

  // ---------------------------------------------------------------------------
  // int(s, 16)

  predicate HexOrUnderscores(b: string) {
    forall i :: 0 <= i < |b| ==> IsHexDigit(b[i]) || b[i] == '_'
  }

  /** Hex digits with single underscores between them (PEP 515 grouping): it
      starts and ends with a digit and every underscore follows a digit. */
  predicate IsGroupedHex(b: string) {
    |b| >= 1 && IsHexDigit(b[0]) && IsHexDigit(b[|b| - 1]) && HexOrUnderscores(b)
    && forall i :: 0 < i < |b| && b[i] == '_' ==> IsHexDigit(b[i - 1])
  }

  /** Removing the underscores leaves only hex digits. */
  lemma {:induction false} HexOrUnderscoresDigits(b: string)
    requires HexOrUnderscores(b)
    ensures AllHex(ReplaceChar(b, '_', ""))
  {
    if b != [] {
      assert HexOrUnderscores(b[1..]) by {
        forall i | 0 <= i < |b[1..]|
          ensures IsHexDigit(b[1..][i]) || b[1..][i] == '_'
        {
          assert b[1..][i] == b[i + 1];
        }
      }
      HexOrUnderscoresDigits(b[1..]);
    }
  }

  /** The digits after an optional sign: a `0x`/`0X` prefix, which may be
      followed by one underscore, is dropped. */
  function HexBody(u: string): string {
    if |u| >= 2 && u[0] == '0' && (u[1] == 'x' || u[1] == 'X') then
      (if |u| >= 3 && u[2] == '_' then u[3..] else u[2..])
    else u
  }

  /** The value of grouped hex digits, or None when they are malformed. */
  function GroupedHexValue(b: string): (r: Option<nat>)
    ensures r.Some? <==> IsGroupedHex(b)
  {
    if IsGroupedHex(b) then
      HexOrUnderscoresDigits(b);
      Some(HexValue(ReplaceChar(b, '_', "")))
    else None
  }

  /** `int(s, 16)`: surrounding whitespace, a sign, a `0x` prefix and
      underscores between digits are accepted; anything else raises
      ValueError, modelled as None. */
  function ParseHexInt(s: string): Option<int> {
    var t := Strip(s);
    var signed := |t| > 0 && (t[0] == '-' || t[0] == '+');
    var negative := signed && t[0] == '-';
    var u := if signed then t[1..] else t;
    match GroupedHexValue(HexBody(u))
    case None => None
    case Some(v) => Some(if negative then -(v as int) else v as int)
  }

  /** A plain non-empty string of hex digits parses to its value. */
  lemma ParseHexDigits(s: string)
    requires |s| >= 1 && AllHex(s)
    ensures ParseHexInt(s) == Some(HexValue(s))
  {
    HexDigitNotSpace(s[0]);
    assert Strip(s) == s by {
      HexDigitNotSpace(s[|s| - 1]);
      StripNoSpaceEnds(s);
    }
    assert GroupedHexValue(HexBody(s)) == Some(HexValue(s)) by {
      HexBodyOfDigits(s);
      GroupedDigits(s);
    }
    ParseUnsigned(s, HexValue(s));
  }

  /** Hex digits carry no `0x` prefix. */
  lemma HexBodyOfDigits(s: string)
    requires |s| >= 1 && AllHex(s)
    ensures HexBody(s) == s
  {
    if |s| >= 2 {
      assert IsHexDigit(s[1]);
    }
  }

  lemma GroupedDigits(s: string)
    requires |s| >= 1 && AllHex(s)
    ensures GroupedHexValue(s) == Some(HexValue(s))
  {
    assert '_' !in s by {
      assert forall i :: 0 <= i < |s| ==> s[i] != '_';
    }
    assert IsGroupedHex(s);
    ReplaceCharAbsent(s, '_', "");
  }

  /** Without surrounding space or sign, the parse is the grouped value. */
  lemma ParseUnsigned(s: string, v: nat)
    requires Strip(s) == s && |s| >= 1 && s[0] != '-' && s[0] != '+'
    requires GroupedHexValue(HexBody(s)) == Some(v)
    ensures ParseHexInt(s) == Some(v as int)
  {
  }

  lemma HexDigitNotSpace(c: char)
    requires IsHexDigit(c)
    ensures !IsSpace(c) && c != '-' && c != '+' && c != '_'
  {
  }

  // ---------------------------------------------------------------------------
  // Decimal

  function DigitValue(c: char): (d: nat)
    requires IsDigit(c)
    ensures d < 10
  {
    c as int - '0' as int
  }

  predicate AllDigits(s: string) {
    forall i :: 0 <= i < |s| ==> IsDigit(s[i])
  }

  function DecimalValue(s: string): nat
    requires AllDigits(s)
    decreases |s|
  {
    if s == [] then 0 else 10 * DecimalValue(s[..|s| - 1]) + DigitValue(s[|s| - 1])
  }

  function Pow10(k: nat): (r: nat)
    ensures r >= 1
  {
    if k == 0 then 1 else 10 * Pow10(k - 1)
  }

  /** A numeral without a leading zero is at least 10^(length - 1). */
  lemma {:induction false} DecimalLeadingBound(s: string)
    requires |s| >= 1 && AllDigits(s) && s[0] != '0'
    ensures DecimalValue(s) >= Pow10(|s| - 1)
    decreases |s|
  {
    if |s| > 1 {
      var init := s[..|s| - 1];
      assert init[0] == s[0];
      DecimalLeadingBound(init);
    }
  }

  /** The shortest decimal digits of `n`. */
  function DecimalDigits(n: nat): (r: string)
    ensures |r| >= 1 && AllDigits(r)
    ensures |r| > 1 ==> r[0] != '0'
    ensures DecimalValue(r) == n
    decreases n
  {
    var last := ('0' as int + n % 10) as char;
    if n < 10 then [last]
    else
      var init := DecimalDigits(n / 10);
      var r := init + [last];
      assert r[..|r| - 1] == init;
      r
  }

  /** `f"{n}"` for an integer. */
  function FormatDecimal(n: int): string {
    if n >= 0 then DecimalDigits(n) else "-" + DecimalDigits(-n)
  }
}

/** IPv4 address helpers of unveil/utils/ip.py: validation by the pattern
    `^((25[0-5]|(2[0-4]|1\d|[1-9]|)\d)\.?\b){4}$` and reversal of the
    dot-separated fields for DNSBL queries. */
module IpUtil {
  import opened Text
  import opened Numerals

  // ---------------------------------------------------------------------------
  // The pattern, as the regex engine reads it

  /** `(2[0-4]|1\d|[1-9]|)`: what may precede an octet's last digit. */
  predicate PrefixAlt(p: string) {
    (|p| == 2 && p[0] == '2' && '0' <= p[1] <= '4')
    || (|p| == 2 && p[0] == '1' && IsDigit(p[1]))
    || (|p| == 1 && '1' <= p[0] <= '9')
    || |p| == 0
  }

  /** `25[0-5]|(2[0-4]|1\d|[1-9]|)\d`: one octet token. */
  predicate OctetAlt(t: string) {
    (|t| == 3 && t[0] == '2' && t[1] == '5' && '0' <= t[2] <= '5')
    || (|t| >= 1 && IsDigit(t[|t| - 1]) && PrefixAlt(t[..|t| - 1]))
  }

  /** `\b` at position k (k >= 1): exactly one side is a word character. */
  predicate Boundary(t: string, k: nat)
    requires 1 <= k <= |t|
  {
    IsWordChar(t[k - 1]) != (k < |t| && IsWordChar(t[k]))
  }

  /** `$` at position k: the end of the string, or just before a final newline. */
  predicate EndAnchor(t: string, k: nat) {
    k == |t| || (k + 1 == |t| && t[k] == '\n')
  }

  function GroupWidth(len: nat, dot: bool): nat {
    len + if dot then 1 else 0
  }

  /** One repetition of `(octet)\.?\b` at the start of t, taking an octet of
      `len` characters and taking the optional dot or not. */
  predicate GroupMatches(t: string, len: nat, dot: bool) {
    1 <= len <= |t| && OctetAlt(t[..len])
    && (dot ==> len < |t| && t[len] == '.')
    && Boundary(t, GroupWidth(len, dot))
  }

  /** The search continued after one choice of octet length and dot. */
  predicate Try(t: string, len: nat, dot: bool, n: nat)
    decreases n, 0
  {
    1 <= n && GroupMatches(t, len, dot)
    && var k := GroupWidth(len, dot);
    if n == 1 then EndAnchor(t, k) else MatchGroups(t[k..], n - 1)
  }

  /** `n` more repetitions of the group, then `$`, from the start of t: the
      backtracking engine succeeds when any choice of octet length and
      optional dot succeeds. */
  predicate MatchGroups(t: string, n: nat)
    decreases n, 1
  {
    Try(t, 1, false, n) || Try(t, 1, true, n) || Try(t, 2, false, n)
    || Try(t, 2, true, n) || Try(t, 3, false, n) || Try(t, 3, true, n)
  }

  // ---------------------------------------------------------------------------
  // What the pattern means

  /** The decimal numeral of a byte value, without leading zeros. */
  predicate IsOctet(t: string) {
    |t| >= 1 && AllDigits(t) && (|t| > 1 ==> t[0] != '0') && DecimalValue(t) <= 255
  }

  /** Exactly n dot-separated fields, each an octet. */
  predicate OctetFields(s: string, n: nat) {
    var f := Split(s, '.');
    |f| == n && forall k :: 0 <= k < |f| ==> IsOctet(f[k])
  }

  /** A dotted-quad IPv4 address: four octets separated by dots. */
  predicate IsDottedQuad(s: string) {
    OctetFields(s, 4)
  }

  /** The part of s that `$` requires the pattern to cover: all of it, less
      one final newline. */
  function Payload(s: string): (r: string)
    ensures r == s || (s == r + "\n")
  {
    if |s| > 0 && s[|s| - 1] == '\n' then s[..|s| - 1] else s
  }

  /** `_validate_ip`: `re.match` anchors the pattern at the start; the
      result is true exactly for a dotted quad, optionally followed by one
      newline. */
  function ValidateIp(ip: string): (r: bool)
    ensures r == IsDottedQuad(Payload(ip))
  {
    MatchGroupsFields(ip, 4);
    MatchGroups(ip, 4)
  }

  // ---------------------------------------------------------------------------
  // The octet alternation is the set of octets

  lemma DecimalValue3(t: string)
    requires |t| == 3 && AllDigits(t)
    ensures DecimalValue(t) == 100 * DigitValue(t[0]) + 10 * DigitValue(t[1]) + DigitValue(t[2])
  {
    var a, b := t[..2], t[..1];
    assert a[..1] == b && b[..0] == [];
    assert DecimalValue(b) == DigitValue(t[0]);
    assert DecimalValue(a) == 10 * DecimalValue(b) + DigitValue(t[1]);
  }

  lemma DecimalValue2(t: string)
    requires |t| == 2 && AllDigits(t)
    ensures DecimalValue(t) == 10 * DigitValue(t[0]) + DigitValue(t[1])
  {
    var b := t[..1];
    assert b[..0] == [];
    assert DecimalValue(b) == DigitValue(t[0]);
  }

  lemma DecimalValue1(t: string)
    requires |t| == 1 && AllDigits(t)
    ensures DecimalValue(t) == DigitValue(t[0])
  {
    assert t[..0] == [];
  }

  /** The regex alternation for one octet accepts exactly the octets. */
  lemma OctetAltIsOctet(t: string)
    ensures OctetAlt(t) <==> IsOctet(t)
  {
    if |t| >= 4 {
      if AllDigits(t) && t[0] != '0' {
        LongNumeral(t);
      }
    } else if |t| == 3 {
      if AllDigits(t) {
        DecimalValue3(t);
      }
    } else if |t| == 2 {
      if AllDigits(t) {
        DecimalValue2(t);
      }
    } else if |t| == 1 {
      if AllDigits(t) {
        DecimalValue1(t);
      }
    }
  }

  /** Four or more digits without a leading zero exceed a byte. */
  lemma LongNumeral(t: string)
    requires |t| >= 4 && AllDigits(t) && t[0] != '0'
    ensures DecimalValue(t) > 255
  {
    DecimalLeadingBound(t);
    Pow10Mono(3, |t| - 1);
    assert Pow10(3) == 1000;
  }

  lemma {:induction false} Pow10Mono(a: nat, b: nat)
    requires a <= b
    ensures Pow10(a) <= Pow10(b)
    decreases b
  {
    if a < b {
      Pow10Mono(a, b - 1);
    }
  }

  /** An octet is one to three digits, so it holds no dot. */
  lemma OctetShape(t: string)
    requires IsOctet(t)
    ensures 1 <= |t| <= 3 && '.' !in t
    ensures IsDigit(t[0]) && IsWordChar(t[|t| - 1])
  {
    OctetAltIsOctet(t);
    assert forall i :: 0 <= i < |t| ==> t[i] != '.';
  }

  // ---------------------------------------------------------------------------
  // The matcher accepts exactly the dotted quads

  lemma PayloadSuffix(t: string, k: nat)
    requires k <= |Payload(t)|
    ensures Payload(t[k..]) == Payload(t)[k..]
  {
    if |t| > 0 && t[|t| - 1] == '\n' {
      assert t[k..][..|t[k..]| - 1] == t[..|t| - 1][k..];
    }
  }

  /** The octet length and dot choice of a successful search. */
  lemma PickGroup(t: string, n: nat) returns (len: nat, dot: bool)
    requires MatchGroups(t, n)
    ensures 1 <= len <= 3 && Try(t, len, dot, n)
  {
    if Try(t, 1, false, n) { len, dot := 1, false; }
    else if Try(t, 1, true, n) { len, dot := 1, true; }
    else if Try(t, 2, false, n) { len, dot := 2, false; }
    else if Try(t, 2, true, n) { len, dot := 2, true; }
    else if Try(t, 3, false, n) { len, dot := 3, false; }
    else { len, dot := 3, true; }
  }

  /** Every repetition starts with the first digit of an octet. */
  lemma MatchStartsWithDigit(t: string, n: nat)
    requires MatchGroups(t, n)
    ensures |t| >= 1 && IsDigit(t[0])
  {
    var len, dot := PickGroup(t, n);
    OctetAltIsOctet(t[..len]);
  }

  lemma {:induction false} MatchFields(t: string, n: nat)
    requires MatchGroups(t, n)
    ensures n >= 1 && OctetFields(Payload(t), n)
    decreases n
  {
    var len, dot := PickGroup(t, n);
    var tok := t[..len];
    OctetAltIsOctet(tok);
    OctetShape(tok);
    var k := GroupWidth(len, dot);
    if n == 1 {
      assert !dot;
      assert Payload(t) == tok;
      SplitNoSep(tok, '.');
    } else {
      var u := t[k..];
      MatchStartsWithDigit(u, n - 1);
      assert dot;
      MatchFields(u, n - 1);
      assert Payload(t) == tok + "." + Payload(u) by {
        assert t == tok + "." + u;
      }
      SplitCons(tok, '.', Payload(u));
    }
  }

  lemma {:induction false} FieldsMatch(t: string, n: nat)
    requires n >= 1 && OctetFields(Payload(t), n)
    ensures MatchGroups(t, n)
    decreases n
  {
    if n == 1 {
      FieldMatches(t);
    } else {
      var k := FieldTail(t, n);
      var u := t[k..];
      FieldsMatch(u, n - 1);
      FieldThenMatches(t, n, k);
    }
  }

  /** A single octet field is one repetition followed by `$`. */
  lemma FieldMatches(t: string)
    requires OctetFields(Payload(t), 1)
    ensures MatchGroups(t, 1)
  {
    var p := Payload(t);
    var o := Split(p, '.')[0];
    OctetShape(o);
    SplitSingleton(p, '.');
    SplitNoSep(p, '.');
    assert o == p;
    assert t[..|o|] == o;
    OctetAltIsOctet(o);
    assert Try(t, |o|, false, 1);
  }

  /** After the first field and its dot, the rest holds one field fewer. */
  lemma FieldTail(t: string, n: nat) returns (k: nat)
    requires n >= 2 && OctetFields(Payload(t), n)
    ensures k == |Split(Payload(t), '.')[0]| + 1 && k <= |t|
    ensures OctetFields(Payload(t[k..]), n - 1)
  {
    var p := Payload(t);
    var f := Split(p, '.');
    SplitHead(p, '.');
    k := |f[0]| + 1;
    PayloadSuffix(t, k);
    assert Split(Payload(t[k..]), '.') == f[1..];
  }

  /** The first field with its dot, then a match of the rest. */
  lemma FieldThenMatches(t: string, n: nat, k: nat)
    requires n >= 2 && OctetFields(Payload(t), n)
    requires k == |Split(Payload(t), '.')[0]| + 1 && k <= |t|
    requires MatchGroups(t[k..], n - 1)
    ensures MatchGroups(t, n)
  {
    var p := Payload(t);
    var o := Split(p, '.')[0];
    var len := |o|;
    OctetShape(o);
    SplitHead(p, '.');
    MatchStartsWithDigit(t[k..], n - 1);
    assert p[len] == '.' && t[len] == p[len];
    assert t[..len] == o;
    assert OctetAlt(t[..len]) by {
      OctetAltIsOctet(o);
    }
    assert Try(t, len, true, n);
  }

  /** The regex semantics and the dotted-quad reading agree, for any number
      of repetitions. */
  lemma MatchGroupsFields(t: string, n: nat)
    requires n >= 1
    ensures MatchGroups(t, n) <==> OctetFields(Payload(t), n)
  {
    if MatchGroups(t, n) {
      MatchFields(t, n);
    }
    if OctetFields(Payload(t), n) {
      FieldsMatch(t, n);
    }
  }

  /** A single newline after the address is accepted, as `$` matches before
      it; a second one is not. */
  lemma ValidateIpNewline(s: string)
    requires s == [] || s[|s| - 1] != '\n'
    ensures ValidateIp(s + "\n") == ValidateIp(s) == IsDottedQuad(s)
    ensures !ValidateIp(s + "\n\n")
  {
    assert (s + "\n")[..|s|] == s;
    var p := s + "\n";
    assert (s + "\n\n")[..|s| + 1] == p;
    var f := Split(p, '.');
    if OctetFields(p, 4) {
      FieldsEndInDigit(p, 4);
    }
  }

  /** A string made of octet fields ends with a digit. */
  lemma FieldsEndInDigit(s: string, n: nat)
    requires n >= 1 && OctetFields(s, n)
    ensures |s| >= 1 && IsDigit(s[|s| - 1])
  {
    var f := Split(s, '.');
    SplitLastSuffix(s, '.');
    OctetShape(f[n - 1]);
    var last := f[n - 1];
    assert s[|s| - 1] == last[|last| - 1];
  }

  // ---------------------------------------------------------------------------
  // _reverse_ip

  /** `_reverse_ip`: the dot-separated fields in reverse order, joined by dots. */
  function ReverseIp(ip: string): (r: string)
    ensures Split(r, '.') == Reversed(Split(ip, '.'))
  {
    var f := Reversed(Split(ip, '.'));
    ReversedIndex(Split(ip, '.'));
    SplitJoin(f, '.');
    Join(".", f)
  }

  /** Reversing twice gives the address back. */
  lemma ReverseIpInvolution(ip: string)
    ensures ReverseIp(ReverseIp(ip)) == ip
  {
    ReversedInvolution(Split(ip, '.'));
    JoinSplit(ip, '.');
  }

  /** Reversal moves characters but neither adds nor drops any. */
  lemma ReverseIpLength(ip: string)
    ensures |ReverseIp(ip)| == |ip|
  {
    var f := Split(ip, '.');
    JoinSplit(ip, '.');
    JoinLength(".", f);
    JoinLength(".", Reversed(f));
    SumLengthsReversed(f);
  }

  /** The reversal of a dotted quad is a dotted quad: the same four octets,
      last first. */
  lemma ReverseIpQuad(ip: string)
    requires IsDottedQuad(ip)
    ensures IsDottedQuad(ReverseIp(ip))
    ensures forall k :: 0 <= k < 4 ==> Split(ReverseIp(ip), '.')[k] == Split(ip, '.')[3 - k]
  {
    ReversedIndex(Split(ip, '.'));
  }

  /** An address the pattern accepts, without a trailing newline, reverses to
      one it accepts as well. */
  lemma ReverseValidIp(ip: string)
    requires ValidateIp(ip)
    requires ip == [] || ip[|ip| - 1] != '\n'
    ensures ValidateIp(ReverseIp(ip))
  {
    ReverseIpQuad(ip);
    FieldsEndInDigit(ReverseIp(ip), 4);
  }


  // ---------------------------------------------------------------------------
  // Examples

  /** The fields of four dot-free strings joined by dots. */
  lemma DottedSplit(a: string, b: string, c: string, d: string)
    requires '.' !in a && '.' !in b && '.' !in c && '.' !in d
    ensures Split(a + "." + b + "." + c + "." + d, '.') == [a, b, c, d]
  {
    var cd := c + "." + d;
    var bcd := b + "." + cd;
    SplitNoSep(d, '.');
    SplitCons(c, '.', d);
    SplitCons(b, '.', cd);
    SplitCons(a, '.', bcd);
    assert a + "." + b + "." + c + "." + d == a + "." + bcd;
  }

  lemma DottedJoin(a: string, b: string, c: string, d: string)
    ensures Join(".", [a, b, c, d]) == a + "." + b + "." + c + "." + d
  {
    assert [a, b, c, d][1..] == [b, c, d];
    assert [b, c, d][1..] == [c, d];
    assert [c, d][1..] == [d];
    assert Join(".", [c, d]) == c + "." + d;
    assert Join(".", [b, c, d]) == b + "." + (c + "." + d);
    assert Join(".", [a, b, c, d]) == a + "." + (b + "." + (c + "." + d));
  }

  /** Four tokens of the octet alternation, joined by dots, form a dotted quad. */
  lemma DottedQuadOf(a: string, b: string, c: string, d: string)
    requires OctetAlt(a) && OctetAlt(b) && OctetAlt(c) && OctetAlt(d)
    ensures IsDottedQuad(a + "." + b + "." + c + "." + d)
  {
    OctetAltIsOctet(a);
    OctetAltIsOctet(b);
    OctetAltIsOctet(c);
    OctetAltIsOctet(d);
    OctetShape(a);
    OctetShape(b);
    OctetShape(c);
    OctetShape(d);
    DottedSplit(a, b, c, d);
  }

  /** A first field outside the octet alternation spoils the quad. */
  lemma NotDottedQuadOf(a: string, b: string, c: string, d: string)
    requires '.' !in a && '.' !in b && '.' !in c && '.' !in d
    requires !OctetAlt(a)
    ensures !IsDottedQuad(a + "." + b + "." + c + "." + d)
  {
    OctetAltIsOctet(a);
    DottedSplit(a, b, c, d);
    assert Split(a + "." + b + "." + c + "." + d, '.')[0] == a;
  }

  /** Addresses the pattern accepts. */
  lemma ValidateIpAccepts()
    ensures ValidateIp("192.168.0.1")
  {
    DottedQuadOf("192", "168", "0", "1");
    assert "192.168.0.1" == "192" + "." + "168" + "." + "0" + "." + "1";
  }

  lemma ValidateIpAcceptsMax()
    ensures ValidateIp("255.255.255.255")
  {
    DottedQuadOf("255", "255", "255", "255");
    assert "255.255.255.255" == "255" + "." + "255" + "." + "255" + "." + "255";
  }

  lemma ValidateIpAcceptsZero()
    ensures ValidateIp("0.0.0.0")
  {
    DottedQuadOf("0", "0", "0", "0");
    assert "0.0.0.0" == "0" + "." + "0" + "." + "0" + "." + "0";
  }

  /** Three fields are not a dotted quad. */
  lemma ThreeFields(a: string, b: string, c: string)
    requires '.' !in a && '.' !in b && '.' !in c
    ensures !IsDottedQuad(a + "." + b + "." + c)
  {
    SplitNoSep(c, '.');
    SplitCons(b, '.', c);
    SplitCons(a, '.', b + "." + c);
    assert a + "." + b + "." + c == a + "." + (b + "." + c);
  }

  /** Five fields are not a dotted quad. */
  lemma FiveFields(a: string, b: string, c: string, d: string, e: string)
    requires '.' !in a && '.' !in b && '.' !in c && '.' !in d && '.' !in e
    ensures !IsDottedQuad(a + "." + b + "." + c + "." + d + "." + e)
  {
    var de := d + "." + e;
    var cde := c + "." + de;
    var bcde := b + "." + cde;
    SplitNoSep(e, '.');
    SplitCons(d, '.', e);
    SplitCons(c, '.', de);
    SplitCons(b, '.', cde);
    SplitCons(a, '.', bcde);
    assert a + "." + b + "." + c + "." + d + "." + e == a + "." + bcde;
  }

  /** Three fields are rejected. */
  lemma RejectsThreeFields()
    ensures !ValidateIp("1.2.3")
  {
    assert "1.2.3" == "1" + "." + "2" + "." + "3";
    assert Payload("1.2.3") == "1.2.3";
    ThreeFields("1", "2", "3");
  }

  /** Five fields are rejected. */
  lemma RejectsFiveFields()
    ensures !ValidateIp("1.2.3.4.5")
  {
    assert "1.2.3.4.5" == "1" + "." + "2" + "." + "3" + "." + "4" + "." + "5";
    assert Payload("1.2.3.4.5") == "1.2.3.4.5";
    FiveFields("1", "2", "3", "4", "5");
  }

  /** A trailing dot makes an empty fifth field. */
  lemma RejectsTrailingDot()
    ensures !ValidateIp("1.2.3.4.")
  {
    assert "1.2.3.4." == "1" + "." + "2" + "." + "3" + "." + "4" + "." + "";
    assert Payload("1.2.3.4.") == "1.2.3.4.";
    FiveFields("1", "2", "3", "4", "");
  }

  /** An octet above 255 is rejected. */
  lemma RejectsLargeOctet()
    ensures !ValidateIp("256.1.1.1")
  {
    assert "256.1.1.1" == "256" + "." + "1" + "." + "1" + "." + "1";
    assert Payload("256.1.1.1") == "256.1.1.1";
    NotDottedQuadOf("256", "1", "1", "1");
  }

  /** A leading zero is rejected. */
  lemma RejectsLeadingZero()
    ensures !ValidateIp("01.2.3.4")
  {
    assert "01.2.3.4" == "01" + "." + "2" + "." + "3" + "." + "4";
    assert Payload("01.2.3.4") == "01.2.3.4";
    NotDottedQuadOf("01", "2", "3", "4");
  }

  /** Reversal of four dot-free fields joined by dots. */
  lemma ReverseIpOfFields(a: string, b: string, c: string, d: string)
    requires '.' !in a && '.' !in b && '.' !in c && '.' !in d
    ensures ReverseIp(a + "." + b + "." + c + "." + d) == d + "." + c + "." + b + "." + a
  {
    DottedSplit(a, b, c, d);
    var f := [a, b, c, d];
    ReversedIndex(f);
    assert Reversed(f) == [d, c, b, a];
    DottedJoin(d, c, b, a);
  }

  /** The newline `$` lets through after a dotted quad ends up inside the
      first field of the reversal, which the pattern then rejects. */
  lemma ReverseIpNewline(ip: string)
    requires IsDottedQuad(ip)
    ensures ValidateIp(ip + "\n")
    ensures !ValidateIp(ReverseIp(ip + "\n"))
  {
    FieldsEndInDigit(ip, 4);
    ValidateIpNewline(ip);
    NewlineReversalNotQuad(ip);
  }

  lemma NewlineReversalNotQuad(ip: string)
    requires IsDottedQuad(ip)
    ensures !IsDottedQuad(Payload(ReverseIp(ip + "\n")))
  {
    var f := Split(ip, '.');
    var s := ip + "\n";
    assert s == ip + ['\n'];
    SplitSnoc(ip, '.', '\n');
    var g := Split(s, '.');
    assert |g| == 4 && g[3] == f[3] + ['\n'] && g[0] == f[0];
    var r := ReverseIp(s);
    var h := Split(r, '.');
    ReversedIndex(g);
    assert h[0] == g[3] && h[3] == g[0];
    assert Payload(r) == r by {
      SplitLastSuffix(r, '.');
      OctetShape(f[0]);
      assert r[|r| - 1] == f[0][|f[0]| - 1];
    }
    assert !IsOctet(h[0]) by {
      assert h[0][|h[0]| - 1] == '\n';
    }
  }

  /** One concrete address followed by a newline is accepted. */
  lemma NewlineAccepted()
    ensures ValidateIp("1.2.3.4\n")
  {
    assert IsDottedQuad("1.2.3.4") by {
      assert "1.2.3.4" == "1" + "." + "2" + "." + "3" + "." + "4";
      DottedQuadOf("1", "2", "3", "4");
    }
    assert ValidateIp("1.2.3.4" + "\n") by {
      ValidateIpNewline("1.2.3.4");
    }
    assert "1.2.3.4\n" == "1.2.3.4" + "\n";
  }
}

/** The MAC-address and OUI helpers of unveil/utils/mac.py. A MAC address is
    48 bits written as 12 hex digits; its first 24, 28 or 36 bits are the
    block (MA-L, MA-M or MA-S) the IEEE registry assigns to a vendor. */
module MacUtil {
  import opened Wrappers
  import opened Text
  import opened Numerals

  // ---------------------------------------------------------------------------
  // Two-digit groups

  /** `[s[i : i + 2] for i in range(0, 2 * count, 2)]`: `count` groups of at
      most two characters, each exactly two where `s` is long enough. */
  function Pairs(s: string, count: int): (r: seq<string>)
    ensures |r| == if count <= 0 then 0 else count
    ensures forall k :: 0 <= k < |r| ==> r[k] == Slice(s, 2 * k, 2 * k + 2)
    ensures forall k :: 0 <= k < |r| ==> |r[k]| <= 2
    ensures forall k :: 0 <= k < |r| && 2 * k + 2 <= |s| ==> r[k] == s[2 * k..2 * k + 2]
  {
    if count <= 0 then [] else seq(count, k requires 0 <= k < count => Slice(s, 2 * k, 2 * k + 2))
  }

  /** The groups of a string of exactly `count` pairs concatenate back to it. */
  lemma {:induction false} JoinPairs(s: string, count: nat)
    requires |s| == 2 * count
    ensures Join("", Pairs(s, count)) == s
    decreases count
  {
    if count == 1 {
      assert Pairs(s, 1) == [Slice(s, 0, 2)];
      assert Slice(s, 0, 2) == s[0..2] == s;
    } else if count > 1 {
      var p := Pairs(s, count);
      JoinPairs(s[2..], count - 1);
      var q := Pairs(s[2..], count - 1);
      forall k | 0 <= k < count - 1 ensures p[1..][k] == q[k] {
        assert p[1..][k] == s[2 * k + 2..2 * k + 4];
        assert q[k] == s[2..][2 * k..2 * k + 2];
      }
      assert p[1..] == q;
      assert p[0] == s[..2];
      assert s == s[..2] + s[2..];
    }
  }

  /** The groups of a string with at least `count` pairs concatenate to its
      first `2 * count` characters. */
  lemma PairsPrefix(s: string, count: nat)
    requires 2 * count <= |s|
    ensures Join("", Pairs(s, count)) == s[..2 * count]
  {
    var t := s[..2 * count];
    JoinPairs(t, count);
    forall k | 0 <= k < count ensures Pairs(s, count)[k] == Pairs(t, count)[k] {
      assert s[2 * k..2 * k + 2] == t[2 * k..2 * k + 2];
    }
    assert Pairs(s, count) == Pairs(t, count);
  }

  /** The groups of a hex string are hex and free of the separators. */
  lemma PairsHex(s: string, count: int)
    requires AllHex(s)
    ensures forall k :: 0 <= k < |Pairs(s, count)| ==> AllHex(Pairs(s, count)[k])
  {
  }

  lemma HexNotSeparator(s: string)
    requires AllHex(s)
    ensures ':' !in s && '-' !in s && '.' !in s && ' ' !in s
  {
  }

  /** 2^48, the number of MAC addresses. */
  const MacSpace: nat := 0x1_0000_0000_0000

  lemma MacSpaceValue()
    ensures Pow16(12) == MacSpace && Pow2(48) == MacSpace
  {
    assert Pow16(3) == 0x1000;
    Pow16Add(3, 3);
    assert Pow16(6) == 0x100_0000;
    Pow16Add(6, 6);
    Pow16IsPow2(12);
  }

  // ---------------------------------------------------------------------------
  // _oui_to_int and _int_to_mac

  /** `_oui_to_int`: `int(oui, 16)`; None stands for the ValueError. */
  function OuiToInt(oui: string): Option<int> {
    ParseHexInt(oui)
  }

  /** A non-empty string of hex digits is read as its value. */
  lemma OuiToIntHex(oui: string)
    requires |oui| >= 1 && AllHex(oui)
    ensures OuiToInt(oui) == Some(HexValue(oui))
  {
    ParseHexDigits(oui);
  }

  /** An OUI of `w` digits formatted from a number parses back to that
      number (`w` is 6 for an MA-L assignment). */
  lemma OuiRoundTrip(n: int, w: nat)
    requires 1 <= w && 0 <= n < Pow16(w)
    ensures OuiToInt(FormatHex(n, w)) == Some(n)
  {
    var h := FixedHex(n, w);
    FormatHexFixed(n, w);
    HexValueOfFixedHexFits(n, w);
    OuiToIntHex(h);
  }

  /** `_int_to_mac`: the first `length` two-digit groups of the 12-digit
      upper-case hex form of `n`, joined with colons. */
  function IntToMac(n: int, length: int): string {
    Join(":", Pairs(FormatHex(n, 12), length))
  }

  /** Below 2^48 the hex form has exactly 12 digits, the fixed-width ones. */
  lemma MacHex(n: int)
    requires 0 <= n < MacSpace
    ensures FormatHex(n, 12) == FixedHex(n, 12)
    ensures HexValue(FixedHex(n, 12)) == n
  {
    MacSpaceValue();
    FormatHexFixed(n, 12);
    HexValueOfFixedHexFits(n, 12);
  }

  /** The pairs of a hex string split back from its colon join. */
  lemma SplitMacPairs(h: string, count: int)
    requires AllHex(h) && count >= 1
    ensures Split(Join(":", Pairs(h, count)), ':') == Pairs(h, count)
  {
    var p := Pairs(h, count);
    forall k | 0 <= k < |p| ensures ':' !in p[k] {
      PairsHex(h, count);
      HexNotSeparator(p[k]);
    }
    SplitJoin(p, ':');
  }

  /** Two upper-case hex digits. */
  predicate IsHexPair(g: string) {
    |g| == 2 && AllHex(g) && !IsLowerLetter(g[0]) && !IsLowerLetter(g[1])
  }

  /** The pairs of a 12-digit fixed-width hex string are upper-case hex pairs. */
  lemma FixedHexPairs(n: int)
    requires 0 <= n
    ensures forall k :: 0 <= k < 6 ==> IsHexPair(Pairs(FixedHex(n, 12), 6)[k])
  {
    var h := FixedHex(n, 12);
    forall k | 0 <= k < 6 ensures IsHexPair(Pairs(h, 6)[k]) {
      var g := Pairs(h, 6)[k];
      assert g == h[2 * k..2 * k + 2];
      assert g[0] == h[2 * k] && g[1] == h[2 * k + 1];
    }
  }

  /** A 48-bit number becomes six colon-separated pairs of upper-case hex
      digits that spell the number. */
  lemma IntToMacGroups(n: int)
    requires 0 <= n < MacSpace
    ensures var groups := Split(IntToMac(n, 6), ':');
            |groups| == 6 && (forall k :: 0 <= k < 6 ==> IsHexPair(groups[k]))
            && AllHex(Join("", groups)) && HexValue(Join("", groups)) == n
  {
    MacHex(n);
    var h := FixedHex(n, 12);
    var p := Pairs(h, 6);
    SplitMacPairs(h, 6);
    assert IntToMac(n, 6) == Join(":", p);
    FixedHexPairs(n);
    JoinPairs(h, 6);
  }

  // ---------------------------------------------------------------------------
  // _normalize_mac

  /** Line 12 of `_normalize_mac`: upper-case, turn dashes into colons, drop
      dots and spaces. */
  function Cleaned(mac: string): string {
    Tidy(Upper(mac))
  }

  function Tidy(s: string): string {
    ReplaceChar(ReplaceChar(ReplaceChar(s, '-', ":"), '.', ""), ' ', "")
  }

  /** No dash, dot, space or lower-case letter. */
  predicate IsClean(s: string) {
    forall x :: x in s ==> x != '-' && x != '.' && x != ' ' && !IsLowerLetter(x)
  }

  lemma {:induction false} JoinClean(sep: string, parts: seq<string>)
    requires IsClean(sep) && forall k :: 0 <= k < |parts| ==> IsClean(parts[k])
    ensures IsClean(Join(sep, parts))
    decreases |parts|
  {
    if |parts| > 1 {
      JoinClean(sep, parts[1..]);
    }
  }

  lemma CleanedIsClean(mac: string)
    ensures IsClean(Cleaned(mac))
  {
    var u := Upper(mac);
    UpperIdempotent(mac);
    assert forall x :: x in u ==> !IsLowerLetter(x);
    var a := ReplaceChar(u, '-', ":");
    ReplaceCharChars(u, '-', ":");
    var b := ReplaceChar(a, '.', "");
    ReplaceCharChars(a, '.', "");
    ReplaceCharChars(b, ' ', "");
  }

  /** `_normalize_mac`: the OUI key of a MAC address, i.e. its first three
      octets without separators. A bare 12-character address is first
      grouped in pairs so that the cut at 8 characters keeps 6 digits. */
  function NormalizeMac(mac: string): (r: string)
    ensures ':' !in r && '-' !in r && '.' !in r && ' ' !in r
    ensures forall i :: 0 <= i < |r| ==> !IsLowerLetter(r[i])
    ensures |r| <= 8
  {
    var m := Cleaned(mac);
    CleanedIsClean(mac);
    var grouped := if |m| == 12 then Join(":", Pairs(m, 6)) else m;
    assert IsClean(grouped) by {
      if |m| == 12 {
        PairsStayClean(m, 6);
        JoinClean(":", Pairs(m, 6));
      }
    }
    var cut := Slice(grouped, 0, 8);
    ReplaceCharLength(cut, ':');
    var r := ReplaceChar(cut, ':', "");
    ReplaceCharChars(cut, ':', "");
    assert IsClean(r) by {
      assert forall x :: x in cut ==> x in grouped;
    }
    assert forall i :: 0 <= i < |r| ==> r[i] in r;
    r
  }

  /** Normalising an OUI key again changes nothing. */
  lemma NormalizeMacIdempotent(mac: string)
    ensures NormalizeMac(NormalizeMac(mac)) == NormalizeMac(mac)
  {
    var r := NormalizeMac(mac);
    UpperUnchanged(r);
    ReplaceCharAbsent(r, '-', ":");
    ReplaceCharAbsent(r, '.', "");
    ReplaceCharAbsent(r, ' ', "");
    assert Cleaned(r) == r;
    assert Slice(r, 0, 8) == r;
    ReplaceCharAbsent(r, ':', "");
  }

  /** A six-part join written out. */
  lemma JoinSix(sep: string, p: seq<string>)
    requires |p| == 6
    ensures Join(sep, p) == p[0] + sep + p[1] + sep + p[2] + sep + p[3] + sep + p[4] + sep + p[5]
  {
    var j4 := Join(sep, p[4..]);
    assert p[4..][1..] == p[5..];
    assert Join(sep, p[5..]) == p[5];
    assert j4 == p[4] + sep + p[5];
    var j2 := Join(sep, p[2..]);
    assert p[2..][1..] == p[3..] && p[3..][1..] == p[4..];
    assert Join(sep, p[3..]) == p[3] + sep + j4;
    assert j2 == p[2] + sep + (p[3] + sep + j4);
    assert p[1..][1..] == p[2..];
    assert Join(sep, p) == p[0] + sep + (p[1] + sep + j2);
  }

  /** A three-part join written out. */
  lemma JoinThree(sep: string, a: string, b: string, c: string)
    ensures Join(sep, [a, b, c]) == a + sep + b + sep + c
  {
    assert [a, b, c][1..] == [b, c] && [b, c][1..] == [c];
    assert Join(sep, [c]) == c;
    assert Join(sep, [b, c]) == b + sep + c;
  }

  /** The 8-character cut of a colon-grouped 12-digit string, without its
      colons, is the first six digits. */
  lemma GroupedPrefix(h: string)
    requires |h| == 12 && ':' !in h
    ensures |Join(":", Pairs(h, 6))| == 17
    ensures ReplaceChar(Slice(Join(":", Pairs(h, 6)), 0, 8), ':', "") == h[..6]
  {
    var p := Pairs(h, 6);
    GroupedHead(h);
    assert p[0] == h[0..2] && p[1] == h[2..4] && p[2] == h[4..6];
    DropColons(p[0], p[1], p[2]);
    assert h[..6] == h[0..2] + h[2..4] + h[4..6];
  }

  /** A colon-grouped 12-character string has 17 characters, the first 8
      being the first three pairs. */
  lemma GroupedHead(h: string)
    requires |h| == 12
    ensures var p := Pairs(h, 6);
            |Join(":", p)| == 17 && Slice(Join(":", p), 0, 8) == p[0] + ":" + p[1] + ":" + p[2]
  {
    var p := Pairs(h, 6);
    JoinLength(":", p);
    SumLengthsOfPairs(p);
    var t := Join(":", p[3..]);
    assert p[1..][1..] == p[2..] && p[2..][1..] == p[3..];
    assert Join(":", p[2..]) == p[2] + ":" + t;
    assert Join(":", p[1..]) == p[1] + ":" + Join(":", p[2..]);
    assert Join(":", p) == p[0] + ":" + (p[1] + ":" + (p[2] + ":" + t));
    HeadOfGrouped(p[0], p[1], p[2], t);
  }

  lemma {:induction false} SumLengthsOfPairs(p: seq<string>)
    requires forall k :: 0 <= k < |p| ==> |p[k]| == 2
    ensures SumLengths(p) == 2 * |p|
    decreases |p|
  {
    if p != [] {
      assert forall k :: 0 <= k < |p[1..]| ==> p[1..][k] == p[k + 1];
      SumLengthsOfPairs(p[1..]);
    }
  }

  lemma HeadOfGrouped(a: string, b: string, c: string, t: string)
    requires |a| == 2 && |b| == 2 && |c| == 2
    ensures Slice(a + ":" + (b + ":" + (c + ":" + t)), 0, 8) == a + ":" + b + ":" + c
  {
    var s := a + ":" + (b + ":" + (c + ":" + t));
    var head := a + ":" + b + ":" + c;
    assert s == head + (":" + t);
  }

  lemma DropColons(a: string, b: string, c: string)
    requires ':' !in a && ':' !in b && ':' !in c
    ensures ReplaceChar(a + ":" + b + ":" + c, ':', "") == a + b + c
  {
    JoinThree(":", a, b, c);
    JoinThree("", a, b, c);
    ReplaceCharJoin([a, b, c], ':', "");
  }

  /** Upper-casing the pairs of a string gives the pairs of its upper-case
      form. */
  lemma UpperPairs(h: string, count: int)
    ensures UpperAll(Pairs(h, count)) == Pairs(Upper(h), count)
  {
    var p := Pairs(h, count);
    var q := Pairs(Upper(h), count);
    forall k | 0 <= k < |p| ensures UpperAll(p)[k] == q[k] {
      UpperSlice(h, 2 * k, 2 * k + 2);
    }
    assert |UpperAll(p)| == |q|;
  }

  lemma UpperHex(h: string)
    requires AllHex(h)
    ensures AllHex(Upper(h)) && IsClean(Upper(h)) && ':' !in Upper(h)
  {
    var u := Upper(h);
    UpperIdempotent(h);
    forall i | 0 <= i < |u| ensures IsHexDigit(u[i]) {
      assert IsHexDigit(h[i]);
    }
    HexNotSeparator(u);
    assert IsClean(u) by {
      forall x | x in u ensures x != '-' && x != '.' && x != ' ' && !IsLowerLetter(x) {
        var i :| 0 <= i < |u| && u[i] == x;
      }
    }
  }

  /** A bare 12-digit address gives its first six digits, upper-cased. */
  lemma NormalizeBareMac(h: string)
    requires |h| == 12 && AllHex(h)
    ensures NormalizeMac(h) == Upper(h[..6])
  {
    var u := Upper(h);
    UpperHex(h);
    ReplaceCharAbsent(u, '-', ":");
    ReplaceCharAbsent(u, '.', "");
    ReplaceCharAbsent(u, ' ', "");
    assert Cleaned(h) == u;
    GroupedPrefix(u);
  }

  /** An address written as six colon-separated pairs. */
  function ColonForm(h: string): string {
    Join(":", Pairs(h, 6))
  }

  /** An address written as six dash-separated pairs. */
  function DashForm(h: string): string {
    Join("-", Pairs(h, 6))
  }

  /** An address written as three dot-separated groups of four digits. */
  function DottedForm(h: string): string
    requires |h| == 12
  {
    Join(".", [h[..4], h[4..8], h[8..]])
  }

  /** Every pair of a clean string is clean. */
  lemma PairsStayClean(u: string, count: int)
    requires IsClean(u)
    ensures forall k :: 0 <= k < |Pairs(u, count)| ==> IsClean(Pairs(u, count)[k])
  {
    forall k | 0 <= k < |Pairs(u, count)|
      ensures IsClean(Pairs(u, count)[k])
    {
      var g := Pairs(u, count)[k];
      assert forall x :: x in g ==> x in u;
    }
  }

  /** The pairs of a clean, colon-free string are clean and colon-free. */
  lemma PairsClean(u: string, count: int)
    requires IsClean(u) && ':' !in u
    ensures forall k :: 0 <= k < |Pairs(u, count)| ==> IsClean(Pairs(u, count)[k]) && ':' !in Pairs(u, count)[k]
  {
    forall k | 0 <= k < |Pairs(u, count)|
      ensures IsClean(Pairs(u, count)[k]) && ':' !in Pairs(u, count)[k]
    {
      var g := Pairs(u, count)[k];
      assert forall x :: x in g ==> x in u;
    }
  }

  /** The upper-cased colon form has no dash, dot or space. */
  lemma UpperColonForm(h: string)
    requires AllHex(h)
    ensures Upper(ColonForm(h)) == ColonForm(Upper(h))
    ensures IsClean(ColonForm(Upper(h)))
  {
    var u := Upper(h);
    assert Upper(":") == ":";
    UpperJoin(":", Pairs(h, 6));
    UpperPairs(h, 6);
    UpperHex(h);
    PairsClean(u, 6);
    JoinClean(":", Pairs(u, 6));
  }

  /** A colon-separated address gives its first six digits, upper-cased. */
  lemma NormalizeColonMac(h: string)
    requires |h| == 12 && AllHex(h)
    ensures NormalizeMac(ColonForm(h)) == Upper(h[..6])
  {
    var u := Upper(h);
    var c := ColonForm(u);
    UpperColonForm(h);
    UpperHex(h);
    ReplaceCharAbsent(c, '-', ":");
    ReplaceCharAbsent(c, '.', "");
    ReplaceCharAbsent(c, ' ', "");
    assert Cleaned(ColonForm(h)) == c;
    GroupedPrefix(u);
  }

  /** A dash-separated address gives its first six digits, upper-cased. */
  lemma NormalizeDashMac(h: string)
    requires |h| == 12 && AllHex(h)
    ensures NormalizeMac(DashForm(h)) == Upper(h[..6])
  {
    var u := Upper(h);
    var c := ColonForm(u);
    assert Upper("-") == "-";
    UpperJoin("-", Pairs(h, 6));
    UpperPairs(h, 6);
    UpperHex(h);
    PairsClean(u, 6);
    assert Upper(DashForm(h)) == Join("-", Pairs(u, 6));
    ReplaceCharJoin(Pairs(u, 6), '-', ":");
    JoinClean(":", Pairs(u, 6));
    ReplaceCharAbsent(c, '.', "");
    ReplaceCharAbsent(c, ' ', "");
    assert Cleaned(DashForm(h)) == c;
    GroupedPrefix(u);
  }

  lemma UpperDottedForm(h: string)
    requires |h| == 12
    ensures Upper(DottedForm(h)) == DottedForm(Upper(h))
  {
    var u := Upper(h);
    assert Upper(".") == ".";
    UpperJoin(".", [h[..4], h[4..8], h[8..]]);
    assert Upper(h[..4]) == u[..4] && Upper(h[4..8]) == u[4..8] && Upper(h[8..]) == u[8..];
    assert UpperAll([h[..4], h[4..8], h[8..]]) == [u[..4], u[4..8], u[8..]];
  }

  /** Dropping the dots of a dotted form of a clean string gives the string. */
  lemma DottedFormTidy(u: string)
    requires |u| == 12 && IsClean(u)
    ensures Tidy(DottedForm(u)) == u
  {
    var q := [u[..4], u[4..8], u[8..]];
    var d := DottedForm(u);
    JoinThree(".", q[0], q[1], q[2]);
    assert '-' !in d by {
      assert forall x :: x in d ==> x in u || x == '.';
    }
    ReplaceCharAbsent(d, '-', ":");
    assert forall k :: 0 <= k < 3 ==> forall x :: x in q[k] ==> x in u;
    ReplaceCharJoin(q, '.', "");
    JoinThree("", q[0], q[1], q[2]);
    assert u == q[0] + q[1] + q[2];
    assert ReplaceChar(ReplaceChar(d, '-', ":"), '.', "") == u;
    assert ' ' !in u;
    ReplaceCharAbsent(u, ' ', "");
  }

  /** A dotted address gives its first six digits, upper-cased. */
  lemma NormalizeDottedMac(h: string)
    requires |h| == 12 && AllHex(h)
    ensures NormalizeMac(DottedForm(h)) == Upper(h[..6])
  {
    var u := Upper(h);
    UpperDottedForm(h);
    UpperHex(h);
    DottedFormTidy(u);
    assert Cleaned(DottedForm(h)) == u;
    GroupedPrefix(u);
  }

  // ---------------------------------------------------------------------------
  // _is_private_vendor, _get_block_size and _format_block_size

  /** The two columns of an IEEE registry CSV row the helpers read. */
  datatype OuiRecord = OuiRecord(organizationName: string, organizationAddress: string)

  /** `_is_private_vendor`: the registry lists the vendor as "PRIVATE" and
      publishes no address. */
  function IsPrivateVendor(row: OuiRecord): (r: bool)
    ensures r <==> Upper(Strip(row.organizationName)) == "PRIVATE" && AllSpace(row.organizationAddress)
  {
    StripEmptyIff(row.organizationAddress);
    Upper(Strip(row.organizationName)) == "PRIVATE" && Strip(row.organizationAddress) == ""
  }

  /** Surrounding whitespace and letter case do not matter. */
  lemma PrivateVendorPadded(w1: string, name: string, w2: string, address: string)
    requires AllSpace(w1) && AllSpace(w2) && AllSpace(address)
    requires Upper(name) == "PRIVATE"
    ensures IsPrivateVendor(OuiRecord(w1 + name + w2, address))
  {
    assert !IsSpace(name[0]) && !IsSpace(name[|name| - 1]) by {
      assert |name| == 7;
      assert UpperChar(name[0]) == 'P' && UpperChar(name[6]) == 'E';
    }
    StripPadded(w1, name, w2);
  }

  /** `_get_block_size` gives a number of addresses, or the string "Unknown". */
  datatype BlockSize = Addresses(count: int) | Unknown

  /** The prefix length, in bits, of each IEEE MAC address block: MA-L
      assigns 24 bits, MA-M 28 and MA-S 36 of the 48. */
  function PrefixBits(registry: string): Option<nat> {
    if registry == "MA-L" then Some(24)
    else if registry == "MA-M" then Some(28)
    else if registry == "MA-S" then Some(36)
    else None
  }

  /** `_get_block_size` over the table `BLOCK_SIZES`. */
  function GetBlockSize(registry: string): BlockSize {
    var key := Upper(Strip(registry));
    if key == "MA-L" then Addresses(0x100_0000)
    else if key == "MA-M" then Addresses(0x10_0000)
    else if key == "MA-S" then Addresses(0x1000)
    else Unknown
  }

  /** A block holds every address with the assigned prefix: 2^(48 - bits). */
  lemma BlockSizeOfPrefix(registry: string)
    ensures var key := Upper(Strip(registry));
            match PrefixBits(key)
            case Some(bits) => bits <= 48 && GetBlockSize(registry) == Addresses(Pow2(48 - bits))
            case None => GetBlockSize(registry) == Unknown
  {
    BlockSizesInHexDigits();
  }

  /** The three block sizes, 2^24, 2^20 and 2^12, are whole numbers of hex
      digits: 6, 5 and 3. */
  lemma BlockSizesInHexDigits()
    ensures Pow2(24) == 0x100_0000 == Pow16(6)
    ensures Pow2(20) == 0x10_0000 == Pow16(5)
    ensures Pow2(12) == 0x1000 == Pow16(3)
  {
    Pow16IsPow2(6);
    Pow16IsPow2(5);
    Pow16IsPow2(3);
    assert Pow16(3) == 0x1000;
    assert Pow16(5) == 0x10_0000;
    assert Pow16(6) == 0x100_0000;
  }

  /** `_format_block_size` for the sizes it prints without floating point;
      None stands for a size of 1000 or more, whose `.2f` rendering is not
      part of this model. */
  function FormatBlockSize(size: BlockSize): (r: Option<string>)
    ensures size == Unknown ==> r == Some("Unknown")
    ensures size.Addresses? && size.count >= 1000 ==> r == None
  {
    match size
    case Unknown => Some("Unknown")
    case Addresses(k) => if k >= 1000 then None else Some(FormatDecimal(k) + " addresses")
  }

  /** A small block is printed as its decimal count, with at most three
      digits and no leading zero, then " addresses". */
  lemma FormatSmallBlock(k: nat)
    requires k < 1000
    ensures exists d :: FormatBlockSize(Addresses(k)) == Some(d + " addresses")
                        && 1 <= |d| <= 3 && AllDigits(d) && (|d| > 1 ==> d[0] != '0')
                        && DecimalValue(d) == k
  {
    var d := DecimalDigits(k);
    if |d| > 3 {
      DecimalLeadingBound(d);
      Pow10Grows(|d| - 1);
    }
    assert FormatBlockSize(Addresses(k)) == Some(d + " addresses");
  }

  lemma {:induction false} Pow10Grows(k: nat)
    requires k >= 3
    ensures Pow10(k) >= 1000
  {
    if k > 3 {
      Pow10Grows(k - 1);
    }
  }

  // ---------------------------------------------------------------------------
  // _get_mac_range

  /** `_get_mac_range`'s triple: first and last address of the block as 12
      hex digits, and both written with colons. */
  datatype MacRange = MacRange(startBlock: string, endBlock: string, display: string)

  /** `_get_mac_range`: the OUI padded with zeros to a full address is the
      start of the block; the end is `block_size - 1` further. None stands
      for the ValueError an OUI that is not hex raises. */
  function GetMacRange(oui: string, blockSize: BlockSize): Option<MacRange> {
    match ParseHexInt(Ljust(Upper(oui), 12, '0'))
    case None => None
    case Some(v) => Some(RangeFrom(v, blockSize))
  }

  /** The triple for the block starting at address `v`. The source tests
      `end_block != 'Unknown'` for the display; formatted hex is never that
      word (FormatHexNotUnknown), so the test is whether the size is known. */
  function RangeFrom(v: int, blockSize: BlockSize): MacRange {
    var start := FormatHex(v, 12);
    match blockSize
    case Addresses(count) =>
      var end := FormatHex(v + count - 1, 12);
      MacRange(start, end, Join(":", Pairs(start, 6)) + " - " + Join(":", Pairs(end, 6)))
    case Unknown =>
      MacRange(start, "Unknown", Join(":", Pairs(start, 6)) + " - " + "Unknown")
  }

  /** `f"{n:012X}"` is never the word "Unknown": its first character is a
      digit or a sign, or an upper-case hex letter, none of them `U`. */
  lemma FormatHexNotUnknown(n: int, w: nat)
    ensures FormatHex(n, w) != "Unknown"
  {
    var f := FormatHex(n, w);
    if n >= 0 {
      HexFirst(n);
      var h := Hex(n);
      if |h| < w {
        assert f[0] == '0';
      } else {
        assert f[0] == h[0];
      }
    } else {
      assert f[0] == '-';
    }
  }

  lemma {:induction false} HexFirst(n: nat)
    ensures IsHexDigit(Hex(n)[0]) && !IsLowerLetter(Hex(n)[0])
    decreases n
  {
    if n >= 16 {
      HexFirst(n / 16);
      assert Hex(n)[0] == Hex(n / 16)[0];
    }
  }

  /** The full address an OUI of at most 12 hex digits starts: its digits
      upper-cased, then zeros. */
  function OuiStart(oui: string): string
    requires |oui| <= 12
  {
    Upper(oui) + Repeat('0', 12 - |oui|)
  }

  lemma OuiStartHex(oui: string)
    requires |oui| <= 12 && AllHex(oui)
    ensures AllHex(OuiStart(oui)) && |OuiStart(oui)| == 12
    ensures forall i :: 0 <= i < 12 ==> !IsLowerLetter(OuiStart(oui)[i])
  {
    UpperHex(oui);
    UpperIdempotent(oui);
    HexValueRepeat(12 - |oui|);
    AllHexConcat(Upper(oui), Repeat('0', 12 - |oui|));
  }

  /** Padding and parsing a hex OUI gives the value of its start address,
      which formats back to that address. */
  lemma ParsedOui(oui: string)
    requires |oui| <= 12 && AllHex(oui)
    ensures ParseHexInt(Ljust(Upper(oui), 12, '0')) == Some(HexValue(OuiStart(oui)))
    ensures FormatHex(HexValue(OuiStart(oui)), 12) == OuiStart(oui)
  {
    var start := OuiStart(oui);
    OuiStartHex(oui);
    assert Ljust(Upper(oui), 12, '0') == start;
    ParseHexDigits(start);
    FormatOfHexValue(start);
  }

  /** Without a known size the block has no end. */
  lemma MacRangeUnknown(oui: string)
    requires |oui| <= 12 && AllHex(oui)
    ensures var r := GetMacRange(oui, Unknown);
            r.Some? && r.value.startBlock == OuiStart(oui) && r.value.endBlock == "Unknown"
            && r.value.display == IntToMac(HexValue(OuiStart(oui)), 6) + " - Unknown"
  {
    var v := HexValue(OuiStart(oui));
    MacRangeStart(oui, Unknown);
    ParsedOui(oui);
    RangeWithoutEnd(v);
  }

  /** A hex OUI always has a range, starting at its padded value. */
  lemma MacRangeStart(oui: string, blockSize: BlockSize)
    requires |oui| <= 12 && AllHex(oui)
    ensures GetMacRange(oui, blockSize) == Some(RangeFrom(HexValue(OuiStart(oui)), blockSize))
  {
    ParsedOui(oui);
  }

  lemma RangeWithoutEnd(v: int)
    ensures var r := RangeFrom(v, Unknown);
            r.startBlock == FormatHex(v, 12) && r.endBlock == "Unknown"
            && r.display == IntToMac(v, 6) + " - Unknown"
  {
  }

  /** The end of a block of `count` addresses is `count - 1` past its start,
      as 12 hex digits; the display shows both ends with colons. */
  lemma MacRangeOfOui(oui: string, count: int)
    requires |oui| <= 12 && AllHex(oui)
    requires 0 <= HexValue(OuiStart(oui)) + count - 1 < MacSpace
    ensures GetMacRange(oui, Addresses(count)).Some?
    ensures GetMacRange(oui, Addresses(count)).value.startBlock == OuiStart(oui)
    ensures var e := GetMacRange(oui, Addresses(count)).value.endBlock;
            |e| == 12 && AllHex(e) && HexValue(e) == HexValue(OuiStart(oui)) + count - 1
    ensures var v := HexValue(OuiStart(oui));
            GetMacRange(oui, Addresses(count)).value.display
              == IntToMac(v, 6) + " - " + IntToMac(v + count - 1, 6)
  {
    MacRangeEnds(oui, count);
    MacRangeDisplay(oui, count);
  }

  lemma MacRangeEnds(oui: string, count: int)
    requires |oui| <= 12 && AllHex(oui)
    requires 0 <= HexValue(OuiStart(oui)) + count - 1 < MacSpace
    ensures GetMacRange(oui, Addresses(count)).Some?
    ensures GetMacRange(oui, Addresses(count)).value.startBlock == OuiStart(oui)
    ensures var e := GetMacRange(oui, Addresses(count)).value.endBlock;
            |e| == 12 && AllHex(e) && HexValue(e) == HexValue(OuiStart(oui)) + count - 1
  {
    var v := HexValue(OuiStart(oui));
    var r := RangeFrom(v, Addresses(count));
    assert GetMacRange(oui, Addresses(count)) == Some(r) by {
      MacRangeStart(oui, Addresses(count));
    }
    assert |r.endBlock| == 12 && AllHex(r.endBlock) && HexValue(r.endBlock) == v + count - 1 by {
      RangeWithEnd(v, count);
    }
    assert r.startBlock == OuiStart(oui) by {
      ParsedOui(oui);
    }
  }

  lemma MacRangeDisplay(oui: string, count: int)
    requires |oui| <= 12 && AllHex(oui)
    requires 0 <= HexValue(OuiStart(oui)) + count - 1 < MacSpace
    ensures GetMacRange(oui, Addresses(count)).Some?
    ensures var v := HexValue(OuiStart(oui));
            GetMacRange(oui, Addresses(count)).value.display
              == IntToMac(v, 6) + " - " + IntToMac(v + count - 1, 6)
  {
    var v := HexValue(OuiStart(oui));
    var r := RangeFrom(v, Addresses(count));
    MacRangeStart(oui, Addresses(count));
    RangeWithEnd(v, count);
  }

  lemma RangeWithEnd(v: int, count: int)
    requires 0 <= v + count - 1 < MacSpace
    ensures var r := RangeFrom(v, Addresses(count));
            r.startBlock == FormatHex(v, 12)
            && |r.endBlock| == 12 && AllHex(r.endBlock)
            && HexValue(r.endBlock) == v + count - 1
            && r.display == IntToMac(v, 6) + " - " + IntToMac(v + count - 1, 6)
  {
    var e := v + count - 1;
    MacHex(e);
  }

  /** The block assigned to an OUI of `12 - d` digits with `16^d` addresses
      (MA-L: 6 digits, MA-M: 7, MA-S: 9) runs from the OUI followed by `0`s
      to the OUI followed by `F`s. */
  lemma AssignedBlock(oui: string, d: nat)
    requires |oui| + d == 12 && AllHex(oui)
    ensures var r := GetMacRange(oui, Addresses(Pow16(d)));
            r.Some? && r.value.startBlock == Upper(oui) + Repeat('0', d)
            && r.value.endBlock == Upper(oui) + Repeat('F', d)
  {
    var start := OuiStart(oui);
    var last := Upper(oui) + Repeat('F', d);
    var v := HexValue(start);
    var count := Pow16(d);
    MacRangeStart(oui, Addresses(count));
    ParsedOui(oui);
    BlockEndValue(oui, d);
    AssignedBlockEnd(oui, d);
    EndOfBlock(v, count, last);
  }

  /** The last address of the block is worth `16^d - 1` more than the first. */
  lemma BlockEndValue(oui: string, d: nat)
    requires |oui| + d == 12 && AllHex(oui)
    ensures var last := Upper(oui) + Repeat('F', d);
            AllHex(last) && HexValue(last) == HexValue(OuiStart(oui)) + Pow16(d) - 1
            && HexValue(last) < MacSpace
  {
    var u := Upper(oui);
    UpperHex(oui);
    HexValueRepeat(d);
    HexValueConcat(u, Repeat('0', d));
    HexValueConcat(u, Repeat('F', d));
    MacSpaceValue();
  }

  /** A block whose end has the digits `last` ends at `last`. */
  lemma EndOfBlock(v: int, count: int, last: string)
    requires AllHex(last) && HexValue(last) == v + count - 1 < MacSpace
    requires FormatHex(HexValue(last), 12) == last
    ensures RangeFrom(v, Addresses(count)).endBlock == last
  {
  }

  lemma AssignedBlockEnd(oui: string, d: nat)
    requires |oui| + d == 12 && AllHex(oui)
    ensures var last := Upper(oui) + Repeat('F', d);
            AllHex(last) && FormatHex(HexValue(last), 12) == last
  {
    var u := Upper(oui);
    var last := u + Repeat('F', d);
    UpperHex(oui);
    UpperIdempotent(oui);
    HexValueRepeat(d);
    AllHexConcat(u, Repeat('F', d));
    assert forall i :: 0 <= i < 12 ==> !IsLowerLetter(last[i]);
    FormatOfHexValue(last);
  }

  // ---------------------------------------------------------------------------
  // _classify_mac

  /** `n & 2**k != 0`: bit `k` of `n` in two's complement (floor division and
      Euclidean division agree for a positive divisor). */
  predicate Bit(n: int, k: nat) {
    (n / Pow2(k)) % 2 == 1
  }

  /** Line 65: separators removed, upper-cased. */
  function ClassifyClean(mac: string): string {
    Upper(ReplaceChar(ReplaceChar(mac, ':', ""), '-', ""))
  }

  /** Line 66: the first two remaining characters read as hex; `int` raising
      ValueError is None. */
  function FirstByte(mac: string): Option<int> {
    ParseHexInt(Slice(ClassifyClean(mac), 0, 2))
  }

  datatype MacClass = MacClass(classification: string, isRandom: bool)

  predicate StartsWith(s: string, p: string) {
    |p| <= |s| && s[..|p|] == p
  }

  predicate EndsWith(s: string, p: string) {
    |p| <= |s| && s[|s| - |p|..] == p
  }

  /** `_classify_mac`: bit 0 of the first octet (I/G) picks Multicast or
      Unicast, bit 1 (U/L) picks Locally Administered or Globally Unique, and
      `is_random` is the negation of bit 1. A first octet that is not hex
      raises ValueError, modelled as None. */
  function ClassifyMac(mac: string): (r: Option<MacClass>)
    ensures r.Some? <==> FirstByte(mac).Some?
    ensures r.Some? ==>
      var b := FirstByte(mac).value;
      var c := r.value.classification;
      (StartsWith(c, "Multicast") <==> Bit(b, 0))
      && (StartsWith(c, "Unicast") <==> !Bit(b, 0))
      && (EndsWith(c, " (Locally Administered)") <==> Bit(b, 1))
      && (EndsWith(c, " (Globally Unique)") <==> !Bit(b, 1))
      && (r.value.isRandom <==> !Bit(b, 1))
  {
    match FirstByte(mac)
    case None => None
    case Some(b) =>
      var isLocal := Bit(b, 1);
      var isMulticast := Bit(b, 0);
      var kind := if isMulticast then "Multicast" else "Unicast";
      var scope := if isLocal then " (Locally Administered)" else " (Globally Unique)";
      LabelParts(kind, scope);
      Some(MacClass(kind + scope, !isLocal))
  }

  /** The two halves of a label can be read back from it. */
  lemma LabelParts(kind: string, scope: string)
    requires kind == "Multicast" || kind == "Unicast"
    requires scope == " (Locally Administered)" || scope == " (Globally Unique)"
    ensures StartsWith(kind + scope, "Multicast") <==> kind == "Multicast"
    ensures StartsWith(kind + scope, "Unicast") <==> kind == "Unicast"
    ensures EndsWith(kind + scope, " (Locally Administered)") <==> scope == " (Locally Administered)"
    ensures EndsWith(kind + scope, " (Globally Unique)") <==> scope == " (Globally Unique)"
  {
    var c := kind + scope;
    assert c[..|kind|] == kind && c[|kind|..] == scope;
    if kind == "Unicast" {
      assert c[0] == 'U';
    } else {
      assert c[0] == 'M';
    }
    if scope == " (Globally Unique)" {
      assert c[|c| - 2] == 'e';
    } else {
      assert c[|c| - 2] == 'd';
    }
  }

  /** Bit `j` of `n` shifted right by `k` is bit `k + j` of `n`. */
  lemma BitOfShift(n: int, k: nat, j: nat)
    ensures Bit(n / Pow2(k), j) == Bit(n, k + j)
  {
    DivDiv(n, Pow2(k), Pow2(j));
    Pow2Add(k, j);
  }

  /** Removing the separators of a formatted address gives its 12 digits. */
  lemma CleanIntToMac(n: int)
    requires 0 <= n < MacSpace
    ensures ClassifyClean(IntToMac(n, 6)) == FixedHex(n, 12)
  {
    MacHex(n);
    var h := FixedHex(n, 12);
    var p := Pairs(h, 6);
    assert IntToMac(n, 6) == Join(":", p);
    assert ReplaceChar(Join(":", p), ':', "") == h by {
      PairsHex(h, 6);
      forall k | 0 <= k < |p| ensures ':' !in p[k] {
        HexNotSeparator(p[k]);
      }
      ReplaceCharJoin(p, ':', "");
      JoinPairs(h, 6);
    }
    HexNotSeparator(h);
    ReplaceCharAbsent(h, '-', "");
    UpperUnchanged(h);
  }

  /** The two leading digits of 12 spell the number shifted right by 40 bits. */
  lemma LeadingPair(n: nat)
    requires n < MacSpace
    ensures ParseHexInt(Slice(FixedHex(n, 12), 0, 2)) == Some(n / Pow2(40))
  {
    var b := DropDigits(n, 10);
    FixedHexSplit(n, 2, 10);
    assert Slice(FixedHex(n, 12), 0, 2) == FixedHex(b, 2);
    assert b < Pow16(2) by {
      MacSpaceValue();
      Pow16Add(2, 10);
      DivBound(n, Pow16(10), Pow16(2));
    }
    HexValueOfFixedHexFits(b, 2);
    ParseHexDigits(FixedHex(b, 2));
    Pow16IsPow2(10);
  }

  /** The first octet of a formatted address is the top octet of the number. */
  lemma FirstByteOfIntToMac(n: int)
    requires 0 <= n < MacSpace
    ensures FirstByte(IntToMac(n, 6)) == Some(n / Pow2(40))
  {
    CleanIntToMac(n);
    LeadingPair(n);
  }

  /** For a 48-bit address, the label and the random flag follow bits 40 (I/G)
      and 41 (U/L) of the number, the two low bits of its first octet. */
  lemma ClassifyIntToMac(n: int)
    requires 0 <= n < MacSpace
    ensures var r := ClassifyMac(IntToMac(n, 6));
            r.Some?
            && (StartsWith(r.value.classification, "Multicast") <==> Bit(n, 40))
            && (EndsWith(r.value.classification, " (Locally Administered)") <==> Bit(n, 41))
            && (r.value.isRandom <==> !Bit(n, 41))
  {
    FirstByteOfIntToMac(n);
    var k: nat := 40;
    ClassifyShifted(IntToMac(n, 6), n, k);
  }

  /** When the first octet is `n` shifted right by `k`, the label follows
      bits `k` and `k + 1` of `n`. */
  lemma ClassifyShifted(mac: string, n: int, k: nat)
    requires FirstByte(mac) == Some(n / Pow2(k))
    ensures var r := ClassifyMac(mac);
            r.Some?
            && (StartsWith(r.value.classification, "Multicast") <==> Bit(n, k))
            && (EndsWith(r.value.classification, " (Locally Administered)") <==> Bit(n, k + 1))
            && (r.value.isRandom <==> !Bit(n, k + 1))
  {
    var b := n / Pow2(k);
    assert Bit(b, 0) == Bit(n, k) by {
      BitOfShift(n, k, 0);
    }
    assert Bit(b, 1) == Bit(n, k + 1) by {
      BitOfShift(n, k, 1);
    }
  }

  // ---------------------------------------------------------------------------
  // _get_country_code

  /** `\b[A-Z]{2}\b` matches at position i: two capital letters, with no
      word character on either side. */
  predicate MatchAt(s: string, i: int) {
    0 <= i && i + 2 <= |s| && IsUpperLetter(s[i]) && IsUpperLetter(s[i + 1])
    && (i == 0 || !IsWordChar(s[i - 1]))
    && (i + 2 == |s| || !IsWordChar(s[i + 2]))
  }

  /** Two matches never overlap: the second letter of one is preceded by a
      word character. */
  lemma MatchNotNext(s: string, i: int)
    requires MatchAt(s, i)
    ensures !MatchAt(s, i + 1)
  {
  }

  /** `findall` from position i: after a match the scan resumes behind it,
      otherwise one character further. */
  function FindAllFrom(s: string, i: nat): seq<string>
    decreases |s| - i
  {
    if i + 2 > |s| then []
    else if MatchAt(s, i) then [s[i..i + 2]] + FindAllFrom(s, i + 2)
    else FindAllFrom(s, i + 1)
  }

  /** Every word found is two capital letters. */
  predicate IsTwoCapitals(w: string) {
    |w| == 2 && IsUpperLetter(w[0]) && IsUpperLetter(w[1])
  }

  lemma {:induction false} FindAllWords(s: string, i: nat)
    ensures forall w :: w in FindAllFrom(s, i) ==> IsTwoCapitals(w)
    decreases |s| - i
  {
    if i + 2 <= |s| {
      if MatchAt(s, i) {
        FindAllWords(s, i + 2);
      } else {
        FindAllWords(s, i + 1);
      }
    }
  }

  /** `[word for word in words if word in ISO_COUNTRIES]`. */
  function KeepCodes(words: seq<string>, iso: set<string>): seq<string>
  {
    if words == [] then []
    else (if words[0] in iso then [words[0]] else []) + KeepCodes(words[1..], iso)
  }

  /** Only country codes among the words are kept, and never more words. */
  lemma {:induction false} KeepCodesSubset(words: seq<string>, iso: set<string>)
    ensures forall w :: w in KeepCodes(words, iso) ==> w in words && w in iso
    ensures |KeepCodes(words, iso)| <= |words|
  {
    if words != [] {
      KeepCodesSubset(words[1..], iso);
    }
  }

  /** `_get_country_code`: the last two-capital-letter word of the address
      that is a country code, or "Unknown". */
  function CountryCode(address: string, iso: set<string>): (r: string)
    ensures r == "Unknown" || (r in iso && IsTwoCapitals(r))
  {
    if address == [] then "Unknown"
    else
      var words := FindAllFrom(address, 0);
      var codes := KeepCodes(words, iso);
      FindAllWords(address, 0);
      KeepCodesSubset(words, iso);
      if codes == [] then "Unknown" else codes[|codes| - 1]
  }

  /** The word at position j is a country code. */
  predicate CodeAt(s: string, iso: set<string>, j: int) {
    MatchAt(s, j) && s[j..j + 2] in iso
  }

  /** No country code from position i on. */
  lemma {:induction false} NoCodesFrom(s: string, iso: set<string>, i: nat)
    requires forall k :: i <= k ==> !CodeAt(s, iso, k)
    ensures KeepCodes(FindAllFrom(s, i), iso) == []
    decreases |s| - i
  {
    if i + 2 <= |s| {
      if MatchAt(s, i) {
        assert !CodeAt(s, iso, i);
        NoCodesFrom(s, iso, i + 2);
        KeepCodesCons(s[i..i + 2], FindAllFrom(s, i + 2), iso);
      } else {
        NoCodesFrom(s, iso, i + 1);
      }
    }
  }

  lemma KeepCodesCons(w: string, rest: seq<string>, iso: set<string>)
    ensures KeepCodes([w] + rest, iso) == (if w in iso then [w] else []) + KeepCodes(rest, iso)
  {
    assert ([w] + rest)[1..] == rest;
  }

  /** From any position up to the last country code, the kept words end with
      that code. */
  lemma {:induction false} LastCodeFrom(s: string, iso: set<string>, i: nat, j: nat)
    requires i <= j && CodeAt(s, iso, j)
    requires forall k :: j < k ==> !CodeAt(s, iso, k)
    ensures var codes := KeepCodes(FindAllFrom(s, i), iso);
            |codes| >= 1 && codes[|codes| - 1] == s[j..j + 2]
    decreases |s| - i
  {
    if MatchAt(s, i) {
      var w := s[i..i + 2];
      var rest := FindAllFrom(s, i + 2);
      FindAllAtMatch(s, i);
      if i == j {
        assert KeepCodes([w] + rest, iso) == [w] by {
          NoCodesFrom(s, iso, i + 2);
          KeepOnlyCode(w, rest, iso);
        }
      } else {
        var tail := KeepCodes(rest, iso);
        assert |tail| >= 1 && tail[|tail| - 1] == s[j..j + 2] by {
          MatchNotNext(s, i);
          assert i + 1 != j;
          LastCodeFrom(s, iso, i + 2, j);
        }
        KeepLastCode(w, rest, iso);
      }
    } else {
      assert i != j;
      FindAllSkip(s, i);
      LastCodeFrom(s, iso, i + 1, j);
    }
  }

  lemma FindAllAtMatch(s: string, i: nat)
    requires MatchAt(s, i)
    ensures FindAllFrom(s, i) == [s[i..i + 2]] + FindAllFrom(s, i + 2)
  {
  }

  lemma FindAllSkip(s: string, i: nat)
    requires !MatchAt(s, i)
    ensures FindAllFrom(s, i) == FindAllFrom(s, i + 1)
  {
  }

  /** A code followed by no codes is the only code kept. */
  lemma KeepOnlyCode(w: string, rest: seq<string>, iso: set<string>)
    requires w in iso && KeepCodes(rest, iso) == []
    ensures KeepCodes([w] + rest, iso) == [w]
  {
    KeepCodesCons(w, rest, iso);
  }

  /** A word in front does not change the last code kept. */
  lemma KeepLastCode(w: string, rest: seq<string>, iso: set<string>)
    requires |KeepCodes(rest, iso)| >= 1
    ensures var codes := KeepCodes([w] + rest, iso);
            var tail := KeepCodes(rest, iso);
            |codes| >= 1 && codes[|codes| - 1] == tail[|tail| - 1]
  {
    KeepCodesCons(w, rest, iso);
    LastOfConcat((if w in iso then [w] else []), KeepCodes(rest, iso));
  }

  lemma LastOfConcat(a: seq<string>, b: seq<string>)
    requires |b| >= 1
    ensures (a + b)[|a + b| - 1] == b[|b| - 1]
  {
  }

  /** The result is the code at the last position holding one. */
  lemma CountryCodeLast(s: string, iso: set<string>, j: nat)
    requires CodeAt(s, iso, j)
    requires forall k :: j < k ==> !CodeAt(s, iso, k)
    ensures CountryCode(s, iso) == s[j..j + 2]
  {
    LastCodeFrom(s, iso, 0, j);
  }

  /** Without any country code, including for an empty address, the result
      is "Unknown". */
  lemma CountryCodeNone(s: string, iso: set<string>)
    requires forall k :: !CodeAt(s, iso, k)
    ensures CountryCode(s, iso) == "Unknown"
  {
    NoCodesFrom(s, iso, 0);
  }

  /** Some position holds the last country code whenever one does. */
  lemma {:induction false} LastCodeExists(s: string, iso: set<string>, i: nat) returns (j: nat)
    requires CodeAt(s, iso, i)
    ensures i <= j && CodeAt(s, iso, j) && forall k :: j < k ==> !CodeAt(s, iso, k)
    decreases |s| - i
  {
    if k :| i < k && CodeAt(s, iso, k) {
      j := LastCodeExists(s, iso, k);
    } else {
      j := i;
    }
  }

  /** The result is "Unknown" exactly when the address holds no country code. */
  lemma CountryCodeUnknown(s: string, iso: set<string>)
    ensures CountryCode(s, iso) == "Unknown" <==> forall k :: !CodeAt(s, iso, k)
  {
    if k :| CodeAt(s, iso, k) {
      var j := LastCodeExists(s, iso, k);
      CountryCodeLast(s, iso, j);
      assert s[j..j + 2] != "Unknown";
    } else {
      CountryCodeNone(s, iso);
    }
  }
}

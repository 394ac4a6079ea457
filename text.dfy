/** The Python `str` operations the modelled helpers are built from, on
    `string` = `seq<char>`: `split(sep)`, `sep.join(parts)`, `strip()`,
    `upper()`, `replace(c, t)`, clamped slicing, `ljust` and `reversed`. */
module Text {

  // ---------------------------------------------------------------------------
  // Character classes

  /** `str.isspace()` for one character (the characters Python's `strip()`
      removes when called without arguments). */
  predicate IsSpace(c: char) {
    ('\t' <= c <= '\r') || ('\U{1C}' <= c <= '\U{1F}') || c == ' '
    || c == '\U{85}' || c == '\U{A0}' || c == '\U{1680}'
    || ('\U{2000}' <= c <= '\U{200A}') || c == '\U{2028}' || c == '\U{2029}'
    || c == '\U{202F}' || c == '\U{205F}' || c == '\U{3000}'
  }

  predicate IsDigit(c: char) { '0' <= c <= '9' }
  predicate IsUpperLetter(c: char) { 'A' <= c <= 'Z' }
  predicate IsLowerLetter(c: char) { 'a' <= c <= 'z' }

  /** The regex class `\w`, restricted to ASCII. */
  predicate IsWordChar(c: char) {
    IsDigit(c) || IsUpperLetter(c) || IsLowerLetter(c) || c == '_'
  }

  predicate AllSpace(s: string) {
    forall i :: 0 <= i < |s| ==> IsSpace(s[i])
  }

  // ---------------------------------------------------------------------------
  // upper()

  function UpperChar(c: char): char {
    if IsLowerLetter(c) then (c as int - 'a' as int + 'A' as int) as char else c
  }

  /** `s.upper()`, mapping the ASCII letters only: no lower-case letter is
      left, and every other character keeps its place. */
  function Upper(s: string): (r: string)
    ensures |r| == |s|
    ensures forall i :: 0 <= i < |s| ==> r[i] == UpperChar(s[i])
    ensures forall i :: 0 <= i < |s| ==> !IsLowerLetter(r[i])
    ensures forall i :: 0 <= i < |s| && !IsLowerLetter(s[i]) ==> r[i] == s[i]
  {
    seq(|s|, i requires 0 <= i < |s| => UpperChar(s[i]))
  }

  lemma UpperConcat(a: string, b: string)
    ensures Upper(a + b) == Upper(a) + Upper(b)
  {
  }

  lemma {:induction false} UpperIdempotent(s: string)
    ensures Upper(Upper(s)) == Upper(s)
    ensures forall i :: 0 <= i < |s| ==> !IsLowerLetter(Upper(s)[i])
  {
    assert forall i :: 0 <= i < |s| ==> UpperChar(UpperChar(s[i])) == UpperChar(s[i]);
  }

  // ---------------------------------------------------------------------------
  // replace(c, t) for a one-character pattern

  function ReplaceChar(s: string, c: char, t: string): string {
    if s == [] then []
    else (if s[0] == c then t else [s[0]]) + ReplaceChar(s[1..], c, t)
  }

  /** Every character of the result comes from the string or the
      replacement; the replaced character survives only through the
      replacement. */
  lemma {:induction false} ReplaceCharChars(s: string, c: char, t: string)
    ensures c !in t ==> c !in ReplaceChar(s, c, t)
    ensures forall x :: x in ReplaceChar(s, c, t) ==> x in s || x in t
  {
    if s != [] {
      ReplaceCharChars(s[1..], c, t);
    }
  }

  lemma {:induction false} ReplaceCharConcat(a: string, b: string, c: char, t: string)
    ensures ReplaceChar(a + b, c, t) == ReplaceChar(a, c, t) + ReplaceChar(b, c, t)
  {
    if a != [] {
      assert (a + b)[0] == a[0];
      assert (a + b)[1..] == a[1..] + b;
      ReplaceCharConcat(a[1..], b, c, t);
    } else {
      assert a + b == b;
    }
  }

  lemma {:induction false} ReplaceCharAbsent(s: string, c: char, t: string)
    requires c !in s
    ensures ReplaceChar(s, c, t) == s
  {
    if s != [] {
      ReplaceCharAbsent(s[1..], c, t);
    }
  }

  lemma {:induction false} ReplaceCharLength(s: string, c: char)
    ensures |ReplaceChar(s, c, "")| <= |s|
  {
    if s != [] {
      ReplaceCharLength(s[1..], c);
    }
  }

  /** Deleting a character commutes with ASCII upper-casing when that character
      is not a lower-case letter. */
  lemma {:induction false} ReplaceCharUpper(s: string, c: char)
    requires !IsLowerLetter(c) && !IsUpperLetter(c)
    ensures ReplaceChar(Upper(s), c, "") == Upper(ReplaceChar(s, c, ""))
  {
    if s != [] {
      assert Upper(s)[1..] == Upper(s[1..]);
      ReplaceCharUpper(s[1..], c);
      if s[0] == c {
        assert Upper(s)[0] == c;
      } else {
        assert Upper(s)[0] != c;
        UpperConcat([s[0]], ReplaceChar(s[1..], c, ""));
      }
    }
  }

  // ---------------------------------------------------------------------------
  // Slicing and padding

  /** `s[i:j]` for non-negative bounds: Python clamps both to `len(s)`. */
  function Slice(s: string, i: nat, j: nat): (r: string)
    ensures |r| <= |s|
  {
    var hi := if j <= |s| then j else |s|;
    var lo := if i <= hi then i else hi;
    s[lo..hi]
  }

  function Repeat(c: char, n: nat): (r: string)
    ensures |r| == n
    ensures forall i :: 0 <= i < n ==> r[i] == c
  {
    if n == 0 then [] else [c] + Repeat(c, n - 1)
  }

  /** `s.ljust(width, fill)`. */
  function Ljust(s: string, width: nat, fill: char): (r: string)
    ensures |s| >= width ==> r == s
    ensures |s| < width ==> |r| == width && r[..|s|] == s
    ensures forall i :: |s| <= i < |r| ==> r[i] == fill
  {
    if |s| >= width then s else s + Repeat(fill, width - |s|)
  }

  // ---------------------------------------------------------------------------
  // split(sep) and join

  /** `s.split(sep)` with a one-character separator: the maximal runs between
      separators, in order; there is always at least one field. */
  function Split(s: string, sep: char): (r: seq<string>)
    ensures |r| >= 1
    ensures forall k :: 0 <= k < |r| ==> sep !in r[k]
    decreases |s|
  {
    if s == [] then [[]]
    else
      var rest := Split(s[1..], sep);
      if s[0] == sep then [[]] + rest
      else [[s[0]] + rest[0]] + rest[1..]
  }

  /** `sep.join(parts)`. */
  function Join(sep: string, parts: seq<string>): string
    decreases |parts|
  {
    if parts == [] then []
    else if |parts| == 1 then parts[0]
    else parts[0] + sep + Join(sep, parts[1..])
  }

  lemma {:induction false} SplitNoSep(s: string, sep: char)
    requires sep !in s
    ensures Split(s, sep) == [s]
    decreases |s|
  {
    if s != [] {
      assert s[0] != sep && sep !in s[1..];
      SplitNoSep(s[1..], sep);
      assert [s[0]] + s[1..] == s;
    }
  }

  /** A split has one field exactly when the separator does not occur. */
  lemma {:induction false} SplitSingleton(s: string, sep: char)
    ensures |Split(s, sep)| == 1 <==> sep !in s
    decreases |s|
  {
    if s != [] {
      SplitSingleton(s[1..], sep);
      assert s == [s[0]] + s[1..];
    }
  }

  /** A field without the separator, followed by the separator, is split off
      as the first field. */
  lemma {:induction false} SplitCons(t: string, sep: char, w: string)
    requires sep !in t
    ensures Split(t + [sep] + w, sep) == [t] + Split(w, sep)
    decreases |t|
  {
    if t == [] {
      assert t + [sep] + w == [sep] + w;
      assert ([sep] + w)[1..] == w;
    } else {
      assert (t + [sep] + w)[1..] == t[1..] + [sep] + w;
      SplitCons(t[1..], sep, w);
      assert [t[0]] + t[1..] == t;
    }
  }

  /** Joining one more part appends the separator and that part. */
  lemma {:induction false} JoinSnoc(sep: string, parts: seq<string>, x: string)
    requires |parts| >= 1
    ensures Join(sep, parts + [x]) == Join(sep, parts) + sep + x
    decreases |parts|
  {
    var s := parts + [x];
    assert s[0] == parts[0] && s[1..] == parts[1..] + [x];
    if |parts| > 1 {
      JoinSnoc(sep, parts[1..], x);
    } else {
      assert s[1..] == [x];
    }
  }

  /** Splitting at a separator placed between two strings splits each. */
  lemma {:induction false} SplitAround(a: string, sep: char, b: string)
    ensures Split(a + [sep] + b, sep) == Split(a, sep) + Split(b, sep)
    decreases |a|
  {
    var s := a + [sep] + b;
    if a == [] {
      assert s == [sep] + b && s[1..] == b;
    } else {
      assert s[0] == a[0] && s[1..] == a[1..] + [sep] + b;
      SplitAround(a[1..], sep, b);
    }
  }

  /** The converse of SplitCons: a split with two or more fields starts with a
      first field followed by a separator. */
  lemma {:induction false} SplitHead(s: string, sep: char)
    requires |Split(s, sep)| >= 2
    ensures |Split(s, sep)[0]| < |s|
    ensures s[..|Split(s, sep)[0]|] == Split(s, sep)[0]
    ensures s[|Split(s, sep)[0]|] == sep
    ensures Split(s[|Split(s, sep)[0]| + 1..], sep) == Split(s, sep)[1..]
    decreases |s|
  {
    var f := Split(s, sep);
    if s[0] == sep {
      assert f[0] == [];
    } else {
      SplitHead(s[1..], sep);
      var g := Split(s[1..], sep);
      assert f[0] == [s[0]] + g[0];
      assert s[1..][|g[0]| + 1..] == s[|f[0]| + 1..];
    }
  }

  /** The last field of a split is a suffix of the string. */
  lemma {:induction false} SplitLastSuffix(s: string, sep: char)
    ensures var f := Split(s, sep);
            |f[|f| - 1]| <= |s| && s[|s| - |f[|f| - 1]|..] == f[|f| - 1]
    decreases |s|
  {
    if s != [] {
      var rest := Split(s[1..], sep);
      SplitLastSuffix(s[1..], sep);
      if s[0] != sep && |rest| == 1 {
        SplitSingleton(s[1..], sep);
        SplitNoSep(s[1..], sep);
        assert [s[0]] + s[1..] == s;
      }
    }
  }

  /** Joining the fields of a split with the same separator restores the string. */
  lemma {:induction false} JoinSplit(s: string, sep: char)
    ensures Join([sep], Split(s, sep)) == s
    decreases |s|
  {
    var f := Split(s, sep);
    if |f| >= 2 {
      SplitHead(s, sep);
      var n := |f[0]|;
      JoinSplit(s[n + 1..], sep);
      assert s == s[..n] + [sep] + s[n + 1..];
    } else {
      SplitSingleton(s, sep);
      SplitNoSep(s, sep);
    }
  }

  /** Splitting a join of separator-free fields gives the fields back. */
  lemma {:induction false} SplitJoin(parts: seq<string>, sep: char)
    requires |parts| >= 1
    requires forall k :: 0 <= k < |parts| ==> sep !in parts[k]
    ensures Split(Join([sep], parts), sep) == parts
    decreases |parts|
  {
    if |parts| == 1 {
      SplitNoSep(parts[0], sep);
    } else {
      SplitJoin(parts[1..], sep);
      SplitCons(parts[0], sep, Join([sep], parts[1..]));
    }
  }

  /** Total length of the fields of a split: every separator is dropped. */
  function SumLengths(parts: seq<string>): nat
    decreases |parts|
  {
    if parts == [] then 0 else |parts[0]| + SumLengths(parts[1..])
  }

  lemma {:induction false} JoinLength(sep: string, parts: seq<string>)
    requires |parts| >= 1
    ensures |Join(sep, parts)| == SumLengths(parts) + (|parts| - 1) * |sep|
    decreases |parts|
  {
    if |parts| > 1 {
      JoinLength(sep, parts[1..]);
    }
  }

  lemma {:induction false} SplitSnoc(s: string, sep: char, c: char)
    requires c != sep
    ensures var f := Split(s, sep);
            Split(s + [c], sep) == f[..|f| - 1] + [f[|f| - 1] + [c]]
    decreases |s|
  {
    if s == [] {
      var e: string := [c];
      assert s + [c] == e && e[1..] == [] && e[0] == c;
      var empty: string := [];
      assert e[1..] == empty;
      assert Split(empty, sep) == [empty];
      var rest := Split(e[1..], sep);
      assert rest == [empty] && rest[1..] == [] && [e[0]] + rest[0] == e;
      assert Split(e, sep) == [[e[0]] + rest[0]] + rest[1..];
    } else {
      var g := Split(s[1..], sep);
      assert (s + [c])[0] == s[0];
      assert (s + [c])[1..] == s[1..] + [c];
      SplitSnoc(s[1..], sep, c);
      if s[0] == sep {
        EmptyOntoLast(g, c);
      } else {
        ConsOntoLast(s[0], g, c);
      }
    }
  }

  /** Appending to the last field commutes with a new empty first field. */
  lemma EmptyOntoLast(g: seq<string>, c: char)
    requires |g| >= 1
    ensures var f := [[]] + g;
            [[]] + (g[..|g| - 1] + [g[|g| - 1] + [c]]) == f[..|f| - 1] + [f[|f| - 1] + [c]]
  {
    var f := [[]] + g;
    assert f[..|f| - 1] == [[]] + g[..|g| - 1];
  }

  /** Appending to the last field commutes with extending the first field. */
  lemma ConsOntoLast(x: char, g: seq<string>, c: char)
    requires |g| >= 1
    ensures var f := [[x] + g[0]] + g[1..];
            var h := g[..|g| - 1] + [g[|g| - 1] + [c]];
            [[x] + h[0]] + h[1..] == f[..|f| - 1] + [f[|f| - 1] + [c]]
  {
    var f := [[x] + g[0]] + g[1..];
    var h := g[..|g| - 1] + [g[|g| - 1] + [c]];
    if |g| == 1 {
      assert h == [g[0] + [c]];
      assert [x] + (g[0] + [c]) == ([x] + g[0]) + [c];
    } else {
      var front := g[..|g| - 1];
      assert front[0] == g[0];
      assert h[0] == g[0];
      assert front[1..] == g[1..|g| - 1];
      assert h[1..] == front[1..] + [g[|g| - 1] + [c]];
      assert f[..|f| - 1] == [[x] + g[0]] + g[1..|g| - 1];
      assert f[|f| - 1] == g[|g| - 1];
    }
  }

  // ---------------------------------------------------------------------------
  // reversed()

  function Reversed<T>(s: seq<T>): (r: seq<T>)
    ensures |r| == |s|
    decreases |s|
  {
    if s == [] then [] else Reversed(s[1..]) + [s[0]]
  }

  lemma {:induction false} ReversedAt<T>(s: seq<T>, k: nat)
    requires k < |s|
    ensures Reversed(s)[k] == s[|s| - 1 - k]
    decreases |s|
  {
    if k < |s| - 1 {
      ReversedAt(s[1..], k);
    }
  }

  lemma ReversedIndex<T>(s: seq<T>)
    ensures forall k :: 0 <= k < |s| ==> Reversed(s)[k] == s[|s| - 1 - k]
  {
    forall k | 0 <= k < |s| ensures Reversed(s)[k] == s[|s| - 1 - k] {
      ReversedAt(s, k);
    }
  }

  lemma ReversedInvolution<T>(s: seq<T>)
    ensures Reversed(Reversed(s)) == s
  {
    ReversedIndex(s);
    ReversedIndex(Reversed(s));
  }

  lemma {:induction false} SumLengthsAppend(a: seq<string>, b: seq<string>)
    ensures SumLengths(a + b) == SumLengths(a) + SumLengths(b)
    decreases |a|
  {
    if a != [] {
      assert (a + b)[0] == a[0];
      assert (a + b)[1..] == a[1..] + b;
      SumLengthsAppend(a[1..], b);
    } else {
      assert a + b == b;
    }
  }

  lemma {:induction false} SumLengthsReversed(parts: seq<string>)
    ensures SumLengths(Reversed(parts)) == SumLengths(parts)
    decreases |parts|
  {
    if parts != [] {
      SumLengthsReversed(parts[1..]);
      SumLengthsAppend(Reversed(parts[1..]), [parts[0]]);
    }
  }

  // ---------------------------------------------------------------------------
  // strip()

  function TrimLeft(s: string): (r: string)
    ensures |r| <= |s|
    ensures r == [] || !IsSpace(r[0])
    decreases |s|
  {
    if s != [] && IsSpace(s[0]) then TrimLeft(s[1..]) else s
  }

  /** `lstrip()` removes a prefix made of whitespace. */
  lemma {:induction false} TrimLeftSuffix(s: string)
    ensures TrimLeft(s) == s[|s| - |TrimLeft(s)|..]
    ensures AllSpace(s[..|s| - |TrimLeft(s)|])
    decreases |s|
  {
    if s != [] && IsSpace(s[0]) {
      TrimLeftSuffix(s[1..]);
      var n := |s| - |TrimLeft(s)|;
      assert s[1..][n - 1..] == s[n..];
      assert s[..n] == [s[0]] + s[1..][..n - 1];
    }
  }

  function TrimRight(s: string): (r: string)
    ensures |r| <= |s|
    ensures r == [] || !IsSpace(r[|r| - 1])
    decreases |s|
  {
    if s != [] && IsSpace(s[|s| - 1]) then TrimRight(s[..|s| - 1]) else s
  }

  /** `rstrip()` removes a suffix made of whitespace. */
  lemma {:induction false} TrimRightPrefix(s: string)
    ensures TrimRight(s) == s[..|TrimRight(s)|]
    ensures AllSpace(s[|TrimRight(s)|..])
    decreases |s|
  {
    if s != [] && IsSpace(s[|s| - 1]) {
      var t := s[..|s| - 1];
      TrimRightPrefix(t);
      var n := |TrimRight(s)|;
      assert t[..n] == s[..n];
      assert s[n..] == t[n..] + [s[|s| - 1]];
    }
  }

  /** `s.strip()`: the substring left after removing the longest all-whitespace
      prefix and suffix. */
  function Strip(s: string): (r: string)
    ensures r == [] || (!IsSpace(r[0]) && !IsSpace(r[|r| - 1]))
  {
    var l := TrimLeft(s);
    TrimRightPrefix(l);
    TrimRight(l)
  }

  /** What `strip()` removes is whitespace on both sides. */
  lemma StripSlice(s: string)
    ensures exists i, j :: 0 <= i <= j <= |s| && Strip(s) == s[i..j]
                          && AllSpace(s[..i]) && AllSpace(s[j..])
  {
    var l := TrimLeft(s);
    TrimLeftSuffix(s);
    var r := TrimRight(l);
    TrimRightPrefix(l);
    var i := |s| - |l|;
    assert r == s[i..i + |r|];
    assert s[i + |r|..] == l[|r|..];
  }

  lemma {:induction false} TrimLeftSpaces(w: string, x: string)
    requires AllSpace(w)
    ensures TrimLeft(w + x) == TrimLeft(x)
    decreases |w|
  {
    if w != [] {
      assert (w + x)[0] == w[0];
      assert (w + x)[1..] == w[1..] + x;
      TrimLeftSpaces(w[1..], x);
    } else {
      assert w + x == x;
    }
  }

  lemma {:induction false} TrimRightSpaces(x: string, w: string)
    requires AllSpace(w)
    ensures TrimRight(x + w) == TrimRight(x)
    decreases |w|
  {
    if w != [] {
      assert (x + w)[|x + w| - 1] == w[|w| - 1];
      assert (x + w)[..|x + w| - 1] == x + w[..|w| - 1];
      TrimRightSpaces(x, w[..|w| - 1]);
    } else {
      assert x + w == x;
    }
  }

  /** Whitespace around a string whose ends are not whitespace is exactly what
      strip() removes. */
  lemma StripPadded(w1: string, p: string, w2: string)
    requires AllSpace(w1) && AllSpace(w2)
    requires p == [] || (!IsSpace(p[0]) && !IsSpace(p[|p| - 1]))
    ensures Strip(w1 + p + w2) == p
  {
    assert w1 + p + w2 == w1 + (p + w2);
    TrimLeftSpaces(w1, p + w2);
    TrimRightSpaces(p, w2);
    var l := TrimLeft(w1 + p + w2);
    if p == [] {
      assert p + w2 == w2;
      TrimLeftSpaces(w2, []);
      assert w2 + [] == w2;
      assert TrimLeft(w2) == TrimLeft([]) == [];
      assert l == [];
    } else {
      assert (p + w2)[0] == p[0];
      assert l == p + w2;
    }
    assert Strip(w1 + p + w2) == TrimRight(l);
  }

  lemma StripNoSpaceEnds(s: string)
    requires s == [] || (!IsSpace(s[0]) && !IsSpace(s[|s| - 1]))
    ensures Strip(s) == s
  {
    assert [] + s + [] == s;
    StripPadded([], s, []);
  }

  /** strip() leaves nothing exactly when the string is all whitespace. */
  lemma StripEmptyIff(s: string)
    ensures Strip(s) == [] <==> AllSpace(s)
  {
    if AllSpace(s) {
      assert s + [] + [] == s;
      StripPadded(s, [], []);
    } else {
      var r := Strip(s);
      StripSlice(s);
      var i, j :| 0 <= i <= j <= |s| && r == s[i..j] && AllSpace(s[..i]) && AllSpace(s[j..]);
      if r == [] {
        assert AllSpace(s) by {
          forall k | 0 <= k < |s| ensures IsSpace(s[k]) {
            if k < i { assert s[..i][k] == s[k]; } else { assert s[j..][k - j] == s[k]; }
          }
        }
      }
    }
  }

  /** strip() is idempotent. */
  lemma StripIdempotent(s: string)
    ensures Strip(Strip(s)) == Strip(s)
  {
    StripNoSpaceEnds(Strip(s));
  }

  // ---------------------------------------------------------------------------
  // upper() and replace() across a join

  /** Upper-casing leaves a string without lower-case letters unchanged. */
  lemma UpperUnchanged(s: string)
    requires forall i :: 0 <= i < |s| ==> !IsLowerLetter(s[i])
    ensures Upper(s) == s
  {
  }

  /** Upper-casing commutes with clamped slicing. */
  lemma UpperSlice(s: string, i: nat, j: nat)
    ensures Upper(Slice(s, i, j)) == Slice(Upper(s), i, j)
  {
  }

  function UpperAll(parts: seq<string>): (r: seq<string>)
    ensures |r| == |parts| && forall k :: 0 <= k < |r| ==> r[k] == Upper(parts[k])
  {
    seq(|parts|, k requires 0 <= k < |parts| => Upper(parts[k]))
  }

  /** Upper-casing a join upper-cases each part, when the separator has no
      lower-case letter. */
  lemma {:induction false} UpperJoin(sep: string, parts: seq<string>)
    requires Upper(sep) == sep
    ensures Upper(Join(sep, parts)) == Join(sep, UpperAll(parts))
    decreases |parts|
  {
    if |parts| > 1 {
      UpperJoin(sep, parts[1..]);
      assert UpperAll(parts)[1..] == UpperAll(parts[1..]);
      UpperConcat(parts[0] + sep, Join(sep, parts[1..]));
      UpperConcat(parts[0], sep);
    }
  }

  /** Replacing a one-character separator that no part contains turns the
      join into a join with the replacement. */
  lemma {:induction false} ReplaceCharJoin(parts: seq<string>, c: char, t: string)
    requires |parts| >= 1
    requires forall k :: 0 <= k < |parts| ==> c !in parts[k]
    ensures ReplaceChar(Join([c], parts), c, t) == Join(t, parts)
    decreases |parts|
  {
    if |parts| == 1 {
      ReplaceCharAbsent(parts[0], c, t);
    } else {
      var rest := Join([c], parts[1..]);
      ReplaceCharJoin(parts[1..], c, t);
      ReplaceCharConcat(parts[0] + [c], rest, c, t);
      ReplaceCharConcat(parts[0], [c], c, t);
      ReplaceCharAbsent(parts[0], c, t);
      assert ReplaceChar([c], c, t) == t + ReplaceChar([], c, t);
    }
  }
}

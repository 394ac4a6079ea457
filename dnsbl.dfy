/** The DNS blocklist query shared by both `check` commands
    (unveil/commands/check.py and unveil/unveil.py): the query name of
    section 2.1 of RFC 5782, the outcome of the A-then-TXT lookup, the
    exception dispatch onto the `good`/`bad` counters, and the reading of a
    custom provider file. */
module Dnsbl {
  import opened Text
  import IpUtil

  datatype RecordType = A | TXT

  /** What one resolver query does: it answers, or it raises one of the
      resolver's exceptions, or some other exception (`Failure`). */
  datatype LookupResult = Answer | NxDomain | Timeout | NoNameservers | NoAnswer | Failure

  /** The DNS as seen from the command: a result for the query of the
      provider at each position of the list, by query name and record type.
      The position is part of the key because every entry of the list is
      queried afresh: a provider listed twice may time out once and answer
      the next time. */
  type Resolver = (nat, string, RecordType) -> LookupResult

  // ---------------------------------------------------------------------------
  // One provider

  /** `f"{reversed_ip}.{provider}"`: the labels of the reversed address
      followed by the labels of the provider's zone. */
  function QueryName(reversedIp: string, provider: string): (q: string)
    ensures Split(q, '.') == Split(reversedIp, '.') + Split(provider, '.')
  {
    SplitAround(reversedIp, '.', provider);
    reversedIp + "." + provider
  }

  /** For the address being checked, the query's labels are the address's
      fields, last first, and then the zone's labels. */
  lemma QueryNameOfAddress(ip: string, provider: string)
    ensures Split(QueryName(IpUtil.ReverseIp(ip), provider), '.')
         == Reversed(Split(ip, '.')) + Split(provider, '.')
    ensures IpUtil.IsDottedQuad(ip) ==>
              forall k :: 0 <= k < 4 ==>
                Split(QueryName(IpUtil.ReverseIp(ip), provider), '.')[k] == Split(ip, '.')[3 - k]
  {
    if IpUtil.IsDottedQuad(ip) {
      IpUtil.ReverseIpQuad(ip);
    }
  }

  /** The A query and then the TXT query inside one `try`: the TXT query is
      only made when the A query answered, and then its failure decides. */
  function Lookup(resolve: Resolver, i: nat, query: string): (r: LookupResult)
    ensures r == Answer <==> resolve(i, query, A) == Answer && resolve(i, query, TXT) == Answer
    ensures resolve(i, query, A) == Answer ==> r == resolve(i, query, TXT)
    ensures resolve(i, query, A) != Answer ==> r == resolve(i, query, A)
  {
    var first := resolve(i, query, A);
    if first != Answer then first else resolve(i, query, TXT)
  }

  /** How the report reads one provider. */
  datatype Category = Listed | NotListed | Inconclusive | Errored

  function CategoryOf(r: LookupResult): Category {
    match r
    case Answer => Listed
    case NxDomain => NotListed
    case Timeout => Inconclusive
    case NoNameservers => Inconclusive
    case NoAnswer => Inconclusive
    case Failure => Errored
  }

  datatype Counters = Counters(good: nat, bad: nat)

  /** The `except` clauses: an answer is a hit; NXDOMAIN is a clean result;
      a timeout, missing nameservers or no answer count as clean only in
      verbose mode; any other exception is swallowed. */
  function Step(c: Counters, r: LookupResult, verbose: bool): (d: Counters)
    ensures d.bad == c.bad + (if CategoryOf(r) == Listed then 1 else 0)
    ensures d.good == c.good
              + (if CategoryOf(r) == NotListed || (verbose && CategoryOf(r) == Inconclusive) then 1 else 0)
  {
    match r
    case Answer => Counters(c.good, c.bad + 1)
    case NxDomain => Counters(c.good + 1, c.bad)
    case Timeout => if verbose then Counters(c.good + 1, c.bad) else c
    case NoNameservers => if verbose then Counters(c.good + 1, c.bad) else c
    case NoAnswer => if verbose then Counters(c.good + 1, c.bad) else c
    case Failure => c
  }

  /** The effect of one provider on the counters, in terms of its two
      lookups. */
  lemma ProviderEffect(c: Counters, resolve: Resolver, i: nat, query: string, verbose: bool)
    ensures var d := Step(c, Lookup(resolve, i, query), verbose);
            var first, second := resolve(i, query, A), resolve(i, query, TXT);
            (d.bad == c.bad + 1 <==> first == Answer && second == Answer)
            && (d.bad == c.bad || d.bad == c.bad + 1)
            && (first == NxDomain || (first == Answer && second == NxDomain) ==> d == Counters(c.good + 1, c.bad))
            && (!verbose && CategoryOf(Lookup(resolve, i, query)) == Inconclusive ==> d == c)
            && (Lookup(resolve, i, query) == Failure ==> d == c)
            && d.good + d.bad <= c.good + c.bad + 1
  {
  }

  // ---------------------------------------------------------------------------
  // The provider list

  /** The outcome of every provider, in list order, each from the queries
      made for its own position. */
  function Outcomes(resolve: Resolver, reversedIp: string, providers: seq<string>): seq<LookupResult> {
    seq(|providers|, i requires 0 <= i < |providers| => Lookup(resolve, i, QueryName(reversedIp, providers[i])))
  }

  /** The counters after the loop has seen the outcomes `rs`, in order. */
  function Tally(rs: seq<LookupResult>, verbose: bool): Counters
    decreases |rs|
  {
    if rs == [] then Counters(0, 0)
    else Step(Tally(rs[..|rs| - 1], verbose), rs[|rs| - 1], verbose)
  }

  /** The number of outcomes in one category. */
  function Count(rs: seq<LookupResult>, k: Category): (n: nat)
    ensures n <= |rs|
    decreases |rs|
  {
    if rs == [] then 0
    else (if CategoryOf(rs[0]) == k then 1 else 0) + Count(rs[1..], k)
  }

  lemma {:induction false} CountSnoc(rs: seq<LookupResult>, r: LookupResult, k: Category)
    ensures Count(rs + [r], k) == Count(rs, k) + (if CategoryOf(r) == k then 1 else 0)
    decreases |rs|
  {
    if rs == [] {
      assert [] + [r] == [r] && [r][1..] == [];
    } else {
      assert (rs + [r])[0] == rs[0] && (rs + [r])[1..] == rs[1..] + [r];
      CountSnoc(rs[1..], r, k);
    }
  }

  /** Every outcome is in exactly one category. */
  lemma {:induction false} CountTotal(rs: seq<LookupResult>)
    ensures Count(rs, Listed) + Count(rs, NotListed) + Count(rs, Inconclusive) + Count(rs, Errored) == |rs|
    decreases |rs|
  {
    if rs != [] {
      CountTotal(rs[1..]);
    }
  }

  /** `bad` counts the listings; `good` counts the clean results, plus the
      inconclusive ones in verbose mode. */
  lemma {:induction false} TallyCounts(rs: seq<LookupResult>, verbose: bool)
    ensures Tally(rs, verbose).bad == Count(rs, Listed)
    ensures Tally(rs, verbose).good == Count(rs, NotListed) + (if verbose then Count(rs, Inconclusive) else 0)
    decreases |rs|
  {
    if rs != [] {
      var init := rs[..|rs| - 1];
      var last := rs[|rs| - 1];
      TallyCounts(init, verbose);
      assert rs == init + [last];
      CountSnoc(init, last, Listed);
      CountSnoc(init, last, NotListed);
      CountSnoc(init, last, Inconclusive);
    }
  }

  /** Each provider adds at most one to `good + bad`, so the reported
      `bad/total` never exceeds the number of providers. */
  lemma TallyBound(rs: seq<LookupResult>, verbose: bool)
    ensures Tally(rs, verbose).bad <= Tally(rs, verbose).good + Tally(rs, verbose).bad <= |rs|
    ensures Tally(rs, verbose).good + Tally(rs, verbose).bad
         == |rs| - Count(rs, Errored) - (if verbose then 0 else Count(rs, Inconclusive))
  {
    TallyCounts(rs, verbose);
    CountTotal(rs);
  }

  /** Verbose mode changes only `good`, and only upwards. */
  lemma TallyVerbose(rs: seq<LookupResult>)
    ensures Tally(rs, false).bad == Tally(rs, true).bad
    ensures Tally(rs, false).good <= Tally(rs, true).good
  {
    TallyCounts(rs, false);
    TallyCounts(rs, true);
  }

  /** The counters depend only on how many outcomes of each kind there are,
      not on the order of the providers. */
  lemma TallyOrder(rs: seq<LookupResult>, ts: seq<LookupResult>, verbose: bool)
    requires multiset(rs) == multiset(ts)
    ensures Tally(rs, verbose) == Tally(ts, verbose)
  {
    TallyCounts(rs, verbose);
    TallyCounts(ts, verbose);
    CountMultiset(rs, ts, Listed);
    CountMultiset(rs, ts, NotListed);
    CountMultiset(rs, ts, Inconclusive);
  }

  lemma {:induction false} CountMultiset(rs: seq<LookupResult>, ts: seq<LookupResult>, k: Category)
    requires multiset(rs) == multiset(ts)
    ensures Count(rs, k) == Count(ts, k)
    decreases |rs|
  {
    if rs != [] {
      var x := rs[0];
      assert x in multiset(ts) by {
        assert x in multiset(rs);
      }
      var j :| 0 <= j < |ts| && ts[j] == x;
      var rest := ts[..j] + ts[j + 1..];
      MultisetTails(rs, ts, j);
      CountMultiset(rs[1..], rest, k);
      CountRemove(ts, j, k);
    } else {
      assert |ts| == |multiset(ts)| == 0;
    }
  }

  /** Taking the same element out of two equal multisets leaves equal ones. */
  lemma MultisetTails(rs: seq<LookupResult>, ts: seq<LookupResult>, j: nat)
    requires multiset(rs) == multiset(ts)
    requires rs != [] && j < |ts| && ts[j] == rs[0]
    ensures multiset(rs[1..]) == multiset(ts[..j] + ts[j + 1..])
  {
    var x := rs[0];
    var a := rs[1..];
    var b := ts[..j] + ts[j + 1..];
    assert multiset(rs) == multiset(a) + multiset{x} by {
      assert rs == [x] + a;
    }
    assert multiset(ts) == multiset(b) + multiset{x} by {
      assert ts == ts[..j] + [x] + ts[j + 1..];
    }
    forall y
      ensures multiset(a)[y] == multiset(b)[y]
    {
      assert multiset(rs)[y] == multiset(ts)[y];
    }
  }

  lemma CountRemove(ts: seq<LookupResult>, j: nat, k: Category)
    requires j < |ts|
    ensures Count(ts, k) == Count(ts[..j] + ts[j + 1..], k) + (if CategoryOf(ts[j]) == k then 1 else 0)
  {
    CountAppend(ts[..j], ts[j..], k);
    assert ts == ts[..j] + ts[j..];
    assert ts[j..][1..] == ts[j + 1..];
    CountAppend(ts[..j], ts[j + 1..], k);
  }

  lemma {:induction false} CountAppend(rs: seq<LookupResult>, ts: seq<LookupResult>, k: Category)
    ensures Count(rs + ts, k) == Count(rs, k) + Count(ts, k)
    decreases |rs|
  {
    if rs == [] {
      assert rs + ts == ts;
    } else {
      assert (rs + ts)[0] == rs[0] && (rs + ts)[1..] == rs[1..] + ts;
      CountAppend(rs[1..], ts, k);
    }
  }

  // ---------------------------------------------------------------------------
  // A custom provider file

  /** `f.readlines()` on text: the lines in order, a last line without a
      newline included, no empty line after a final newline. */
  /** Every entry of the list is queried afresh: a provider listed twice may
      time out the first time and be found clean the second. */
  lemma RepeatedProviderMayDiffer(reversedIp: string, provider: string)
    ensures exists resolve: Resolver :: Outcomes(resolve, reversedIp, [provider, provider]) == [Timeout, NxDomain]
  {
    var resolve: Resolver := (i: nat, q: string, t: RecordType) => if i == 0 then Timeout else NxDomain;
    assert Outcomes(resolve, reversedIp, [provider, provider]) == [Timeout, NxDomain];
  }

  /** The lines of a file, without their line ends. `readlines()` keeps the
      final newline of each line; dropping it here is harmless because every
      line is stripped right after it is read. */
  function Lines(content: string): (r: seq<string>)
    ensures forall k :: 0 <= k < |r| ==> '\n' !in r[k]
  {
    var f := Split(content, '\n');
    if f[|f| - 1] == [] then f[..|f| - 1] else f
  }

  /** `[line.strip() for line in f.readlines()]`: one entry per line, none
      holding a newline or starting or ending with whitespace, and an entry
      is empty exactly when its line is blank. */
  function ProviderLines(content: string): (r: seq<string>)
    ensures |r| == |Lines(content)|
    ensures forall k :: 0 <= k < |r| ==> r[k] == Strip(Lines(content)[k])
    ensures forall k :: 0 <= k < |r| ==>
              '\n' !in r[k] && (r[k] == [] || (!IsSpace(r[k][0]) && !IsSpace(r[k][|r[k]| - 1])))
    ensures forall k :: 0 <= k < |r| ==> (r[k] == [] <==> AllSpace(Lines(content)[k]))
  {
    var lines := Lines(content);
    var r := seq(|lines|, k requires 0 <= k < |lines| => Strip(lines[k]));
    assert forall k :: 0 <= k < |r| ==> '\n' !in r[k] && (r[k] == [] <==> AllSpace(lines[k])) by {
      forall k | 0 <= k < |r| ensures '\n' !in r[k] && (r[k] == [] <==> AllSpace(lines[k])) {
        StripSlice(lines[k]);
        StripEmptyIff(lines[k]);
      }
    }
    r
  }

  /** Lines written with a newline after each are read back as written. */
  lemma LinesOfWritten(ls: seq<string>)
    requires forall k :: 0 <= k < |ls| ==> '\n' !in ls[k]
    ensures Lines(Written(ls)) == ls
  {
    if ls == [] {
      assert Written(ls) == [];
    } else {
      var j := Join("\n", ls);
      var empty: string := [];
      WrittenJoin(ls);
      assert Written(ls) == j + ['\n'] + empty;
      SplitAround(j, '\n', empty);
      SplitJoin(ls, '\n');
      assert Split(empty, '\n') == [empty];
      var f := Split(Written(ls), '\n');
      assert f == ls + [empty];
      assert f[..|f| - 1] == ls;
    }
  }

  /** A text ending with a newline has the lines before that newline. */
  lemma LinesOfTerminated(p: string)
    ensures Lines(p + "\n") == Split(p, '\n')
  {
    var empty: string := [];
    assert p + "\n" == p + ['\n'] + empty;
    SplitAround(p, '\n', empty);
    assert Split(empty, '\n') == [empty];
  }

  /** A text that is empty or ends with a newline contributes its own lines,
      and whatever follows it contributes its lines after them. */
  lemma LinesConcat(a: string, b: string)
    requires a == [] || a[|a| - 1] == '\n'
    ensures Lines(a + b) == Lines(a) + Lines(b)
  {
    if a == [] {
      assert a + b == b;
      assert Split(a, '\n') == [[]];
    } else {
      var p := a[..|a| - 1];
      assert a == p + ['\n'] by {
        assert a == a[..|a| - 1] + [a[|a| - 1]];
      }
      assert Lines(a) == Split(p, '\n') by {
        LinesOfTerminated(p);
      }
      var f, g := Split(a + b, '\n'), Split(b, '\n');
      assert f == Split(p, '\n') + g by {
        assert a + b == p + ['\n'] + b;
        SplitAround(p, '\n', b);
      }
      assert f[|f| - 1] == g[|g| - 1];
      if g[|g| - 1] == [] {
        assert f[..|f| - 1] == Split(p, '\n') + g[..|g| - 1];
      }
    }
  }

  /** Lines appended to a text that is empty or ends with a newline are read
      back after that text's own lines. */
  lemma LinesAppended(previous: string, ls: seq<string>)
    requires previous == [] || previous[|previous| - 1] == '\n'
    requires forall k :: 0 <= k < |ls| ==> '\n' !in ls[k]
    ensures Lines(previous + Written(ls)) == Lines(previous) + ls
  {
    LinesConcat(previous, Written(ls));
    LinesOfWritten(ls);
  }

  /** Appending providers whose lines carry no surrounding whitespace to a
      provider file that is empty or ends with a newline extends its list by
      exactly those providers. */
  lemma ProviderLinesAppended(previous: string, ls: seq<string>)
    requires previous == [] || previous[|previous| - 1] == '\n'
    requires forall k :: 0 <= k < |ls| ==> '\n' !in ls[k] && Strip(ls[k]) == ls[k]
    ensures ProviderLines(previous + Written(ls)) == ProviderLines(previous) + ls
  {
    LinesAppended(previous, ls);
    ProviderLinesExtended(previous + Written(ls), previous, ls);
  }

  /** Stripping acts line by line, so extra strip-stable lines pass through. */
  lemma ProviderLinesExtended(longer: string, shorter: string, ls: seq<string>)
    requires Lines(longer) == Lines(shorter) + ls
    requires forall k :: 0 <= k < |ls| ==> Strip(ls[k]) == ls[k]
    ensures ProviderLines(longer) == ProviderLines(shorter) + ls
  {
    var lines, before := Lines(longer), Lines(shorter);
    var r, q := ProviderLines(longer), ProviderLines(shorter) + ls;
    assert |r| == |q|;
    forall k | 0 <= k < |r| ensures r[k] == q[k] {
      if k < |before| {
        assert lines[k] == before[k];
      } else {
        assert lines[k] == ls[k - |before|];
      }
    }
  }

  /** The text of a list written one entry per line. */
  function Written(ls: seq<string>): string
    decreases |ls|
  {
    if ls == [] then [] else Written(ls[..|ls| - 1]) + ls[|ls| - 1] + "\n"
  }

  lemma {:induction false} WrittenJoin(ls: seq<string>)
    requires |ls| >= 1
    ensures Written(ls) == Join("\n", ls) + "\n"
    decreases |ls|
  {
    if |ls| > 1 {
      var init := ls[..|ls| - 1];
      WrittenJoin(init);
      JoinSnoc("\n", init, ls[|ls| - 1]);
      assert ls == init + [ls[|ls| - 1]];
    } else {
      assert ls[..0] == [];
    }
  }

  /** A file whose lines carry no surrounding whitespace gives exactly those
      lines; a blank line stays as an empty provider. */
  lemma ProviderLinesOfWritten(ls: seq<string>)
    requires forall k :: 0 <= k < |ls| ==> '\n' !in ls[k] && Strip(ls[k]) == ls[k]
    ensures ProviderLines(Written(ls)) == ls
  {
    LinesOfWritten(ls);
  }
}

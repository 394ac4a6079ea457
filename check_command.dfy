/** The `check` command of unveil/commands/check.py: reverse the address,
    load the providers, query every provider in order, and report
    `bad/total`. */
module CheckCommand {
  import opened Wrappers
  import opened Dnsbl
  import IpUtil
  import Scraping

  /** Where the providers come from: a custom file (its text, or None when it
      cannot be opened), or the default scrapers. */
  datatype ProviderSource =
    | CustomFile(contents: Option<string>)
    | Scrapers(attempts: seq<Scraping.ScrapeAttempt>)

  /** The providers queried and the numbers of the results panel. */
  datatype Summary = Summary(providers: seq<string>, good: nat, bad: nat, total: nat)

  /** The providers as the command gets them: the stripped lines of the
      custom file, or the deduplicated scraper lists. A file that cannot be
      opened ends the command. */
  method LoadProviders(source: ProviderSource) returns (providers: Option<seq<string>>)
    ensures source.CustomFile? ==>
              providers == (if source.contents.None? then None else Some(ProviderLines(source.contents.value)))
    ensures source.Scrapers? ==>
              providers.Some? && Scraping.NoDuplicates(providers.value)
              && forall x :: x in providers.value <==>
                   exists k :: 0 <= k < |source.attempts| && x in Scraping.Output(source.attempts[k])
  {
    match source
    case CustomFile(contents) =>
      if contents.None? {
        providers := None;
      } else {
        providers := Some(ProviderLines(contents.value));
      }
    case Scrapers(attempts) =>
      var scraper := new Scraping.Scraper(attempts);
      var fetched := scraper.Fetch();
      providers := Some(fetched);
  }

  /** The provider loop: one query name per provider, the A and TXT lookups,
      the exception dispatch, and the `iteration` and progress counters. */
  method QueryProviders(resolve: Resolver, reversedIp: string, providers: seq<string>, verbose: bool)
    returns (good: nat, bad: nat, iteration: nat, advanced: nat, queries: seq<string>)
    ensures Counters(good, bad) == Tally(Outcomes(resolve, reversedIp, providers), verbose)
    ensures iteration == |providers| && advanced == |providers|
    ensures |queries| == |providers|
    ensures forall i :: 0 <= i < |providers| ==> queries[i] == QueryName(reversedIp, providers[i])
  {
    good, bad, iteration, advanced, queries := 0, 0, 0, 0, [];
    ghost var rs := Outcomes(resolve, reversedIp, providers);
    for i := 0 to |providers|
      invariant Counters(good, bad) == Tally(rs[..i], verbose)
      invariant iteration == i && advanced == i
      invariant |queries| == i
      invariant forall j :: 0 <= j < i ==> queries[j] == QueryName(reversedIp, providers[j])
    {
      var provider := providers[i];
      iteration := iteration + 1;
      var query := reversedIp + "." + provider;
      queries := queries + [query];
      var outcome := resolve(i, query, A);
      if outcome == Answer {
        outcome := resolve(i, query, TXT);
      }
      match outcome {
        case Answer => bad := bad + 1;
        case NxDomain => good := good + 1;
        case Timeout => if verbose { good := good + 1; }
        case NoNameservers => if verbose { good := good + 1; }
        case NoAnswer => if verbose { good := good + 1; }
        case Failure =>
      }
      assert rs[..i + 1][..i] == rs[..i] && rs[i] == outcome;
      advanced := advanced + 1;
    }
    assert rs[..|providers|] == rs;
  }

  /** The whole command: the summary counts the given address's listings
      over the loaded providers, and `bad <= total <= len(blacklists)`. */
  method Check(ip: string, resolve: Resolver, source: ProviderSource, verbose: bool)
    returns (summary: Option<Summary>)
    ensures summary.None? <==> source == CustomFile(None)
    ensures summary.Some? ==>
              var s := summary.value;
              Counters(s.good, s.bad) == Tally(Outcomes(resolve, IpUtil.ReverseIp(ip), s.providers), verbose)
              && s.total == s.good + s.bad && s.bad <= s.total <= |s.providers|
    ensures summary.Some? && source.CustomFile? ==>
              summary.value.providers == ProviderLines(source.contents.value)
    ensures summary.Some? && source.Scrapers? ==>
              Scraping.NoDuplicates(summary.value.providers)
    ensures summary.Some? && source.Scrapers? ==>
              forall x :: x in summary.value.providers <==>
                exists k :: 0 <= k < |source.attempts| && x in Scraping.Output(source.attempts[k])
  {
    var reversedIp := IpUtil.ReverseIp(ip);
    var loaded := LoadProviders(source);
    if loaded.None? {
      return None;
    }
    var providers := loaded.value;
    var good, bad, iteration, advanced, queries := QueryProviders(resolve, reversedIp, providers, verbose);
    TallyBound(Outcomes(resolve, reversedIp, providers), verbose);
    var total := good + bad;
    summary := Some(Summary(providers, good, bad, total));
  }
}

/** The command-line application of unveil/unveil.py: the global `state`
    that the `main` callback fills in, the older copy of the `check`
    command, and the `blacklists` command's selection and rendering. */
module UnveilApp {
  import opened Wrappers
  import opened Text
  import opened Dnsbl
  import IpUtil
  import Scraping
  import CheckCommand

  /** Python truthiness of an optional string: present and not empty. */
  predicate Truthy(o: Option<string>) {
    o.Some? && o.value != ""
  }

  /** The module-level `state` dictionary. */
  class AppState {
    var verbose: bool
    var output: Option<string>

    /** `{"verbose": False, "output": None}` */
    constructor ()
      ensures !verbose && output == None
    {
      verbose := false;
      output := None;
    }

    /** The `main` callback: a verbose flag turns verbose mode on and nothing
        turns it off; an output path replaces the stored one only when it is
        not empty. */
    method Callback(verbose: bool, output: Option<string>)
      modifies this
      ensures this.verbose == (old(this.verbose) || verbose)
      ensures this.output == if Truthy(output) then output else old(this.output)
    {
      if verbose {
        this.verbose := true;
      }
      if output.Some? && output.value != "" {
        this.output := output;
      }
    }
  }

  // ---------------------------------------------------------------------------
  // check

  /** The provider loop of this copy of `check`: no iteration counter, the
      verbose flag read from the global state. */
  method QueryProviders(resolve: Resolver, reversedIp: string, providers: seq<string>, verbose: bool)
    returns (good: nat, bad: nat)
    ensures Counters(good, bad) == Tally(Outcomes(resolve, reversedIp, providers), verbose)
  {
    good, bad := 0, 0;
    ghost var rs := Outcomes(resolve, reversedIp, providers);
    for i := 0 to |providers|
      invariant Counters(good, bad) == Tally(rs[..i], verbose)
    {
      var query := reversedIp + "." + providers[i];
      var outcome := resolve(i, query, A);
      if outcome == Answer {
        outcome := resolve(i, query, TXT);
      }
      match outcome {
        case Answer => bad := bad + 1;
        case NxDomain => good := good + 1;
        case Timeout => if verbose { good := good + 1; }
        case NoNameservers => if verbose { good := good + 1; }
        case NoAnswer => if verbose { good := good + 1; }
        case Failure =>
      }
      assert rs[..i + 1][..i] == rs[..i] && rs[i] == outcome;
    }
    assert rs[..|providers|] == rs;
  }

  /** `check`, with verbose mode taken from the state. */
  method Check(state: AppState, ip: string, resolve: Resolver, source: CheckCommand.ProviderSource)
    returns (summary: Option<CheckCommand.Summary>)
    ensures summary.None? <==> source == CheckCommand.CustomFile(None)
    ensures summary.Some? ==>
              var s := summary.value;
              Counters(s.good, s.bad) == Tally(Outcomes(resolve, IpUtil.ReverseIp(ip), s.providers), state.verbose)
              && s.total == s.good + s.bad && s.bad <= s.total <= |s.providers|
    ensures summary.Some? && source.CustomFile? ==>
              summary.value.providers == ProviderLines(source.contents.value)
    ensures summary.Some? && source.Scrapers? ==>
              Scraping.NoDuplicates(summary.value.providers)
    ensures summary.Some? && source.Scrapers? ==>
              forall x :: x in summary.value.providers <==>
                exists k :: 0 <= k < |source.attempts| && x in Scraping.Output(source.attempts[k])
  {
    var reversedIp := IpUtil.ReverseIp(ip);
    var loaded := CheckCommand.LoadProviders(source);
    if loaded.None? {
      return None;
    }
    var providers := loaded.value;
    var good, bad := QueryProviders(resolve, reversedIp, providers, state.verbose);
    TallyBound(Outcomes(resolve, reversedIp, providers), state.verbose);
    summary := Some(CheckCommand.Summary(providers, good, bad, good + bad));
  }

  // ---------------------------------------------------------------------------
  // blacklists

  /** `islice(blacklists, limit)` for a positive limit, the whole list
      otherwise: a prefix of the list, as long as the limit allows. */
  function Select(blacklists: seq<string>, limit: int): (r: seq<string>)
    ensures |r| == if 0 < limit < |blacklists| then limit else |blacklists|
    ensures r == blacklists[..|r|]
  {
    if limit > 0 && limit < |blacklists| then blacklists[..limit] else blacklists
  }

  /** Selection keeps order and takes nothing twice: the i-th selected
      provider is the i-th provider. */
  lemma SelectOrder(blacklists: seq<string>, limit: int)
    ensures forall i :: 0 <= i < |Select(blacklists, limit)| ==> Select(blacklists, limit)[i] == blacklists[i]
    ensures limit <= 0 ==> Select(blacklists, limit) == blacklists
  {
  }

  /** Where the providers go: appended to or written into the output file,
      one per line, or shown in a panel, one per line. */
  datatype Rendering =
    | FileWrite(path: string, append: bool, text: string)
    | ShowPanel(text: string)

  /** The `blacklists` command: scrape, select by `limit`, and write the
      selection to the output file of the state, or show it. */
  method Blacklists(state: AppState, limit: int, attempts: seq<Scraping.ScrapeAttempt>, pathExists: string -> bool)
    returns (providers: seq<string>, rendering: Rendering)
    ensures forall x :: x in providers <==> exists k :: 0 <= k < |attempts| && x in Scraping.Output(attempts[k])
    ensures Scraping.NoDuplicates(providers)
    ensures Truthy(state.output) ==>
              rendering == FileWrite(state.output.value, pathExists(state.output.value), Written(Select(providers, limit)))
    ensures !Truthy(state.output) ==> rendering == ShowPanel(Join("\n", Select(providers, limit)))
  {
    var scraper := new Scraping.Scraper(attempts);
    providers := scraper.Fetch();
    if state.output.Some? && state.output.value != "" {
      var path := state.output.value;
      var append := pathExists(path);
      var text := WriteLines(Select(providers, limit));
      rendering := FileWrite(path, append, text);
    } else {
      rendering := ShowPanel(Join("\n", Select(providers, limit)));
    }
  }

  /** The file body written for the selected providers, one per line. */
  method WriteLines(selected: seq<string>) returns (text: string)
    ensures text == Written(selected)
  {
    text := "";
    for i := 0 to |selected|
      invariant text == Written(selected[..i])
    {
      assert selected[..i + 1][..i] == selected[..i];
      text := text + selected[i] + "\n";
    }
    assert selected[..|selected|] == selected;
  }

  /** A file written by `blacklists` and read back as a custom provider file
      by `check` gives the selected providers, when none of them carries a
      newline or surrounding whitespace. */
  lemma WrittenProvidersReadBack(providers: seq<string>, limit: int)
    requires forall k :: 0 <= k < |providers| ==> '\n' !in providers[k] && Strip(providers[k]) == providers[k]
    ensures ProviderLines(Written(Select(providers, limit))) == Select(providers, limit)
  {
    ProviderLinesOfWritten(Select(providers, limit));
  }

  /** In append mode, a file that was empty or ended with a newline reads
      back as its earlier providers followed by the selected ones. */
  lemma AppendedProvidersReadBack(previous: string, providers: seq<string>, limit: int)
    requires previous == [] || previous[|previous| - 1] == '\n'
    requires forall k :: 0 <= k < |providers| ==> '\n' !in providers[k] && Strip(providers[k]) == providers[k]
    ensures ProviderLines(previous + Written(Select(providers, limit)))
         == ProviderLines(previous) + Select(providers, limit)
  {
    ProviderLinesAppended(previous, Select(providers, limit));
  }
}

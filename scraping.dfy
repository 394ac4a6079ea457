/** Provider aggregation of unveil/scraper.py: every scraper's list,
    concatenated in scraper order, then deduplicated through a set. */
module Scraping {

  /** What one scraper's `_fetch` gives: its list, or an exception, which the
      scraper's own handler turns into an empty list. */
  datatype ScrapeAttempt = Returned(items: seq<string>) | Raised

  /** The list `_fetch` returns. */
  function Output(a: ScrapeAttempt): seq<string> {
    match a
    case Returned(items) => items
    case Raised => []
  }

  /** The outputs of the scrapers, one after another. */
  function Concatenated(scrapers: seq<ScrapeAttempt>): (r: seq<string>)
    ensures forall x :: x in r <==> exists k :: 0 <= k < |scrapers| && x in Output(scrapers[k])
    decreases |scrapers|
  {
    if scrapers == [] then []
    else
      var init := scrapers[..|scrapers| - 1];
      var r := Concatenated(init) + Output(scrapers[|scrapers| - 1]);
      assert forall k :: 0 <= k < |init| ==> init[k] == scrapers[k];
      r
  }

  /** A failed scraper contributes nothing and hides nobody else's providers. */
  lemma {:induction false} ConcatenatedSkipsFailure(before: seq<ScrapeAttempt>, after: seq<ScrapeAttempt>)
    ensures Concatenated(before + [Raised] + after) == Concatenated(before + after)
    decreases |after|
  {
    if after == [] {
      var s := before + [Raised];
      assert s[..|s| - 1] == before;
      assert Concatenated(s) == Concatenated(before) + Output(Raised);
      assert before + [Raised] + after == s;
      assert before + after == before;
    } else {
      var init := after[..|after| - 1];
      var last := after[|after| - 1];
      ConcatenatedSkipsFailure(before, init);
      assert (before + [Raised] + after)[..|before + [Raised] + after| - 1] == before + [Raised] + init;
      assert (before + after)[..|before + after| - 1] == before + init;
    }
  }

  function TotalLength(scrapers: seq<ScrapeAttempt>): nat
    decreases |scrapers|
  {
    if scrapers == [] then 0
    else TotalLength(scrapers[..|scrapers| - 1]) + |Output(scrapers[|scrapers| - 1])|
  }

  lemma {:induction false} ConcatenatedLength(scrapers: seq<ScrapeAttempt>)
    ensures |Concatenated(scrapers)| == TotalLength(scrapers)
    decreases |scrapers|
  {
    if scrapers != [] {
      ConcatenatedLength(scrapers[..|scrapers| - 1]);
    }
  }

  predicate NoDuplicates(xs: seq<string>) {
    forall i, j :: 0 <= i < j < |xs| ==> xs[i] != xs[j]
  }

  /** A set holds no more elements than the sequence it was built from. */
  lemma {:induction false} SetOfSeqSize(xs: seq<string>)
    ensures |set x | x in xs| <= |xs|
    decreases |xs|
  {
    if xs != [] {
      var init := xs[..|xs| - 1];
      SetOfSeqSize(init);
      assert (set x | x in xs) == (set x | x in init) + {xs[|xs| - 1]} by {
        assert xs == init + [xs[|xs| - 1]];
      }
    }
  }

  /** `_deduplicate_blacklist`: `list(set(xs))`. The set's iteration order is
      not specified, so each element is taken in an arbitrary order. */
  method Deduplicate(xs: seq<string>) returns (r: seq<string>)
    ensures NoDuplicates(r)
    ensures forall x :: x in r <==> x in xs
    ensures |r| <= |xs|
  {
    var pending := set x | x in xs;
    r := [];
    while pending != {}
      invariant forall x :: x in r ==> x in xs && x !in pending
      invariant forall x :: x in xs ==> x in r || x in pending
      invariant pending <= set x | x in xs
      invariant NoDuplicates(r)
      invariant |r| + |pending| == |set x | x in xs|
      decreases |pending|
    {
      var x :| x in pending;
      r := r + [x];
      pending := pending - {x};
    }
    SetOfSeqSize(xs);
  }

  /** The `Scraper` aggregator over a list of scrapers. */
  class Scraper {
    var scrapers: seq<ScrapeAttempt>

    constructor (scrapers: seq<ScrapeAttempt>)
      ensures this.scrapers == scrapers
    {
      this.scrapers := scrapers;
    }

    /** `fetch`: extend one list with each scraper's output, then
        deduplicate. A provider is in the result exactly when some scraper
        returned it. */
    method Fetch() returns (r: seq<string>)
      ensures forall x :: x in r <==> exists k :: 0 <= k < |scrapers| && x in Output(scrapers[k])
      ensures NoDuplicates(r)
      ensures |r| <= TotalLength(scrapers)
      ensures scrapers == [] ==> r == []
    {
      var blacklists: seq<string> := [];
      for i := 0 to |scrapers|
        invariant blacklists == Concatenated(scrapers[..i])
      {
        assert scrapers[..i + 1][..i] == scrapers[..i];
        blacklists := blacklists + Output(scrapers[i]);
      }
      assert scrapers[..|scrapers|] == scrapers;
      ConcatenatedLength(scrapers);
      r := Deduplicate(blacklists);
    }
  }
}

/**
 * One crawl session: load the archive's keys, fetch listing pages 1, 2, ...
 * until a page signals "no results" or yields no postings, then append the
 * postings whose keys are new and rebuild the JSON mirror if any were.
 * The page fetcher is given as the sequence of its answers: `pages[i]` is
 * what the request for page i + 1 returns.
 */
module Crawl {
  import opened Wrappers
  import opened Csv
  import opened Venues
  import opened Archive

  /** What fetching one page returns: the postings extracted and the "no results" signal. */
  datatype PageResult = PageResult(jobs: seq<Venue>, noResultsFound: bool)

  /** How a session ends. */
  datatype CrawlOutcome =
      /** The archive could not be read; nothing was fetched. */
    | LoadFailed(error: LoadError)
      /** Every given page was accepted; the loop goes on to request the next one. */
    | Unfinished(fetched: seq<nat>, collected: seq<Venue>)
      /** The loop stopped; `appended` is what reached the archive. */
    | Finished(fetched: seq<nat>, sleeps: nat, collected: seq<Venue>, appended: seq<Venue>,
               archive: CsvFile, mirror: JsonFile)

  /** A page ends the crawl when it signals no results or carries no postings. */
  predicate Stops(page: PageResult)
  {
    page.noResultsFound || page.jobs == []
  }

  /** The index of the first page that ends the crawl, if any does. */
  function FirstStop(pages: seq<PageResult>): (r: Option<nat>)
    ensures r.Some? ==> r.value < |pages| && Stops(pages[r.value])
    ensures r.Some? ==> forall i :: 0 <= i < r.value ==> !Stops(pages[i])
    ensures r.None? ==> forall i :: 0 <= i < |pages| ==> !Stops(pages[i])
  {
    if pages == [] then None
    else if Stops(pages[0]) then Some(0)
    else match FirstStop(pages[1..])
      case None => None
      case Some(k) => Some(k + 1)
  }

  /** The postings of the given pages, concatenated in page order. */
  function Accumulated(pages: seq<PageResult>): (jobs: seq<Venue>)
  {
    if pages == [] then [] else Accumulated(pages[..|pages| - 1]) + pages[|pages| - 1].jobs
  }

  /** The page numbers 1, 2, ..., n. */
  function PageNumbers(n: nat): (s: seq<nat>)
    ensures |s| == n && forall i :: 0 <= i < n ==> s[i] == i + 1
  {
    seq(n, i => i + 1)
  }

  /** The session crawl_jobs runs, stated by what it computes. */
  function CrawlSpec(archive: CsvFile, mirror: JsonFile, pages: seq<PageResult>): CrawlOutcome
  {
    match LoadExistingJobs(archive)
    case Failure(e) => LoadFailed(e)
    case Success(seen) => CrawlSpecFrom(seen, archive, mirror, pages)
  }

  /** The session once the archive's keys `seen` are loaded. */
  function CrawlSpecFrom(seen: set<Key>, archive: CsvFile, mirror: JsonFile, pages: seq<PageResult>): CrawlOutcome
  {
    match FirstStop(pages)
    case None => Unfinished(PageNumbers(|pages|), Accumulated(pages))
    case Some(k) =>
      var all := Accumulated(pages[..k]);
      var saved := Save(all, archive, mirror, seen);
      Finished(PageNumbers(k + 1), k, all, saved.returned, saved.archive, saved.mirror)
  }

  /** The files after the session's postings were handed to the archive. */
  datatype Saved = Saved(returned: seq<Venue>, archive: CsvFile, mirror: JsonFile)

  /** The write step: append only when something was collected, rebuild the mirror only when something was appended. */
  function Save(all: seq<Venue>, archive: CsvFile, mirror: JsonFile, seen: set<Key>): (s: Saved)
    ensures s.returned == NewJobs(all, seen)
    ensures s.returned == [] ==> s.archive == archive && s.mirror == mirror
    ensures s.returned != [] ==> s.archive == AppendNewJobs(all, archive, seen).archive
    ensures s.returned != [] ==> s.archive.Present? && s.mirror == Json(ArchivedRows(s.archive))
  {
    var app := if all == [] then Appended([], archive) else AppendNewJobs(all, archive, seen);
    Saved(app.returned, app.archive, if app.returned != [] then UpdateJsonFile(app.archive, mirror) else mirror)
  }

  /** crawl_jobs: load the archive's keys, run the pagination loop, then write what is new. */
  method CrawlJobs(archive: CsvFile, mirror: JsonFile, pages: seq<PageResult>) returns (out: CrawlOutcome)
    ensures out == CrawlSpec(archive, mirror, pages)
  {
    var loaded := LoadExistingJobs(archive);
    if loaded.Failure? {
      return LoadFailed(loaded.error);
    }
    var seenJobs := loaded.value;
    var fetched, sleeps, allJobs, stopped := FetchPages(pages);
    if !stopped {
      return Unfinished(fetched, allJobs);
    }
    var appended: seq<Venue> := [];
    var newArchive, newMirror := archive, mirror;
    if allJobs != [] {
      var app := AppendNewJobs(allJobs, archive, seenJobs);
      appended, newArchive := app.returned, app.archive;
      if appended != [] {
        newMirror := UpdateJsonFile(newArchive, mirror);
      }
    }
    out := Finished(fetched, sleeps, allJobs, appended, newArchive, newMirror);
  }

  /**
   * The pagination loop of crawl_jobs: request page 1, 2, ... and stop at the
   * first page that signals no results or has no postings, without keeping its
   * postings; every accepted page is followed by one sleep. `stopped` is false
   * when every given page was accepted and the loop would request another.
   */
  method FetchPages(pages: seq<PageResult>) returns (fetched: seq<nat>, sleeps: nat, allJobs: seq<Venue>, stopped: bool)
    ensures stopped <==> FirstStop(pages).Some?
    ensures stopped ==>
              var k := FirstStop(pages).value;
              fetched == PageNumbers(k + 1) && sleeps == k && allJobs == Accumulated(pages[..k])
    ensures !stopped ==> fetched == PageNumbers(|pages|) && sleeps == |pages| && allJobs == Accumulated(pages)
  {
    var pageNumber := 1;
    allJobs, fetched, sleeps := [], [], 0;
    while true
      invariant 1 <= pageNumber <= |pages| + 1
      invariant forall i :: 0 <= i < pageNumber - 1 ==> !Stops(pages[i])
      invariant fetched == PageNumbers(pageNumber - 1)
      invariant allJobs == Accumulated(pages[..pageNumber - 1])
      invariant sleeps == pageNumber - 1
      decreases |pages| + 1 - pageNumber
    {
      if pageNumber - 1 == |pages| {
        assert pages[..pageNumber - 1] == pages;
        return fetched, sleeps, allJobs, false;
      }
      var page := pages[pageNumber - 1];
      fetched := fetched + [pageNumber];
      if page.noResultsFound {
        break;
      }
      if page.jobs == [] {
        break;
      }
      assert pages[..pageNumber][..pageNumber - 1] == pages[..pageNumber - 1];
      allJobs := allJobs + page.jobs;
      pageNumber := pageNumber + 1;
      sleeps := sleeps + 1;
    }
    FirstStopUnique(pages, pageNumber - 1);
    stopped := true;
  }

  /** The first stopping page is the one before which no page stops. */
  lemma FirstStopUnique(pages: seq<PageResult>, k: nat)
    requires k < |pages| && Stops(pages[k])
    requires forall i :: 0 <= i < k ==> !Stops(pages[i])
    ensures FirstStop(pages) == Some(k)
  {
  }

  /** If pages 1..K-1 are accepted and page K stops, the session makes exactly K requests, for pages 1..K, and keeps the postings of pages 1..K-1. */
  lemma CrawlFetchesUpToFirstStop(archive: CsvFile, mirror: JsonFile, pages: seq<PageResult>, K: nat)
    requires LoadExistingJobs(archive).Success?
    requires 1 <= K <= |pages| && Stops(pages[K - 1])
    requires forall i :: 0 <= i < K - 1 ==> !Stops(pages[i])
    ensures var out := CrawlSpec(archive, mirror, pages);
            && out.Finished?
            && |out.fetched| == K
            && (forall i :: 0 <= i < K ==> out.fetched[i] == i + 1)
            && out.sleeps == K - 1
            && out.collected == Accumulated(pages[..K - 1])
  {
    FirstStopUnique(pages, K - 1);
  }

  /** Without a stopping page the loop never ends: every given page is requested and accepted. */
  lemma CrawlWithoutStopDoesNotFinish(archive: CsvFile, mirror: JsonFile, pages: seq<PageResult>)
    requires LoadExistingJobs(archive).Success?
    requires forall i :: 0 <= i < |pages| ==> !Stops(pages[i])
    ensures var out := CrawlSpec(archive, mirror, pages);
            out.Unfinished? && |out.fetched| == |pages| && out.collected == Accumulated(pages)
  {
  }

  /**
   * What a finished session leaves behind: the archive holds its old rows
   * followed by the newly appended postings, projected; exactly the
   * collected postings with unknown keys were appended; the loaded keys only
   * grew; and the mirror was rebuilt to the whole archive if and only if
   * something was appended.
   */
  lemma CrawlWritesArchive(archive: CsvFile, mirror: JsonFile, pages: seq<PageResult>)
    requires WellFormed(archive) && LoadExistingJobs(archive).Success?
    ensures var seen := LoadExistingJobs(archive).value;
            var out := CrawlSpec(archive, mirror, pages);
            out.Finished? ==>
              && out.appended == NewJobs(out.collected, seen)
              && WellFormed(out.archive)
              && ArchivedRows(out.archive) == ArchivedRows(archive) + ProjectAll(out.appended)
              && LoadExistingJobs(out.archive) == Success(seen + KeysOf(out.appended))
              && (out.appended == [] ==> out.archive == archive && out.mirror == mirror)
              && (out.appended != [] ==> out.mirror == Json(ArchivedRows(out.archive)))
  {
    var seen := LoadExistingJobs(archive).value;
    var out := CrawlSpec(archive, mirror, pages);
    if out.Finished? {
      var all := out.collected;
      if all != [] {
        AppendReadBack(all, archive, seen);
        AppendGrowsKeys(all, archive, seen);
        NewJobsEmpty(all, seen);
        NewJobsCount(all, seen);
      } else {
        assert seen + KeysOf([]) == seen;
      }
    }
  }

  /**
   * A second session appends nothing and changes neither file when every
   * posting it accepts was already collected by the first: the same pages
   * answered again, or pages the fetcher thinned out by the seen titles.
   */
  lemma SecondCrawlAppendsNothing(archive: CsvFile, mirror: JsonFile, pages: seq<PageResult>, pages2: seq<PageResult>)
    requires WellFormed(archive) && LoadExistingJobs(archive).Success?
    requires FirstStop(pages).Some? && FirstStop(pages2).Some?
    requires forall j :: j in Accumulated(pages2[..FirstStop(pages2).value]) ==>
                           j in Accumulated(pages[..FirstStop(pages).value])
    ensures var first := CrawlSpec(archive, mirror, pages);
            var second := CrawlSpec(first.archive, first.mirror, pages2);
            && second.Finished?
            && second.collected == Accumulated(pages2[..FirstStop(pages2).value])
            && second.appended == []
            && second.archive == first.archive
            && second.mirror == first.mirror
  {
    var seen := LoadExistingJobs(archive).value;
    var first := CrawlSpec(archive, mirror, pages);
    CrawlWritesArchive(archive, mirror, pages);
    NewJobsIdempotent(first.collected, seen);
    var known := seen + KeysOf(first.appended);
    assert NewJobs(first.collected, known) == [];
    NewJobsEmpty(first.collected, known);
    var collected2 := Accumulated(pages2[..FirstStop(pages2).value]);
    NewJobsEmpty(collected2, known);
  }

  /** The postings of the first two pages, in order. */
  lemma AccumulatedTwoPages(pages: seq<PageResult>)
    requires |pages| >= 2
    ensures Accumulated(pages[..2]) == pages[0].jobs + pages[1].jobs
  {
    assert pages[..2][..1] == [pages[0]];
    assert [pages[0]][..0] == [];
    assert Accumulated([pages[0]]) == pages[0].jobs;
  }

  /**
   * A first run on a missing archive: two pages of three postings each,
   * then a page signalling no results, give three requests, six collected
   * postings and six archived rows.
   */
  lemma FirstRunScenario(archive: CsvFile, mirror: JsonFile, pages: seq<PageResult>)
    requires archive.Missing?
    requires |pages| == 3 && pages[2].noResultsFound
    requires forall i :: 0 <= i < 2 ==> |pages[i].jobs| == 3 && !pages[i].noResultsFound
    ensures var out := CrawlSpec(archive, mirror, pages);
            && out.Finished?
            && out.fetched == [1, 2, 3]
            && out.collected == pages[0].jobs + pages[1].jobs
            && |ArchivedRows(out.archive)| == 6
  {
    var out := CrawlSpec(archive, mirror, pages);
    var all := pages[0].jobs + pages[1].jobs;
    assert out.Finished? && out.fetched == PageNumbers(3) && out.collected == Accumulated(pages[..2]) by {
      assert Stops(pages[2]);
      assert forall i :: 0 <= i < 2 ==> !Stops(pages[i]);
      CrawlFetchesUpToFirstStop(archive, mirror, pages, 3);
    }
    assert PageNumbers(3) == [1, 2, 3];
    AccumulatedTwoPages(pages);
    assert ArchivedRows(out.archive) == ProjectAll(all) by {
      NewJobsKeepsUnknown(all, {});
      CrawlWritesArchive(archive, mirror, pages);
    }
  }
}

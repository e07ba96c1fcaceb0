/**
 * `WebCrawlerImpl`: one search builds the search URL, downloads the result
 * page, extracts the result links, downloads every linked page and counts the
 * resource references found in it, and finally reports the most used ones.
 *
 * The network, the URL encoder and the result-link pattern are parameters:
 * `fetch(url)` is the page text, or `None` when the connection fails.
 * The per-link tasks, which the source runs on a thread pool, are run one
 * after another; `Frequency.TallyPermutation` shows that any interleaving of
 * their increments gives the same table.
 */
module Crawler {
  import opened Wrappers
  import opened Frequency
  import opened ResourcePattern
  import opened Ranking

  /** `SEARCH_QUERY` up to its `%s`. */
  const SearchQueryPrefix: string := "https://www.google.com/search?q="

  datatype SearchError =
    | ConnectionError(url: string)  // the page at `url` could not be downloaded
    | NoResultLinks                 // `newFixedThreadPool(0)` refuses a pool without threads

  datatype Result<T> = Success(value: T) | Failure(error: SearchError)

  /** `getSearchUrl`: the encoded query put into the query template, where it can be read back. */
  function SearchUrl(encode: string -> string, query: string): (r: string)
    ensures |r| == |SearchQueryPrefix| + |encode(query)|
    ensures r[..|SearchQueryPrefix|] == SearchQueryPrefix
    ensures r[|SearchQueryPrefix|..] == encode(query)
  {
    SearchQueryPrefix + encode(query)
  }

  /**
   * `extractResults`: the page at `url` with `pattern` applied, or a
   * connection error that names the url.
   */
  function ExtractResults(fetch: string -> Option<string>, url: string, pattern: string -> seq<string>): Result<seq<string>>
  {
    match fetch(url)
    case None => Failure(ConnectionError(url))
    case Some(page) => Success(pattern(page))
  }

  /**
   * What the task for `url` feeds into the table: the references on the page,
   * or nothing when the download fails (the task's exception is kept in its
   * future, which nobody reads).
   */
  function PageReferences(fetch: string -> Option<string>, url: string): (r: seq<string>)
    ensures fetch(url).None? ==> r == []
    ensures fetch(url).Some? ==> (r == [] <==> forall s, e :: !IsMatch(fetch(url).value, s, e))
    ensures forall j :: 0 <= j < |r| ==> IsResource(r[j])
  {
    match ExtractResults(fetch, url, References)
    case Success(refs) =>
      ReferencesAreResources(fetch(url).value);
      NoReferences(fetch(url).value);
      refs
    case Failure(_) => []
  }

  /**
   * The contribution of every link, in link order: a failed link contributes
   * nothing, and every reference fed into the table has the resource shape.
   */
  function Contributions(fetch: string -> Option<string>, links: seq<string>): (r: seq<seq<string>>)
    ensures |r| == |links|
    ensures forall i :: 0 <= i < |links| && fetch(links[i]).None? ==> r[i] == []
    ensures forall x :: x in Flatten(r) ==> IsResource(x)
  {
    var pages := seq(|links|, i requires 0 <= i < |links| => PageReferences(fetch, links[i]));
    assert forall x :: x in Flatten(pages) ==> IsResource(x) by {
      forall x | x in Flatten(pages) ensures IsResource(x) {
        var i :| 0 <= i < |pages| && x in pages[i];
        var j :| 0 <= j < |pages[i]| && pages[i][j] == x;
      }
    }
    pages
  }

  lemma ContributionsConcat(fetch: string -> Option<string>, a: seq<string>, b: seq<string>)
    ensures Contributions(fetch, a + b) == Contributions(fetch, a) + Contributions(fetch, b)
  {
  }

  /**
   * A link whose download fails changes nothing: the references fed into the
   * table are those of the other links, as if it had not been extracted.
   */
  lemma FailedLinkIsolated(fetch: string -> Option<string>, links: seq<string>, i: nat)
    requires i < |links| && fetch(links[i]).None?
    ensures Flatten(Contributions(fetch, links)) == Flatten(Contributions(fetch, links[..i] + links[i + 1..]))
  {
    var before, after := links[..i], links[i + 1..];
    assert links == before + [links[i]] + after;
    ContributionsConcat(fetch, before + [links[i]], after);
    ContributionsConcat(fetch, before, [links[i]]);
    ContributionsConcat(fetch, before, after);
    assert Contributions(fetch, [links[i]]) == [[]];
    FailedPageIsolated(Contributions(fetch, before), Contributions(fetch, after));
  }

  /**
   * The table a search leaves behind: keyed by exactly the references found
   * on the downloaded pages, each counted once per occurrence over all pages.
   */
  lemma SearchTable(fetch: string -> Option<string>, links: seq<string>, k: string)
    ensures var table := Tally(map[], Flatten(Contributions(fetch, links)));
            && (k in table <==> k in Flatten(Contributions(fetch, links)))
            && Count(table, k) == multiset(Flatten(Contributions(fetch, links)))[k]
            && (k in table ==> table[k] >= 1)
  {
    FreshTally(Flatten(Contributions(fetch, links)));
  }

  /**
   * Every line a search prints is a key of its table and has the resource
   * shape: it starts with "http" and ends with ".js".
   */
  lemma ReportLinesAreResources(fetch: string -> Option<string>, links: seq<string>, report: seq<string>)
    requires IsReport(report, Tally(map[], Flatten(Contributions(fetch, links))))
    ensures |report| <= ReportItemsAmount
    ensures forall i :: 0 <= i < |report| ==> report[i] in Tally(map[], Flatten(Contributions(fetch, links)))
    ensures forall i :: 0 <= i < |report| ==> IsResource(report[i])
  {
    var table := Tally(map[], Flatten(Contributions(fetch, links)));
    var order :| IsEnumeration(order, table) && report == Report(table, order);
    FreshTally(Flatten(Contributions(fetch, links)));
  }

  class WebCrawlerImpl {
    /** `resourcesByFrequency`: how often each resource reference was seen in the current search. */
    var resourcesByFrequency: Table

    /** All counts are positive. */
    ghost predicate Valid()
      reads this
    {
      AllPositive(resourcesByFrequency)
    }

    /** The source leaves the field unset until the first search; it is modelled as an empty table. */
    constructor()
      ensures resourcesByFrequency == map[]
      ensures Valid()
    {
      resourcesByFrequency := map[];
    }

    /** `addResource`: the reference is counted once more. */
    method AddResource(resource: string)
      modifies this
      ensures resourcesByFrequency == Merge(old(resourcesByFrequency), resource)
      ensures old(Valid()) ==> Valid()
    {
      resourcesByFrequency := Merge(resourcesByFrequency, resource);
    }

    /** The task `extract(url)` runs: every reference on the page is counted, in page order. */
    method ExtractTask(fetch: string -> Option<string>, url: string)
      modifies this
      ensures resourcesByFrequency == Tally(old(resourcesByFrequency), PageReferences(fetch, url))
      ensures old(Valid()) ==> Valid()
    {
      var found := ExtractResults(fetch, url, References);
      if found.Success? {
        var refs := found.value;
        for i := 0 to |refs|
          invariant resourcesByFrequency == Tally(old(resourcesByFrequency), refs[..i])
          invariant old(Valid()) ==> Valid()
        {
          assert refs[..i + 1][..i] == refs[..i];
          AddResource(refs[i]);
        }
        assert refs[..|refs|] == refs;
      }
    }

    /**
     * `collectResources`: one task per link. With no links the thread pool
     * cannot be created and the search fails, leaving the table as it was.
     */
    method CollectResources(links: seq<string>, fetch: string -> Option<string>) returns (outcome: Result<()>)
      modifies this
      ensures links == [] ==> outcome == Failure(NoResultLinks) && resourcesByFrequency == old(resourcesByFrequency)
      ensures links != [] ==>
                && outcome == Success(())
                && resourcesByFrequency == Tally(old(resourcesByFrequency), Flatten(Contributions(fetch, links)))
      ensures old(Valid()) ==> Valid()
    {
      if |links| == 0 {
        return Failure(NoResultLinks);
      }
      ghost var pages := Contributions(fetch, links);
      for i := 0 to |links|
        invariant resourcesByFrequency == Tally(old(resourcesByFrequency), Flatten(pages[..i]))
        invariant old(Valid()) ==> Valid()
      {
        ExtractTask(fetch, links[i]);
        assert pages[..i + 1][..i] == pages[..i];
        TallyAppend(old(resourcesByFrequency), Flatten(pages[..i]), pages[i]);
      }
      assert pages[..|links|] == pages;
      return Success(());
    }

    /** `searchTargets`: a fresh table, then the links of the search result page. */
    method SearchTargets(query: string, fetch: string -> Option<string>, encode: string -> string,
                         extractLinks: string -> seq<string>) returns (targets: Result<seq<string>>)
      modifies this
      ensures resourcesByFrequency == map[] && Valid()
      ensures targets == ExtractResults(fetch, SearchUrl(encode, query), extractLinks)
    {
      resourcesByFrequency := map[];
      targets := ExtractResults(fetch, SearchUrl(encode, query), extractLinks);
    }

    /**
     * `generateReport`: the keys are put into the comparator-ordered tree in
     * whatever order the hash map yields them, and the first
     * `ReportItemsAmount` keys of the tree are the report.
     */
    method GenerateReport() returns (report: seq<string>)
      ensures IsReport(report, resourcesByFrequency)
      ensures forall i :: 0 <= i < |report| ==> report[i] in resourcesByFrequency
    {
      var m := resourcesByFrequency;
      var pending := m.Keys;
      var sorted: seq<string> := [];
      ghost var order: seq<string> := [];
      while pending != {}
        invariant pending <= m.Keys
        invariant InTable(m, order) && NoDuplicates(order)
        invariant forall k :: k in m ==> (k in order <==> k !in pending)
        invariant sorted == Build(m, order)
        decreases |pending|
      {
        var k :| k in pending;
        sorted := Insert(m, sorted, k);
        assert (order + [k])[..|order|] == order;
        order := order + [k];
        pending := pending - {k};
      }
      report := sorted[..Min(ReportItemsAmount, |sorted|)];
      assert IsEnumeration(order, m) && report == Report(m, order);
    }

    /**
     * `search`: the outcome and the table depend on the query and the pages
     * only, never on an earlier search. A failed search-page download or an
     * empty link list is an error and leaves an empty table; otherwise the
     * table holds the references of all downloaded pages and the outcome is
     * its report.
     */
    method Search(query: string, fetch: string -> Option<string>, encode: string -> string,
                  extractLinks: string -> seq<string>) returns (outcome: Result<seq<string>>)
      modifies this
      ensures var targets := ExtractResults(fetch, SearchUrl(encode, query), extractLinks);
              && (targets.Failure? ==> outcome == Failure(targets.error) && resourcesByFrequency == map[])
              && (targets.Success? && targets.value == [] ==>
                    outcome == Failure(NoResultLinks) && resourcesByFrequency == map[])
              && (targets.Success? && targets.value != [] ==>
                    && resourcesByFrequency == Tally(map[], Flatten(Contributions(fetch, targets.value)))
                    && outcome.Success?
                    && IsReport(outcome.value, resourcesByFrequency)
                    && forall i :: 0 <= i < |outcome.value| ==> IsResource(outcome.value[i]))
      ensures Valid()
    {
      var targets := SearchTargets(query, fetch, encode, extractLinks);
      if targets.Failure? {
        return Failure(targets.error);
      }
      var collected := CollectResources(targets.value, fetch);
      if collected.Failure? {
        return Failure(collected.error);
      }
      var report := GenerateReport();
      ReportLinesAreResources(fetch, targets.value, report);
      return Success(report);
    }
  }
}

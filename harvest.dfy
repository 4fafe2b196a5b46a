/**
 * The first-occurrence-wins link filter shared by the two web-search harvesters
 * (src/global_harvester.py and src/news_harvester.py): for each query in turn,
 * each search hit with a non-empty `href` not seen before becomes an entry.
 *
 * The search engine is foreign: what each query returned (or that it raised) is
 * an input.
 */
module Harvest {

  import opened Wrappers

  /** One search result, each field as `result.get(name)` gives it (`None` when absent). */
  datatype Hit = Hit(title: Option<string>, href: Option<string>, body: Option<string>)

  /** What one `ddgs.text(query, ...)` call did. */
  datatype QueryOutcome = Raised | Returned(hits: seq<Hit>)

  /** One harvested record. */
  datatype Entry = Entry(title: Option<string>, link: string, snippet: Option<string>, source: string, dateFetched: string)

  /** `if link`: the hit carries a non-empty `href`. */
  predicate HasLink(h: Hit) {
    h.href.Some? && h.href.value != ""
  }

  function MakeEntry(h: Hit, source: string, date: string): (e: Entry)
    requires HasLink(h)
  {
    Entry(h.title, h.href.value, h.body, source, date)
  }

  /** The links of the entries collected so far. */
  function LinksOf(es: seq<Entry>): set<string> {
    set e | e in es :: e.link
  }

  /** No two entries share a link. */
  predicate UniqueLinks(es: seq<Entry>) {
    forall i, j :: 0 <= i < j < |es| ==> es[i].link != es[j].link
  }

  /** The non-empty hrefs of a run of hits. */
  function HrefsOf(hits: seq<Hit>): set<string> {
    set h | h in hits && HasLink(h) :: h.href.value
  }

  /**
   * The entries the loop has appended after `hits` (with `seen_links` starting
   * empty): a hit is kept when it has a link not among those already kept.
   */
  function Harvested(hits: seq<Hit>, source: string, date: string): (es: seq<Entry>)
    ensures |es| <= |hits|
  {
    if hits == [] then []
    else
      var prev := Harvested(hits[..|hits| - 1], source, date);
      var h := hits[|hits| - 1];
      if HasLink(h) && h.href.value !in LinksOf(prev) then prev + [MakeEntry(h, source, date)] else prev
  }

  /** One more hit: kept exactly when it has a link not kept before. */
  lemma HarvestedSnoc(hits: seq<Hit>, h: Hit, source: string, date: string)
    ensures var prev := Harvested(hits, source, date);
      Harvested(hits + [h], source, date) ==
        if HasLink(h) && h.href.value !in LinksOf(prev) then prev + [MakeEntry(h, source, date)] else prev
  {
    assert (hits + [h])[..|hits|] == hits;
  }

  /** Appending an entry adds its link to the links seen. */
  lemma LinksOfSnoc(es: seq<Entry>, e: Entry)
    ensures LinksOf(es + [e]) == LinksOf(es) + {e.link}
  {
    assert forall x :: x in es + [e] <==> x in es || x == e;
  }

  /** The kept entries have distinct non-empty links, and all carry the run's source and date. */
  lemma {:induction false} HarvestedWellFormed(hits: seq<Hit>, source: string, date: string)
    ensures var es := Harvested(hits, source, date);
      && UniqueLinks(es)
      && forall e :: e in es ==> e.link != "" && e.source == source && e.dateFetched == date
  {
    if hits != [] {
      var init := hits[..|hits| - 1];
      HarvestedWellFormed(init, source, date);
      var prev := Harvested(init, source, date);
      assert forall i :: 0 <= i < |prev| ==> prev[i].link in LinksOf(prev);
    }
  }

  /** Every non-empty href of the hits is the link of exactly the entries kept. */
  lemma {:induction false} HarvestedLinks(hits: seq<Hit>, source: string, date: string)
    ensures LinksOf(Harvested(hits, source, date)) == HrefsOf(hits)
  {
    if hits != [] {
      var init := hits[..|hits| - 1];
      HarvestedLinks(init, source, date);
      assert hits == init + [hits[|hits| - 1]];
      assert HrefsOf(hits) == HrefsOf(init) + HrefsOf([hits[|hits| - 1]]);
    }
  }

  /** Hit `i` is the first hit carrying its (non-empty) link. */
  predicate IsFirst(hits: seq<Hit>, i: int)
    requires 0 <= i < |hits|
  {
    HasLink(hits[i]) && forall j :: 0 <= j < i ==> hits[j].href != hits[i].href
  }

  /** An independent description of the filter: one entry per hit that is the first with its link, in hit order. */
  function FirstOccurrences(hits: seq<Hit>, source: string, date: string): seq<Entry> {
    if hits == [] then []
    else
      var last := |hits| - 1;
      FirstOccurrences(hits[..last], source, date)
        + (if IsFirst(hits, last) then [MakeEntry(hits[last], source, date)] else [])
  }

  /** The `seen_links` filter keeps exactly the first occurrence of every link, in order. */
  lemma {:induction false} HarvestedIsFirstOccurrences(hits: seq<Hit>, source: string, date: string)
    ensures Harvested(hits, source, date) == FirstOccurrences(hits, source, date)
  {
    if hits != [] {
      var last := |hits| - 1;
      var init := hits[..last];
      HarvestedIsFirstOccurrences(init, source, date);
      HarvestedLinks(init, source, date);
      var h := hits[last];
      if HasLink(h) {
        if h.href.value in HrefsOf(init) {
          var g :| g in init && HasLink(g) && g.href.value == h.href.value;
          var j :| 0 <= j < |init| && init[j] == g;
          assert hits[j] == g;
          assert !IsFirst(hits, last);
        } else {
          forall j | 0 <= j < last
            ensures hits[j].href != h.href
          {
            assert hits[j] == init[j];
            if hits[j].href == h.href {
              assert HasLink(init[j]);
            }
          }
        }
      }
    }
  }

  /** Later queries only append: earlier entries are never touched. */
  lemma {:induction false} HarvestedPrefix(xs: seq<Hit>, ys: seq<Hit>, source: string, date: string)
    ensures var before, after := Harvested(xs, source, date), Harvested(xs + ys, source, date);
      |before| <= |after| && before == after[..|before|]
  {
    if ys != [] {
      var init := ys[..|ys| - 1];
      HarvestedPrefix(xs, init, source, date);
      assert (xs + ys)[..|xs + ys| - 1] == xs + init;
    } else {
      assert xs + ys == xs;
    }
  }

  /** The hits of the queries that did not raise, query by query. */
  function SuccessfulHits(outcomes: seq<QueryOutcome>): seq<Hit> {
    if outcomes == [] then []
    else
      var last := outcomes[|outcomes| - 1];
      SuccessfulHits(outcomes[..|outcomes| - 1]) + (if last.Returned? then last.hits else [])
  }

  /**
   * The inner loop over one query's hits: `all_results` grows by the hits whose
   * link is new, `seen_links` keeps up with it, and `count` says how many were added.
   */
  method HarvestQuery(hits: seq<Hit>, ghost before: seq<Hit>, results: seq<Entry>, seen: set<string>,
                      source: string, date: string)
      returns (allResults: seq<Entry>, seenLinks: set<string>, count: int)
    requires results == Harvested(before, source, date)
    requires seen == LinksOf(results)
    ensures allResults == Harvested(before + hits, source, date)
    ensures seenLinks == LinksOf(allResults)
    ensures count == |allResults| - |results|
  {
    allResults, seenLinks, count := results, seen, 0;
    assert before + hits[..0] == before;
    for i := 0 to |hits|
      invariant allResults == Harvested(before + hits[..i], source, date)
      invariant seenLinks == LinksOf(allResults)
      invariant count + |results| == |allResults|
    {
      assert before + hits[..i + 1] == (before + hits[..i]) + [hits[i]];
      HarvestedSnoc(before + hits[..i], hits[i], source, date);
      var h := hits[i];
      if h.href.Some? && h.href.value != "" && h.href.value !in seenLinks {
        var e := Entry(h.title, h.href.value, h.body, source, date);
        LinksOfSnoc(allResults, e);
        seenLinks := seenLinks + {h.href.value};
        allResults := allResults + [e];
        count := count + 1;
      }
    }
    assert hits[..|hits|] == hits;
  }

  /** The `count` printed after the last of `outcomes`: how many entries it appended; none when it raised. */
  function LastCount(outcomes: seq<QueryOutcome>, source: string, date: string): Option<int>
    requires outcomes != []
  {
    var init := outcomes[..|outcomes| - 1];
    if outcomes[|outcomes| - 1].Raised? then None
    else Some(|Harvested(SuccessfulHits(outcomes), source, date)| - |Harvested(SuccessfulHits(init), source, date)|)
  }

  /** The `count` printed after each query, in query order. */
  function QueryCounts(outcomes: seq<QueryOutcome>, source: string, date: string): (cs: seq<Option<int>>)
    ensures |cs| == |outcomes|
  {
    if outcomes == [] then []
    else QueryCounts(outcomes[..|outcomes| - 1], source, date) + [LastCount(outcomes, source, date)]
  }

  /** The counts of the first `n` queries do not depend on the queries after them. */
  lemma {:induction false} QueryCountsPrefix(outcomes: seq<QueryOutcome>, n: nat, source: string, date: string)
    requires n <= |outcomes|
    ensures QueryCounts(outcomes[..n], source, date) == QueryCounts(outcomes, source, date)[..n]
  {
    if n < |outcomes| {
      var init := outcomes[..|outcomes| - 1];
      QueryCountsPrefix(init, n, source, date);
      assert init[..n] == outcomes[..n];
    } else {
      assert outcomes[..n] == outcomes;
    }
  }

  /** Query `q`'s count is the last count of the run cut after query `q`: the entries `q` appended to those before it. */
  lemma QueryCountIsAppended(outcomes: seq<QueryOutcome>, q: nat, source: string, date: string)
    requires q < |outcomes|
    ensures QueryCounts(outcomes, source, date)[q] == LastCount(outcomes[..q + 1], source, date)
  {
    QueryCountsPrefix(outcomes, q + 1, source, date);
  }

  /**
   * The harvest loop: for each query, each hit with a new non-empty link is
   * appended and its link added to `seen_links`; a query that raises adds
   * nothing and the loop goes on. Returns `all_results` and, for each query,
   * the `count` it printed (none for a query that raised).
   */
  method HarvestAll(outcomes: seq<QueryOutcome>, source: string, date: string)
      returns (allResults: seq<Entry>, counts: seq<Option<int>>)
    ensures allResults == Harvested(SuccessfulHits(outcomes), source, date)
    ensures counts == QueryCounts(outcomes, source, date)
  {
    allResults := [];
    counts := [];
    var seenLinks: set<string> := {};
    for q := 0 to |outcomes|
      invariant allResults == Harvested(SuccessfulHits(outcomes[..q]), source, date)
      invariant seenLinks == LinksOf(allResults)
      invariant counts == QueryCounts(outcomes[..q], source, date)
    {
      assert outcomes[..q + 1][..q] == outcomes[..q];
      assert SuccessfulHits(outcomes[..q + 1]) ==
        SuccessfulHits(outcomes[..q]) + (if outcomes[q].Returned? then outcomes[q].hits else []);
      if outcomes[q].Raised? {
        assert SuccessfulHits(outcomes[..q + 1]) == SuccessfulHits(outcomes[..q]);
        counts := counts + [None];
      } else {
        var count;
        allResults, seenLinks, count :=
          HarvestQuery(outcomes[q].hits, SuccessfulHits(outcomes[..q]), allResults, seenLinks, source, date);
        counts := counts + [Some(count)];
      }
    }
    assert outcomes[..|outcomes|] == outcomes;
  }

  /** The sum of the printed counts (queries that raised print none). */
  function TotalCount(counts: seq<Option<int>>): int {
    if counts == [] then 0 else TotalCount(counts[..|counts| - 1]) + counts[|counts| - 1].GetOr(0)
  }

  /** The printed counts add up to the number of entries harvested. */
  lemma {:induction false} CountsAddUp(outcomes: seq<QueryOutcome>, source: string, date: string)
    ensures TotalCount(QueryCounts(outcomes, source, date)) == |Harvested(SuccessfulHits(outcomes), source, date)|
  {
    if outcomes != [] {
      var init := outcomes[..|outcomes| - 1];
      CountsAddUp(init, source, date);
      var cs := QueryCounts(outcomes, source, date);
      assert cs[..|cs| - 1] == QueryCounts(init, source, date);
      if outcomes[|outcomes| - 1].Raised? {
        assert SuccessfulHits(outcomes) == SuccessfulHits(init);
      }
    }
  }
}

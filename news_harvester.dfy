/** The campus news harvester (src/news_harvester.py). */
module NewsHarvester {

  import opened Wrappers
  import opened Harvest

  /** The four search queries, run in this order. */
  const Queries: seq<string> := [
    "University of Waterloo student hackathon",
    "site:uwaterloo.ca undergraduate research application",
    "site:uwaterloo.ca guest lecture seminar",
    "Waterloo student tech events"
  ]

  const Source := "web_harvester"

  /**
   * `harvest_news`, up to the file write: `outcomes[q]` is what
   * the search did for `Queries[q]`, and `date` is the one `date_fetched` of the run.
   */
  method HarvestNews(outcomes: seq<QueryOutcome>, date: string)
      returns (allResults: seq<Entry>, counts: seq<Option<int>>)
    requires |outcomes| == |Queries|
    ensures allResults == Harvested(SuccessfulHits(outcomes), Source, date)
    ensures forall e :: e in allResults ==> e.source == "web_harvester" && e.dateFetched == date
    ensures UniqueLinks(allResults)
    ensures counts == QueryCounts(outcomes, Source, date) && |counts| == |Queries|
  {
    allResults, counts := HarvestAll(outcomes, Source, date);
    HarvestedWellFormed(SuccessfulHits(outcomes), Source, date);
  }
}

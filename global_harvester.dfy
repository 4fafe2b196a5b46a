/** The global tech-opportunity harvester (src/global_harvester.py). */
module GlobalHarvester {

  import opened Wrappers
  import opened Harvest

  /** The five search queries, run in this order. */
  const Queries: seq<string> := [
    "\"Google Summer of Code\" 2026 application",
    "\"Microsoft Explore\" program undergraduate",
    "Jane Street first year trading program",
    "undergraduate open source fellowship tech",
    "MLH fellowship application"
  ]

  const Source := "global_opportunity"

  /**
   * `harvest_global_opportunities`, up to the file write: `outcomes[q]` is what
   * the search did for `Queries[q]`, and `date` is the one `date_fetched` of the run.
   */
  method HarvestGlobalOpportunities(outcomes: seq<QueryOutcome>, date: string)
      returns (allResults: seq<Entry>, counts: seq<Option<int>>)
    requires |outcomes| == |Queries|
    ensures allResults == Harvested(SuccessfulHits(outcomes), Source, date)
    ensures forall e :: e in allResults ==> e.source == "global_opportunity" && e.dateFetched == date
    ensures UniqueLinks(allResults)
    ensures counts == QueryCounts(outcomes, Source, date) && |counts| == |Queries|
  {
    allResults, counts := HarvestAll(outcomes, Source, date);
    HarvestedWellFormed(SuccessfulHits(outcomes), Source, date);
  }
}

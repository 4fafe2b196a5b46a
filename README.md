# Wat's New — a Dafny model of the harvesting, enrichment and recommendation core

Wat's New collects University of Waterloo student opportunities and serves them
through a semantic-search API. The repository has four kinds of code:

- The harvesters gather records: `src/scrape_clubs.py`, `src/repair_descriptions.py`,
  `src/global_harvester.py`, `src/news_harvester.py` and `src/spider_prototype.py`.
- The enrichers attach a sentence embedding to every record: `src/generate_embeddings.py`
  and `src/vectorize_live_data.py`.
- `src/api.py` loads the enriched files into one corpus.
- `src/api.py` also answers `/api/recommend`. It projects the best-scoring items to
  display fields.

This project models that logic in Dafny and proves what the code promises.

Modules, one per source file, plus shared pieces:

| module | file | models |
|---|---|---|
| `Wrappers` | wrappers.dfy | `Option` and `Result` |
| `Json` | json.dfy | JSON values and Python dict operations: ordered keys, `get` with a default, item assignment, truthiness, `or`, `str()` |
| `PyStr` | pystr.dfy | Python string operations: `str.isspace`, `strip`/`lstrip`/`rstrip`, `in`, `startswith`/`endswith`, `replace`, `split()`/`" ".join` |
| `Harvest` | harvest.dfy | the search-query loop shared by both DDGS harvesters: `seen_links`-deduplicated appending and per-query counts |
| `GlobalHarvester`, `NewsHarvester` | global_harvester.dfy, news_harvester.dfy | the two harvesters, each with its own query list and source tag |
| `ScrapeClubs` | scrape_clubs.dfy | listing-page link extraction, pagination with its four stopping reasons, detail-page field extraction and cleaning |
| `RepairDescriptions` | repair_descriptions.dfy | which descriptions need fixing, the re-scrape and the local clean-up, the in-place repair loop over an array with its incremental saves every 20 fixes |
| `SpiderPrototype` | spider_prototype.dfy | page-text clean-up, API-key handling, truncation, the rate-limit retry loop, markdown-fence stripping and record sanitisation |
| `Enrichment` | enrichment.dfy | what both enrichers share: the `get(k, '') or ''` fields of the rich text, one text per record, attaching embedding rows in place |
| `GenerateEmbeddings`, `VectorizeLiveData` | generate_embeddings.dfy, vectorize_live_data.dfy | the two enrichers with their own templates |
| `Api` | api.dfy | corpus loading, startup state (`AppState`), top-k selection from an argsort ordering, projection of results |

Effects are inputs. Each effectful step becomes a parameter or a datatype value:

| effect | modelled as |
|---|---|
| search results | `QueryOutcome`s |
| browser pages | `ListingPage`, `DetailPage` and a `visit` function |
| the Gemini model's replies | `CallOutcome`s |
| the environment variable | an `Option<string>` |
| the JSON parser | a `parse` function |
| the sentence encoder | an `encode` function |
| similarity scores and numpy's argsort ordering | integer sequences constrained by `IsArgsort` |
| whether an input file exists | a `bool`, or a `VectorFile` |

The waits of the Gemini retry loop are returned as their lengths. The other sleeps (the harvesters' pause between queries, the scrapers' random delays) are dropped, as they do not affect results. Files that would be written are returned as values.

The repository's design notes describe per-user state, a preference vector and
like/skip feedback. None of these exist in the code. The model follows the code:
the only state is the process-wide `state` object of `src/api.py`, modelled as
`Api.AppState`.

The model keeps several behaviours of the code as written:

- In `src/api.py`, `top_k == 0` selects the whole corpus, because `[-0:]` is `[0:]`.
- A negative `top_k` returns all but the first `|top_k|` items.
- An explicit `null` for `top_k` makes `min` raise. This is the `TopKNotComparable` error.
- In `src/scrape_clubs.py`, a URL repeated on one listing page is appended twice
  (`ScrapeClubs.NewLinksKeepsRepeatsWithinPage`).
- In `src/repair_descriptions.py`, a `club['description']` that is `null`, a number
  or a boolean stops the repair loop, because `in` raises. The loop ends without the
  final save. A list or dict passes `in` and `len`. It stops the loop only when it
  reaches `.endswith` or the local `.replace`.
- A club with no link skips that round's incremental save.
- Repeated clean-ups after the 20th fix re-save the file (`RepairDescriptions.RepeatedWrite`).

## Model

| member | source | states |
|---|---|---|
| Json.Get | src/api.py:172-180 | `dict.get(k, default)`: a missing key gives the default |
| Json.GetFound | src/api.py:172-180 | a present key's value is the first pair with that key |
| Json.Set | src/api.py:60-61 | item assignment keeps the key order; a new key is appended |
| Json.GetSetSame | src/api.py:60-61 | after `o[k] = v`, `o.get(k)` is `v` |
| Json.GetSetOther | src/api.py:60-61 | assigning one key leaves every other key's value as it was |
| Json.OrTruthy | src/generate_embeddings.py:34-36 | `a or b` is truthy exactly when `a` or `b` is; with a falsy fallback, exactly when `a` is |
| Json.Digits | src/spider_prototype.py:169-171 | what `str()` prints for a natural number is a non-empty string of decimal digits |
| Json.DigitsDenote | src/spider_prototype.py:169-171 | those digits, read in base 10, denote the number itself |
| Json.GetDefaultIrrelevant | src/generate_embeddings.py:34-36 | the default passed to `get` matters only for a missing key |
| Json.GetIsField | src/api.py:172-180 | `get` reads the value of the first pair stored under the key, or the default when no pair has the key |
| PyStr.LStrip | src/spider_prototype.py:147 | the result is a suffix; everything removed is whitespace; it starts with non-whitespace |
| PyStr.RStrip | src/spider_prototype.py:142 | the result is a prefix; everything removed is whitespace; it ends with non-whitespace |
| PyStr.Strip | src/spider_prototype.py:109 | `str.strip()` leaves no whitespace at either end |
| PyStr.StripIsSlice | src/spider_prototype.py:109 | `strip()` returns a contiguous slice of its input |
| PyStr.StripRemovesSpace | src/spider_prototype.py:109 | `strip()` removes only whitespace |
| PyStr.StripUnchanged | src/spider_prototype.py:109 | a string with no edge whitespace is its own `strip()` |
| PyStr.StripIdempotent | src/spider_prototype.py:109 | stripping twice is stripping once |
| PyStr.ReplaceAbsent | src/repair_descriptions.py:70-72 | `replace` of a pattern that does not occur changes nothing |
| PyStr.DeleteShortens | src/repair_descriptions.py:70-72 | deleting a pattern never lengthens the string |
| PyStr.WordLen | src/repair_descriptions.py:75 | the first word of `split()` is a maximal run of non-whitespace |
| PyStr.Split | src/repair_descriptions.py:75 | `split()` yields non-empty words without whitespace |
| PyStr.JoinWordsNormalized | src/repair_descriptions.py:75 | words joined by single spaces form a normalised text |
| PyStr.NormalizeIsNormalized | src/repair_descriptions.py:75 | `" ".join(s.split())` has no edge whitespace, and single spaces between words |
| PyStr.SplitWord | src/repair_descriptions.py:75 | a word followed by whitespace is split off as the first word |
| PyStr.SplitJoin | src/repair_descriptions.py:75 | splitting a space-joined word list gives the list back |
| PyStr.NormalizeIdempotent | src/repair_descriptions.py:75 | normalising whitespace twice is normalising once |
| PyStr.NonSpaceAppend | src/repair_descriptions.py:75 | the non-whitespace characters of a concatenation are those of each part, in order |
| PyStr.SplitKeepsNonSpace | src/repair_descriptions.py:75 | the words of `split()`, run together, are exactly the non-whitespace characters of the input, in order |
| PyStr.JoinKeepsNonSpace | src/repair_descriptions.py:75 | joining with single spaces adds only whitespace |
| PyStr.NormalizeKeepsNonSpace | src/repair_descriptions.py:75 | `" ".join(s.split())` keeps every non-whitespace character of `s`, in order, and adds none |
| Harvest.Harvested | src/global_harvester.py:41-56 | the appended entries never outnumber the hits |
| Harvest.HarvestedSnoc | src/global_harvester.py:42-56 | a hit is appended exactly when its link is non-empty and not seen before |
| Harvest.LinksOfSnoc | src/global_harvester.py:46 | appending an entry adds its link to `seen_links` |
| Harvest.HarvestedWellFormed | src/global_harvester.py:45-55 | harvested links are unique and non-empty; every entry carries the run's source tag and date |
| Harvest.HarvestedLinks | src/global_harvester.py:45-46 | the harvested links are exactly the non-empty hrefs of all hits |
| Harvest.HarvestedIsFirstOccurrences | src/global_harvester.py:45-55 | the filter keeps exactly the first hit for every link, in order |
| Harvest.HarvestedPrefix | src/global_harvester.py:55 | later queries only append; earlier entries are never changed |
| Harvest.HarvestQuery | src/global_harvester.py:39-56 | one query's loop extends the results by its new links; `count` is the number added |
| Harvest.QueryCounts | src/global_harvester.py:58 | one printed count per query |
| Harvest.QueryCountsPrefix | src/global_harvester.py:33-64 | the counts of a prefix of the queries are a prefix of the counts |
| Harvest.QueryCountIsAppended | src/global_harvester.py:39-58 | a query's count is the number it appended; a failed query prints none |
| Harvest.HarvestAll | src/global_harvester.py:33-64 | the query loop gives the deduplicated entries of every successful query; a failing query adds nothing |
| Harvest.CountsAddUp | src/global_harvester.py:39-58 | the printed counts add up to the number of entries harvested |
| GlobalHarvester.HarvestGlobalOpportunities | src/global_harvester.py:14-64 | five queries; entries tagged `global_opportunity` with the run date; unique links; one count per query |
| NewsHarvester.HarvestNews | src/news_harvester.py:10-61 | four queries; entries tagged `web_harvester` with the run date; unique links; one count per query |
| ScrapeClubs.AbsoluteUrl | src/scrape_clubs.py:39 | an `http` href is kept; any other href is prefixed with the site's base URL |
| ScrapeClubs.AbsoluteUrlIdempotent | src/scrape_clubs.py:39 | making an absolute URL absolute again changes nothing |
| ScrapeClubs.ClubUrls | src/scrape_clubs.py:24-44 | at most one URL per anchor; every URL starts with `http` |
| ScrapeClubs.ClubUrlsOfCleanListing | src/scrape_clubs.py:36-40 | with every href present and non-empty, the links are the hrefs made absolute, in order |
| ScrapeClubs.GetClubUrls | src/scrape_clubs.py:24-44 | the loop computes the listing's links; empty and missing hrefs are skipped; a failure keeps what was collected |
| ScrapeClubs.NewLinks | src/scrape_clubs.py:147 | a URL is kept when it appears on the page and is not yet known |
| ScrapeClubs.NewLinksAppend | src/scrape_clubs.py:147 | the filter keeps page order and repeats: filtering two runs of URLs is filtering each and concatenating |
| ScrapeClubs.NewLinksSnoc | src/scrape_clubs.py:147 | one more URL is appended exactly when it is not yet known |
| ScrapeClubs.NewLinksKeepsRepeatsWithinPage | src/scrape_clubs.py:147 | a URL repeated on one page is kept twice |
| ScrapeClubs.NewLinksNoDuplicates | src/scrape_clubs.py:147 | filtering a duplicate-free page keeps it duplicate-free |
| ScrapeClubs.NewLinksExtendUnique | src/scrape_clubs.py:147-152 | extending known links by the new ones keeps them duplicate-free |
| ScrapeClubs.Crawl | src/scrape_clubs.py:135-166 | pagination only appends links and never goes back a page |
| ScrapeClubs.CrawlNoDuplicates | src/scrape_clubs.py:135-166 | when every page lists distinct URLs, the collected links are distinct |
| ScrapeClubs.Paginate | src/scrape_clubs.py:135-166 | the `while True` loop stops on no URLs, no new links, no next button or an error; it gives the crawled links and the last page |
| ScrapeClubs.CleanDescription | src/scrape_clubs.py:108-110 | the cleaned description has no edge whitespace; a trimmed text without "Who we are" is unchanged |
| ScrapeClubs.ScrapeClubDetails | src/scrape_clubs.py:46-116 | a failed page gives `None`; otherwise the record has the name, the cleaned description and the default category |
| ScrapeClubs.ClubRecordFields | src/scrape_clubs.py:55-60 | the record's keys in order, with `category` defaulting to "Uncategorized" |
| ScrapeClubs.ScrapedDescriptionTrimmed | src/scrape_clubs.py:94-110 | a scraped description is a string with no edge whitespace |
| ScrapeClubs.NameFromHeading | src/scrape_clubs.py:65-68 | a non-blank h1 names the club, otherwise a non-blank h2 |
| ScrapeClubs.NameFromBreadcrumb | src/scrape_clubs.py:64-74 | when no heading gives a non-blank name, the last breadcrumb item names the club and several items raise; with no breadcrumb the name stays `""` after a blank heading and `null` without one |
| ScrapeClubs.ScrapedFromLinks | src/scrape_clubs.py:171-176 | at most one record per link; every record's `link` is one of the visited links |
| ScrapeClubs.CollectClubs | src/scrape_clubs.py:135-176 | the records are those kept by visiting the crawled links in order |
| RepairDescriptions.RemoveAll | src/repair_descriptions.py:70-72 | removing boilerplate never lengthens the text; a text without any of it is unchanged |
| RepairDescriptions.CleanScraped | src/repair_descriptions.py:69-76 | the re-scraped text is whitespace-normalised |
| RepairDescriptions.ScrapeFullDescription | src/repair_descriptions.py:28-82 | a returned description is whitespace-normalised; a failure gives `None` |
| RepairDescriptions.CleanLocally | src/repair_descriptions.py:125-128 | the locally cleaned description is whitespace-normalised |
| RepairDescriptions.Step | src/repair_descriptions.py:102-128 | an iteration that does not raise had a string, list or dict description; a skipped or unlinked club is left as it was; a local clean-up happens only to a string |
| RepairDescriptions.StepRaises | src/repair_descriptions.py:103-128 | an iteration raises exactly when the description is `null`, a number or a boolean; or when a list or dict reaches `.endswith` (no "Show More", length at least 100); or when it reaches the local `.replace` (needs a fix, has a link, and the scrape gave nothing) |
| RepairDescriptions.EmptyListWithoutLinkContinues | src/repair_descriptions.py:108-117 | an empty-list description with an empty link is passed over as unlinked; the run goes on |
| RepairDescriptions.StepOnlyDescription | src/repair_descriptions.py:102-128 | a step changes only `description`; every other field and the key order stay |
| RepairDescriptions.StepDescription | src/repair_descriptions.py:103-128 | the description is a string, list or dict; skipped exactly when no fix is needed; unlinked exactly when the link is falsy; both leave the club alone; fixed exactly when the re-scrape is non-empty, and then the new description is it; otherwise the local clean-up, of a string |
| RepairDescriptions.SkippedIsLong | src/repair_descriptions.py:108-112 | a skipped description is a string of at least 100 characters with no "Show More" |
| RepairDescriptions.CrashIndex | src/repair_descriptions.py:102-128 | the loop processes clubs up to the first whose iteration raises (see StepRaises) |
| RepairDescriptions.Repaired | src/repair_descriptions.py:102-128 | repairing keeps the number of clubs |
| RepairDescriptions.RepairedStep | src/repair_descriptions.py:102-128 | processing one more club updates only that club, by its step |
| RepairDescriptions.CountsBounded | src/repair_descriptions.py:95-128 | every processed club is counted in exactly one outcome |
| RepairDescriptions.WritesKeepUp | src/repair_descriptions.py:131-134 | at least one incremental save per 20 fixes |
| RepairDescriptions.RepeatedWrite | src/repair_descriptions.py:119-134 | a local clean-up right after a save on a multiple of 20 saves again |
| RepairDescriptions.Repair | src/repair_descriptions.py:84-148 | updates the clubs array in place by each step; counts fixes and skips; lists every file written; a crash skips the final save. Instantiated with `StepOf(visit)` |
| SpiderPrototype.NoTripleNewlineNotContained | src/spider_prototype.py:59 | no three newlines in a row means "\n\n\n" does not occur |
| SpiderPrototype.NewlineRun | src/spider_prototype.py:59 | the length of the maximal leading run of newlines |
| SpiderPrototype.NoTripleNewlineSuffix | src/spider_prototype.py:59 | a suffix of a text without triple newlines has none |
| SpiderPrototype.NoTripleNewlinePrepend | src/spider_prototype.py:59 | one or two newlines before a non-newline, or one other character, add no triple newline |
| SpiderPrototype.CollapseRemovesTriples | src/spider_prototype.py:59 | `re.sub(r"\n{3,}", "\n\n")` leaves no three newlines in a row |
| SpiderPrototype.SeparatedByOther | src/spider_prototype.py:59 | a non-newline character before collapsed text adds no triple newline |
| SpiderPrototype.CollapseUnchanged | src/spider_prototype.py:59 | text without triple newlines is left unchanged |
| SpiderPrototype.NoTripleNewlineSlice | src/spider_prototype.py:59 | a slice of a text without triple newlines has none |
| SpiderPrototype.CleanPageTextIsClean | src/spider_prototype.py:59 | the cleaned page text has no triple newline and no edge whitespace |
| SpiderPrototype.StripKeepsNoTriple | src/spider_prototype.py:59 | stripping keeps a text free of triple newlines |
| SpiderPrototype.CleanPageTextUnchanged | src/spider_prototype.py:59 | already clean text is a fixed point of the clean-up |
| SpiderPrototype.Truncate | src/spider_prototype.py:114-116 | the text sent is a prefix of at most 80 000 characters; shorter texts go whole |
| SpiderPrototype.ApiKey | src/spider_prototype.py:102-109 | an unset or empty key raises; otherwise the result is the key with its edge whitespace removed, and has none left |
| SpiderPrototype.FirstSettled | src/spider_prototype.py:122-140 | the index of the first attempt that is not rate-limited |
| SpiderPrototype.RetryGenerate | src/spider_prototype.py:122-140 | up to three calls; stops at the first that is not rate-limited; a 10·attempt wait after each rate limit; all three limited (and waited on) returns `[]` |
| SpiderPrototype.LastSettled | src/spider_prototype.py:122-140 | the first settled attempt is characterised by the rate limits before it |
| SpiderPrototype.ExhaustedIffAllRateLimited | src/spider_prototype.py:130-138 | quota exhaustion happens exactly when all three attempts are rate-limited |
| SpiderPrototype.OtherErrorRaises | src/spider_prototype.py:139-140 | a first error that is not a rate limit propagates |
| SpiderPrototype.DropOpeningFence | src/spider_prototype.py:147 | removing the opening fence never lengthens the text |
| SpiderPrototype.DropClosingFence | src/spider_prototype.py:149 | removing the closing fence never lengthens the text |
| SpiderPrototype.StripFences | src/spider_prototype.py:145-149 | unfenced output is untouched; fence stripping never lengthens |
| SpiderPrototype.OpeningFenceMatched | src/spider_prototype.py:147 | the opening pattern drops the fence, an optional `json` tag and the whitespace after it |
| SpiderPrototype.TagDropped | src/spider_prototype.py:147 | the optional `json` tag before a newline is dropped |
| SpiderPrototype.OpeningFenceDropped | src/spider_prototype.py:147 | a fenced reply loses its opening fence line |
| SpiderPrototype.LStripAfterFence | src/spider_prototype.py:147 | the body and closing fence survive the whitespace skip |
| SpiderPrototype.ClosingFenceDropped | src/spider_prototype.py:149 | the closing pattern removes "\n```" at the end |
| SpiderPrototype.FenceRoundTrip | src/spider_prototype.py:145-149 | a body fenced in "```" or "```json" comes back exactly |
| SpiderPrototype.SanitizedField | src/spider_prototype.py:169-171 | every sanitised field is stripped |
| SpiderPrototype.RecordLookup | src/spider_prototype.py:168-173 | a record has the keys title, link, snippet and source, in order, holding the given values |
| SpiderPrototype.DictsOf | src/spider_prototype.py:165-167 | filtering to dicts never adds items |
| SpiderPrototype.DictsOfKeepsDicts | src/spider_prototype.py:165-167 | exactly the dict items are kept, in order; an all-dict list is kept whole |
| SpiderPrototype.Sanitized | src/spider_prototype.py:164-173 | one sanitised record per dict item |
| SpiderPrototype.SanitizeRecordWellFormed | src/spider_prototype.py:168-173 | a sanitised record has the four keys, stripped strings and the `spider_agent` source |
| SpiderPrototype.RecordWellFormed | src/spider_prototype.py:168-173 | a record of stripped strings is well formed |
| SpiderPrototype.SanitizeRecordShape | src/spider_prototype.py:168-173 | each output field is the stripped `str` of the input field |
| SpiderPrototype.MissingFieldIsEmpty | src/spider_prototype.py:169-171 | a missing field becomes "" |
| SpiderPrototype.SanitizeRecordIdempotent | src/spider_prototype.py:164-173 | sanitising a sanitised record changes nothing |
| SpiderPrototype.DictsOfSnoc | src/spider_prototype.py:165-167 | one more item adds its dict, if it is one |
| SpiderPrototype.MapRecordsSnoc | src/spider_prototype.py:164-173 | mapping distributes over appending |
| SpiderPrototype.MappedDictsSnoc | src/spider_prototype.py:164-173 | one more item adds the mapped dict, if it is one |
| SpiderPrototype.SanitizedSnoc | src/spider_prototype.py:164-173 | one more item appends its sanitised record, if it is a dict |
| SpiderPrototype.SanitizedWellFormed | src/spider_prototype.py:164-173 | every sanitised record is well formed |
| SpiderPrototype.SanitizeAll | src/spider_prototype.py:164-173 | the loop builds the sanitised records; each is well formed |
| SpiderPrototype.ExtractOpportunities | src/spider_prototype.py:97-176 | a missing key raises before any call; otherwise the truncated text is sent. A propagated error fails. Exhausted retries give `[]`. A reply is stripped, unfenced and parsed; a non-array or unparsable reply gives `[]`. Every returned record is well formed |
| Enrichment.FieldText | src/generate_embeddings.py:34-36 | a missing or falsy field reads as ""; a string field as itself |
| Enrichment.FieldTextDefaults | src/generate_embeddings.py:34-36 | a missing, `None` or empty field contributes "" |
| Enrichment.FieldTextOfString | src/generate_embeddings.py:34-36 | a present string field is used unchanged |
| Enrichment.Texts | src/generate_embeddings.py:31-40 | one rich text per record |
| Enrichment.BuildTexts | src/generate_embeddings.py:31-40 | the loop appends each record's rich text, in order |
| Enrichment.EmbeddedFields | src/generate_embeddings.py:52-54 | attaching sets `embedding`; every other field and the key order stay |
| Enrichment.AttachEmbeddings | src/generate_embeddings.py:52-54 | each record in the array gets its own row's embedding, in place |
| GenerateEmbeddings.ClubTextOfStrings | src/generate_embeddings.py:39 | the club template for string fields |
| GenerateEmbeddings.Generate | src/generate_embeddings.py:21-58 | a missing file encodes and saves nothing; otherwise every club gets the embedding of its own rich text, and the updated clubs are saved |
| VectorizeLiveData.EventTextOfStrings | src/vectorize_live_data.py:34 | the event template for string fields |
| VectorizeLiveData.VectorizeDataFile | src/vectorize_live_data.py:7-56 | returns whether the file was found; a missing file changes nothing; otherwise every event gets the embedding of its own rich text, and the events are saved |
| Api.WithEmbedding | src/api.py:59 | exactly the records holding `embedding` are kept |
| Api.WithEmbeddingAppend | src/api.py:59 | the filter keeps file order and every kept record: filtering a concatenation is concatenating the filtered parts |
| Api.WithEmbeddingSnoc | src/api.py:59 | one more record is kept, at the end, exactly when it holds `embedding` |
| Api.TaggedFields | src/api.py:60-61 | tagging sets `_type`; every other field is unchanged |
| Api.TagAll | src/api.py:60-61 | the loop tags every kept record |
| Api.LoadData | src/api.py:43-80 | a missing file adds nothing; an unreadable file raises, clubs first; otherwise the clubs then the events, filtered and tagged |
| Api.TaggedPair | src/api.py:60-75 | clubs come first tagged `club`, then events tagged `event`, all with embeddings |
| Api.CorpusContents | src/api.py:43-80 | every corpus item has an embedding; the clubs come first and are tagged `club`; the rest are tagged `event` |
| Api.ReverseReverse | src/api.py:165 | `[::-1]` applied twice gives the sequence back |
| Api.ReversePermutes | src/api.py:165 | `[::-1]` is a permutation: the same elements, each as often |
| Api.EffectiveTopK | src/api.py:153 | `min(top_k, len(all_items))` |
| Api.TopIndicesAreSuffix | src/api.py:165 | `order[-top_k:]` is a suffix, with Python's rules for zero and negative starts |
| Api.ReversedSuffix | src/api.py:165 | the reversed suffix lists the order from its end |
| Api.TopIndicesRanked | src/api.py:165 | the selection holds distinct valid indices in non-increasing score order; its size is `top_k`, or all but `abs(top_k)` for `top_k <= 0` |
| Api.TopIndicesDominate | src/api.py:165 | every item left out scores at most every item selected |
| Api.TopIndicesInRange | src/api.py:165-170 | every selected index is a valid corpus index |
| Api.TopZeroSelectsAll | src/api.py:165 | `top_k == 0` selects every item |
| Api.ProjectFields | src/api.py:170-188 | each display field is the item's first stored value under the key its type selects: `club_name`/`category` for a club, `title`/`source` otherwise; the default applies only when the key is missing; the score is carried unchanged |
| Api.ProjectUntyped | src/api.py:172-180 | an item without `_type` is shown as type "unknown" with the event fields and their defaults |
| Api.NullNameNotPresentable | src/api.py:30-35 | a club whose `club_name` is stored as `null` cannot become a `RecommendationItem` |
| Api.CorpusProjection | src/api.py:43-80 | after loading, a corpus club shows the name, category and link of its clubs-file record; an event shows the title, source and link of its events-file record |
| Api.Rows | src/api.py:99-102 | one embedding row per item |
| Api.ProjectAll | src/api.py:168-188 | one projected result per selected index, in selection order; it fails exactly when some selected item has a display field that is not a string |
| Api.AppState.constructor | src/api.py:84-94 | before startup no model is loaded and nothing is held |
| Api.AppState.Lifespan | src/api.py:84-103 | startup loads the model; it fails exactly when a file cannot be read; otherwise holds the corpus, and a matrix row per item unless the corpus is empty |
| Api.AppState.Root | src/api.py:134-141 | reports "online" and the corpus size |
| Api.AppState.Recommend | src/api.py:144-190 | an explicit `null` top_k raises. Without a model or matrix, the result is empty. Otherwise the result is the projections of the top `min(top_k, N)` items, best first. The request fails exactly when one of them has a title, link, source or type that is not a string |

## Left out

- Floating point: similarity scores are integers, and `round(score * 100, 2)` is not modelled (`Api.Project` carries the score unchanged).
- The sentence encoder, `cos_sim` and numpy's `argsort` are foreign. They are inputs constrained by `IsArgsort`; the order of equal scores is not fixed.
- Api.AppState.Recommend: pydantic's validation of the request body is not modelled. Only a `null` top_k is.
- Api.Presentable: response fields follow pydantic 2, where only a string is a valid `str`. Under pydantic 1 a number would be converted to a string instead.
- Api.AppState.Lifespan: building the float32 matrix always succeeds. The model does not raise for embeddings that are ragged or not numeric, as `np.array(...).astype('float32')` does.
- Api.WithEmbedding: every element of a vector file is taken to be a dict. For a string element `'embedding' in c` is a substring test, and for a number it raises; neither is modelled.
- Json: numbers are integers only, so a float reaching `str()` in the spider's sanitisation is not modelled.
- SpiderPrototype.ExtractOpportunities: a reply's `response.text` is always a string. A `None` text, which makes `.strip()` raise, is not modelled.
- Api.LoadData: a vector file whose top level is not a list is treated as unreadable.
- The JSON parser is a parameter. Duplicate keys, and the escaping in `str()` of nested values, are not modelled.
- Web I/O is modelled by its results: the browser (Playwright), HTTP, DDGS search and the Gemini client. Files that are read are inputs and files that are written are returned as values. The sleeps other than the retry waits, the logging apart from the harvesters' per-query counts (`Harvest.QueryCounts`), tqdm and the path handling are dropped.
- CORS, uvicorn and the FastAPI routing are left out, as they do not affect results.
- The prompt text around the page text is not modelled; only the truncated page text is sent.
- `main()` of `src/spider_prototype.py` only prints and saves; it is not modelled.
- The HTML-to-text step before the newline collapse is not modelled.
- The path plumbing around `vectorize_data_file` is not modelled. This covers `vectorize_global_opportunities` and `vectorize_all` in `src/vectorize_live_data.py`.
- The clubs-file loading and `exit(1)` at the top of `src/repair_descriptions.py` are not modelled.
- ScrapeClubs.Paginate: only finitely many listing pages are given. Pages past them read as empty.
- ScrapeClubs.Paginate: a page either fails as a whole or is read whole. An exception from the Next-button lookup, after that page's links were added, is not modelled separately.
- SpiderPrototype.StripFences: `\s` in the fence patterns is read as `str.isspace`.
- GenerateEmbeddings.Generate: requires the encoder to return one row per text, as `model.encode` does. It takes the parsed records and a `fileFound` flag, so an input file that exists but is not valid JSON is not modelled; `json.load` then raises out of the function before anything is encoded, as only `FileNotFoundError` is caught.
- VectorizeLiveData.VectorizeDataFile: requires the encoder to return one row per text, as `model.encode` does. It takes the parsed records and a `fileFound` flag, so an input file that exists but is not valid JSON is not modelled; `json.load` then raises out of the function before anything is encoded, as only `FileNotFoundError` is caught.
- `src/tests/test_search.py` is not part of this model.

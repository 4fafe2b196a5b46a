/**
 * The semantic-search API (src/api.py): loading the two vector files into one
 * corpus, the row-aligned embedding matrix built at startup, top-k selection
 * from similarity scores, and projection of the selected items to display fields.
 *
 * Similarity scores and numpy's `argsort` ordering are inputs: the encoder and
 * `cos_sim` are foreign, and the ordering is any permutation that sorts the
 * scores ascending, so nothing is promised about the order of equal scores.
 */
module Api {

  import opened Wrappers
  import opened Json

  // ---------------------------------------------------------------------------
  // Corpus loading
  // ---------------------------------------------------------------------------

  /** What opening and parsing one vector file gives. */
  datatype VectorFile =
    | NotFound                        // FileNotFoundError: caught, the file adds nothing
    | Unparsable                      // any other read or parse error: not caught
    | Records(records: seq<Object>)

  datatype LoadError = LoadError(path: string)

  const ClubsPath := "wusa_clubs_vectors.json"
  const EventsPath := "live_opportunities_vectors.json"

  /** The records a file contributes before filtering. */
  function FileRecords(f: VectorFile): seq<Object> {
    if f.Records? then f.records else []
  }

  /** `[c for c in records if 'embedding' in c]` */
  function WithEmbedding(records: seq<Object>): (kept: seq<Object>)
    ensures forall o :: o in kept <==> o in records && Has(o, "embedding")
    ensures |kept| <= |records|
    decreases |records|
  {
    if records == [] then []
    else
      var rest := WithEmbedding(records[1..]);
      assert records == [records[0]] + records[1..];
      if Has(records[0], "embedding") then [records[0]] + rest else rest
  }

  /** The filter keeps file order and every kept record: it distributes over concatenation. */
  lemma {:induction false} WithEmbeddingAppend(a: seq<Object>, b: seq<Object>)
    ensures WithEmbedding(a + b) == WithEmbedding(a) + WithEmbedding(b)
    decreases |a|
  {
    if a == [] {
      assert a + b == b;
    } else {
      assert (a + b)[0] == a[0] && (a + b)[1..] == a[1..] + b;
      WithEmbeddingAppend(a[1..], b);
    }
  }

  /** One more record is kept, at the end, exactly when it has an `embedding`. */
  lemma WithEmbeddingSnoc(records: seq<Object>, r: Object)
    ensures WithEmbedding(records + [r]) == WithEmbedding(records) + (if Has(r, "embedding") then [r] else [])
  {
    WithEmbeddingAppend(records, [r]);
  }

  /** Every record with `_type` set to `tag`, as the loop `c['_type'] = tag` leaves them. */
  function Tagged(records: seq<Object>, tag: string): (r: seq<Object>) {
    seq(|records|, i requires 0 <= i < |records| => Set(records[i], "_type", JStr(tag)))
  }

  /** Tagging sets `_type` and leaves every other key, and the set of keys present, as it was. */
  lemma TaggedFields(records: seq<Object>, tag: string, i: int, k: string, d: Json)
    requires 0 <= i < |records|
    ensures |Tagged(records, tag)| == |records|
    ensures Get(Tagged(records, tag)[i], "_type", d) == JStr(tag)
    ensures k != "_type" ==> Get(Tagged(records, tag)[i], k, d) == Get(records[i], k, d)
    ensures k != "_type" ==> (Has(Tagged(records, tag)[i], k) <==> Has(records[i], k))
  {
    GetSetSame(records[i], "_type", JStr(tag), d);
    if k != "_type" {
      GetSetOther(records[i], "_type", JStr(tag), k, d);
    }
  }

  /** The tagging loop over one file's kept records, updating each dict in place. */
  method TagAll(kept: seq<Object>, tag: string) returns (tagged: seq<Object>)
    ensures tagged == Tagged(kept, tag)
  {
    tagged := kept;
    for i := 0 to |kept|
      invariant |tagged| == |kept|
      invariant forall j :: 0 <= j < i ==> tagged[j] == Set(kept[j], "_type", JStr(tag))
      invariant forall j :: i <= j < |kept| ==> tagged[j] == kept[j]
    {
      tagged := tagged[i := Set(tagged[i], "_type", JStr(tag))];
    }
  }

  /** The corpus `load_data` returns when neither file fails to parse. */
  function Corpus(clubs: VectorFile, events: VectorFile): seq<Object> {
    Tagged(WithEmbedding(FileRecords(clubs)), "club") + Tagged(WithEmbedding(FileRecords(events)), "event")
  }

  /**
   * `load_data`: clubs first, then events, each keeping the records that carry an
   * `embedding`, tagged with their kind. A missing file contributes nothing; a file
   * that cannot be parsed aborts the load.
   */
  method LoadData(clubs: VectorFile, events: VectorFile) returns (r: Result<seq<Object>, LoadError>)
    ensures clubs.Unparsable? ==> r == Failure(LoadError(ClubsPath))
    ensures !clubs.Unparsable? && events.Unparsable? ==> r == Failure(LoadError(EventsPath))
    ensures !clubs.Unparsable? && !events.Unparsable? ==> r == Success(Corpus(clubs, events))
  {
    var allItems: seq<Object> := [];
    if clubs.Unparsable? {
      return Failure(LoadError(ClubsPath));
    }
    if clubs.Records? {
      var valid := TagAll(WithEmbedding(clubs.records), "club");
      allItems := allItems + valid;
    }
    assert allItems == Tagged(WithEmbedding(FileRecords(clubs)), "club");
    if events.Unparsable? {
      return Failure(LoadError(EventsPath));
    }
    if events.Records? {
      var valid := TagAll(WithEmbedding(events.records), "event");
      allItems := allItems + valid;
    }
    assert allItems == Corpus(clubs, events);
    return Success(allItems);
  }

  /** Tagging two lists of records that all carry an embedding, and concatenating them. */
  lemma {:induction false} TaggedPair(kc: seq<Object>, ke: seq<Object>)
    requires forall o :: o in kc ==> Has(o, "embedding")
    requires forall o :: o in ke ==> Has(o, "embedding")
    ensures var c := Tagged(kc, "club") + Tagged(ke, "event");
      && |c| == |kc| + |ke|
      && (forall i :: 0 <= i < |kc| ==> Get(c[i], "_type", JNull) == JStr("club"))
      && (forall i :: |kc| <= i < |c| ==> Get(c[i], "_type", JNull) == JStr("event"))
      && (forall i :: 0 <= i < |c| ==> Has(c[i], "embedding"))
  {
    var tc, te := Tagged(kc, "club"), Tagged(ke, "event");
    var c := tc + te;
    forall i | 0 <= i < |c|
      ensures i < |kc| ==> Get(c[i], "_type", JNull) == JStr("club")
      ensures i >= |kc| ==> Get(c[i], "_type", JNull) == JStr("event")
      ensures Has(c[i], "embedding")
    {
      if i < |kc| {
        assert kc[i] in kc;
        TaggedFields(kc, "club", i, "embedding", JNull);
        assert c[i] == tc[i];
      } else {
        var j := i - |kc|;
        assert ke[j] in ke;
        TaggedFields(ke, "event", j, "embedding", JNull);
        assert c[i] == te[j];
      }
    }
  }

  /**
   * The loaded corpus is exactly the clubs with an embedding, tagged `club`,
   * followed by the events with an embedding, tagged `event`.
   */
  lemma CorpusContents(clubs: VectorFile, events: VectorFile)
    ensures var c := Corpus(clubs, events);
      var nc := |WithEmbedding(FileRecords(clubs))|;
      && nc <= |c|
      && (forall i :: 0 <= i < nc ==> Get(c[i], "_type", JNull) == JStr("club"))
      && (forall i :: nc <= i < |c| ==> Get(c[i], "_type", JNull) == JStr("event"))
      && (forall i :: 0 <= i < |c| ==> Has(c[i], "embedding"))
  {
    TaggedPair(WithEmbedding(FileRecords(clubs)), WithEmbedding(FileRecords(events)));
  }

  // ---------------------------------------------------------------------------
  // Top-k selection: np.argsort(similarities)[-top_k:][::-1]
  // ---------------------------------------------------------------------------

  /** `order` lists valid indices of `scores`, each at most once. */
  ghost predicate DistinctIndices(scores: seq<int>, order: seq<int>) {
    && |order| == |scores|
    && (forall p :: 0 <= p < |order| ==> 0 <= order[p] < |scores|)
    && (forall p, q :: 0 <= p < q < |order| ==> order[p] != order[q])
  }

  /** Every index of `scores` appears in `order`. */
  ghost predicate CoversIndices(scores: seq<int>, order: seq<int>) {
    forall i :: 0 <= i < |scores| ==> i in order
  }

  /** `order` lists valid indices of `scores` in ascending order of score. */
  ghost predicate Ascending(scores: seq<int>, order: seq<int>) {
    && (forall p :: 0 <= p < |order| ==> 0 <= order[p] < |scores|)
    && (forall p, q :: 0 <= p < q < |order| ==> scores[order[p]] <= scores[order[q]])
  }

  /**
   * What numpy's `argsort` promises: a permutation of the indices of `scores`
   * listing them in ascending order of score (ties in any order).
   */
  ghost predicate IsArgsort(scores: seq<int>, order: seq<int>) {
    DistinctIndices(scores, order) && CoversIndices(scores, order) && Ascending(scores, order)
  }

  /** Python's `s[start:]`: a negative start counts from the end, and both are clamped. */
  function PySliceFrom<T>(s: seq<T>, start: int): seq<T> {
    if start < 0 then s[(if |s| + start < 0 then 0 else |s| + start)..]
    else s[(if start > |s| then |s| else start)..]
  }

  /** `s[::-1]` */
  function Reverse<T>(s: seq<T>): (r: seq<T>)
    ensures |r| == |s|
    ensures forall p :: 0 <= p < |s| ==> r[p] == s[|s| - 1 - p]
  {
    seq(|s|, p requires 0 <= p < |s| => s[|s| - 1 - p])
  }

  /** Reversing twice gives the sequence back. */
  lemma ReverseReverse<T>(s: seq<T>)
    ensures Reverse(Reverse(s)) == s
  {
  }

  /** Reversing drops and duplicates nothing: it is a permutation. */
  lemma {:induction false} ReversePermutes<T>(s: seq<T>)
    ensures multiset(Reverse(s)) == multiset(s)
    decreases |s|
  {
    if s != [] {
      var last := |s| - 1;
      ReversePermutes(s[..last]);
      assert Reverse(s) == [s[last]] + Reverse(s[..last]);
      assert s == s[..last] + [s[last]];
    }
  }

  /** `min(request.top_k, len(all_items))` */
  function EffectiveTopK(requested: int, n: nat): (k: int)
    ensures k <= n && k <= requested
    ensures k == requested || k == n
  {
    if requested < n then requested else n
  }

  /** `np.argsort(similarities)[-top_k:][::-1]`, given the argsort ordering. */
  function TopIndices(order: seq<int>, topK: int): seq<int> {
    Reverse(PySliceFrom(order, -topK))
  }

  /**
   * The indices `TopIndices` selects are the last ones of `order`: with
   * `top_k > 0` the last `top_k`; with `top_k == 0` (`[-0:]` is `[0:]`) all of
   * them; with `top_k < 0` all but the first `|top_k|`.
   */
  lemma TopIndicesAreSuffix(order: seq<int>, topK: int)
    requires topK <= |order|
    ensures var lo := if topK > 0 then |order| - topK else if -topK > |order| then |order| else -topK;
      TopIndices(order, topK) == Reverse(order[lo..])
  {
  }

  /**
   * For any `top_k` up to the corpus size, the selection holds distinct valid
   * indices in non-increasing score order. With `top_k >= 1` exactly `top_k`
   * items are selected; with `top_k <= 0` the slice is not empty: `N + top_k`
   * items are selected when that is positive.
   */
  /** Reading `order[lo..]` backwards: position `p` holds `order[|order| - 1 - p]`. */
  lemma {:induction false} ReversedSuffix(order: seq<int>, lo: int)
    requires 0 <= lo <= |order|
    ensures |Reverse(order[lo..])| == |order| - lo
    ensures forall p :: 0 <= p < |order| - lo ==> Reverse(order[lo..])[p] == order[|order| - 1 - p]
  {
    var s := order[lo..];
    forall p | 0 <= p < |order| - lo
      ensures Reverse(s)[p] == order[|order| - 1 - p]
    {
      assert Reverse(s)[p] == s[|s| - 1 - p];
    }
  }

  lemma TopIndicesRanked(scores: seq<int>, order: seq<int>, topK: int)
    requires DistinctIndices(scores, order) && Ascending(scores, order)
    requires topK <= |scores|
    ensures var r := TopIndices(order, topK);
      && |r| == (if topK > 0 then topK else if |scores| + topK > 0 then |scores| + topK else 0)
      && (forall p :: 0 <= p < |r| ==> 0 <= r[p] < |scores|)
      && (forall p, q :: 0 <= p < q < |r| ==> r[p] != r[q])
      && (forall p, q :: 0 <= p < q < |r| ==> scores[r[p]] >= scores[r[q]])
  {
    var n := |order|;
    var lo := if topK > 0 then n - topK else if -topK > n then n else -topK;
    TopIndicesAreSuffix(order, topK);
    ReversedSuffix(order, lo);
    var r := Reverse(order[lo..]);
    forall p, q | 0 <= p < q < |r|
      ensures r[p] != r[q] && scores[r[p]] >= scores[r[q]]
    {
      assert r[p] == order[n - 1 - p] && r[q] == order[n - 1 - q];
    }
  }

  /** No item left out of the selection scores higher than an item selected. */
  lemma TopIndicesDominate(scores: seq<int>, order: seq<int>, topK: int)
    requires |order| == |scores| && CoversIndices(scores, order) && Ascending(scores, order)
    requires topK <= |scores|
    ensures var r := TopIndices(order, topK);
      forall i, p :: 0 <= i < |scores| && i !in r && 0 <= p < |r| ==> scores[i] <= scores[r[p]]
  {
    var n := |order|;
    var lo := if topK > 0 then n - topK else if -topK > n then n else -topK;
    TopIndicesAreSuffix(order, topK);
    ReversedSuffix(order, lo);
    var r := Reverse(order[lo..]);
    forall y | lo <= y < n
      ensures order[y] in r
    {
      assert r[n - 1 - y] == order[y];
    }
    forall i, p | 0 <= i < |scores| && i !in r && 0 <= p < |r|
      ensures scores[i] <= scores[r[p]]
    {
      assert i in order;
      var x :| 0 <= x < n && order[x] == i;
      assert x < lo;
      assert scores[order[x]] <= scores[order[n - 1 - p]];
    }
  }

  /** Every selected index is an index of the corpus. */
  lemma TopIndicesInRange(scores: seq<int>, order: seq<int>, topK: int)
    requires DistinctIndices(scores, order)
    ensures forall p :: 0 <= p < |TopIndices(order, topK)| ==> 0 <= TopIndices(order, topK)[p] < |scores|
  {
  }

  /** `top_k == 0` selects every item of the corpus. */
  lemma TopZeroSelectsAll(scores: seq<int>, order: seq<int>)
    requires |order| == |scores| && CoversIndices(scores, order)
    ensures forall i :: 0 <= i < |scores| ==> i in TopIndices(order, 0)
  {
    var r := TopIndices(order, 0);
    assert PySliceFrom(order, 0) == order;
    forall i | 0 <= i < |scores|
      ensures i in r
    {
      assert i in order;
      var x :| 0 <= x < |order| && order[x] == i;
      assert r[|order| - 1 - x] == i;
    }
  }

  // ---------------------------------------------------------------------------
  // Projection and the service state
  // ---------------------------------------------------------------------------

  /** A request; `topK` is `None` when the client sends an explicit null. */
  datatype RecommendRequest = RecommendRequest(query: string, topK: Option<int>)

  /** One result row. The score is the raw similarity: rounding is not modelled. */
  datatype Recommendation = Recommendation(title: Json, link: Json, source: Json, matchScore: int, itemType: Json)

  datatype RecommendResponse = RecommendResponse(query: string, results: seq<Recommendation>)

  datatype RequestError =
    | TopKNotComparable   // `min(None, n)` raises a TypeError
    | InvalidResultItem   // `RecommendationItem(...)` rejects a display field that is not a string

  /** What `RecommendationItem` accepts: `title`, `link`, `source` and `item_type` are strings. */
  predicate Presentable(r: Recommendation) {
    r.title.JStr? && r.link.JStr? && r.source.JStr? && r.itemType.JStr?
  }

  /** Display fields by type: a club shows its name and category, anything else its title and source. */
  function Project(item: Object, score: int): Recommendation {
    var itemType := Get(item, "_type", JStr("unknown"));
    var title, source :=
      if itemType == JStr("club") then Get(item, "club_name", JStr("Unknown Club")) else Get(item, "title", JStr("Unknown Event")),
      if itemType == JStr("club") then Get(item, "category", JStr("N/A")) else Get(item, "source", JStr("N/A"));
    Recommendation(title, Get(item, "link", JStr("")), source, score, itemType)
  }

  /**
   * Each display field is the item's own value under the key its type selects,
   * the first one stored, or that key's default only when the item lacks it.
   */
  lemma ProjectFields(item: Object, score: int)
    ensures var r := Project(item, score);
      && r.matchScore == score
      && FieldIs(item, "_type", JStr("unknown"), r.itemType)
      && FieldIs(item, "link", JStr(""), r.link)
      && (r.itemType == JStr("club") ==>
            FieldIs(item, "club_name", JStr("Unknown Club"), r.title) && FieldIs(item, "category", JStr("N/A"), r.source))
      && (r.itemType != JStr("club") ==>
            FieldIs(item, "title", JStr("Unknown Event"), r.title) && FieldIs(item, "source", JStr("N/A"), r.source))
  {
    GetIsField(item, "_type", JStr("unknown"));
    GetIsField(item, "link", JStr(""));
    GetIsField(item, "club_name", JStr("Unknown Club"));
    GetIsField(item, "category", JStr("N/A"));
    GetIsField(item, "title", JStr("Unknown Event"));
    GetIsField(item, "source", JStr("N/A"));
  }

  /** An item without `_type` is shown as an event of type "unknown", with the event defaults. */
  lemma ProjectUntyped(item: Object, score: int)
    requires !Has(item, "_type")
    ensures var r := Project(item, score);
      && r.itemType == JStr("unknown")
      && (!Has(item, "title") ==> r.title == JStr("Unknown Event"))
      && (!Has(item, "source") ==> r.source == JStr("N/A"))
      && (!Has(item, "link") ==> r.link == JStr(""))
  {
  }

  /**
   * A club whose `club_name` is stored as null (as the club scraper writes when
   * it finds no name) cannot be presented: `RecommendationItem` rejects it.
   */
  lemma NullNameNotPresentable(item: Object, score: int)
    requires Get(item, "_type", JNull) == JStr("club")
    requires Has(item, "club_name") && Get(item, "club_name", JNull) == JNull
    ensures !Presentable(Project(item, score))
  {
    GetDefaultIrrelevant(item, "_type", JNull, JStr("unknown"));
    GetDefaultIrrelevant(item, "club_name", JNull, JStr("Unknown Club"));
  }

  /**
   * Through loading and projection, a club of the corpus shows the name and
   * category of its record in the clubs file, and an event the title and source
   * of its record in the events file.
   */
  lemma CorpusProjection(clubs: VectorFile, events: VectorFile, i: int, score: int)
    requires 0 <= i < |Corpus(clubs, events)|
    ensures var kc, ke := WithEmbedding(FileRecords(clubs)), WithEmbedding(FileRecords(events));
      var r := Project(Corpus(clubs, events)[i], score);
      && (i < |kc| ==>
            r.itemType == JStr("club") && r.title == Get(kc[i], "club_name", JStr("Unknown Club"))
            && r.source == Get(kc[i], "category", JStr("N/A")) && r.link == Get(kc[i], "link", JStr("")))
      && (i >= |kc| ==>
            r.itemType == JStr("event") && r.title == Get(ke[i - |kc|], "title", JStr("Unknown Event"))
            && r.source == Get(ke[i - |kc|], "source", JStr("N/A")) && r.link == Get(ke[i - |kc|], "link", JStr("")))
  {
    var kc, ke := WithEmbedding(FileRecords(clubs)), WithEmbedding(FileRecords(events));
    var tc, te := Tagged(kc, "club"), Tagged(ke, "event");
    assert Corpus(clubs, events) == tc + te;
    if i < |kc| {
      assert Corpus(clubs, events)[i] == tc[i];
      TaggedFields(kc, "club", i, "club_name", JStr("Unknown Club"));
      TaggedFields(kc, "club", i, "category", JStr("N/A"));
      TaggedFields(kc, "club", i, "link", JStr(""));
      TaggedFields(kc, "club", i, "_type", JStr("unknown"));
    } else {
      var j := i - |kc|;
      assert Corpus(clubs, events)[i] == te[j];
      TaggedFields(ke, "event", j, "title", JStr("Unknown Event"));
      TaggedFields(ke, "event", j, "source", JStr("N/A"));
      TaggedFields(ke, "event", j, "link", JStr(""));
      TaggedFields(ke, "event", j, "_type", JStr("unknown"));
    }
  }

  /** The embedding matrix built at startup: row `i` is item `i`'s embedding. */
  function Rows(items: seq<Object>): (rows: seq<Json>)
    ensures |rows| == |items|
  {
    seq(|items|, i requires 0 <= i < |items| => Get(items[i], "embedding", JNull))
  }

  /**
   * The projection loop of `recommend`: one row per selected index, in selection
   * order; the first row `RecommendationItem` rejects ends the request.
   */
  method ProjectAll(items: seq<Object>, scores: seq<int>, top: seq<int>)
      returns (r: Result<seq<Recommendation>, RequestError>)
    requires |scores| == |items|
    requires forall p :: 0 <= p < |top| ==> 0 <= top[p] < |items|
    ensures r.Failure? <==> exists p :: 0 <= p < |top| && !Presentable(Project(items[top[p]], scores[top[p]]))
    ensures r.Failure? ==> r.error == InvalidResultItem
    ensures r.Success? ==>
      && |r.value| == |top|
      && forall p :: 0 <= p < |top| ==> r.value[p] == Project(items[top[p]], scores[top[p]])
  {
    var results := [];
    for p := 0 to |top|
      invariant |results| == p
      invariant forall q :: 0 <= q < p ==> results[q] == Project(items[top[q]], scores[top[q]])
      invariant forall q :: 0 <= q < p ==> Presentable(results[q])
    {
      var idx := top[p];
      var row := Project(items[idx], scores[idx]);
      if !Presentable(row) {
        return Failure(InvalidResultItem);
      }
      results := results + [row];
    }
    return Success(results);
  }

  /** The process-wide service state `state`. */
  class AppState {
    var modelLoaded: bool
    var allItems: seq<Object>
    var allEmbeddings: Option<seq<Json>>

    /** Every item carries an embedding, and the matrix, once built, is row-aligned with the items. */
    ghost predicate Valid()
      reads this
    {
      && (forall i :: 0 <= i < |allItems| ==> Has(allItems[i], "embedding"))
      && (allEmbeddings.Some? ==> allEmbeddings.value == Rows(allItems))
    }

    constructor ()
      ensures Valid()
      ensures !modelLoaded && allItems == [] && allEmbeddings.None?
    {
      modelLoaded := false;
      allItems := [];
      allEmbeddings := None;
    }

    /**
     * `lifespan` startup: load the model, then the corpus; with a non-empty corpus
     * build the matrix, otherwise leave it as it was. A load error aborts startup
     * after the model is loaded. It runs once, on the fresh state.
     */
    method Lifespan(clubs: VectorFile, events: VectorFile) returns (r: Result<(), LoadError>)
      requires Valid() && allEmbeddings.None?
      modifies this
      ensures Valid() && modelLoaded
      ensures r.Failure? <==> clubs.Unparsable? || events.Unparsable?
      ensures r.Failure? ==> allItems == old(allItems) && allEmbeddings == old(allEmbeddings)
      ensures r.Success? ==> allItems == Corpus(clubs, events)
      ensures r.Success? && allItems == [] ==> allEmbeddings.None?
      ensures r.Success? && allItems != [] ==> allEmbeddings == Some(Rows(allItems))
    {
      modelLoaded := true;
      var loaded := LoadData(clubs, events);
      if loaded.Failure? {
        return Failure(loaded.error);
      }
      CorpusContents(clubs, events);
      allItems := loaded.value;
      if allItems != [] {
        allEmbeddings := Some(Rows(allItems));
      }
      return Success(());
    }

    /** The health check's `total_items`. */
    method Root() returns (status: string, totalItems: nat)
      ensures status == "online"
      ensures totalItems == |allItems|
    {
      return "online", |allItems|;
    }

    /**
     * `recommend`: cap `top_k` at the corpus size, return no results when the
     * model or the matrix is absent, and otherwise project the items that
     * `argsort[-top_k:][::-1]` selects, in that order; the request fails when a
     * selected item has a display field that is not a string. `scores` are the
     * similarities of the query to every row and `order` their argsort.
     */
    method Recommend(request: RecommendRequest, scores: seq<int>, order: seq<int>)
        returns (r: Result<RecommendResponse, RequestError>)
      requires Valid()
      requires allEmbeddings.Some? ==> |scores| == |allItems| && IsArgsort(scores, order)
      ensures request.topK.None? ==> r == Failure(TopKNotComparable)
      ensures request.topK.Some? && (!modelLoaded || allEmbeddings.None?) ==>
        r == Success(RecommendResponse(request.query, []))
      ensures request.topK.Some? && modelLoaded && allEmbeddings.Some? ==>
        var top := TopIndices(order, EffectiveTopK(request.topK.value, |allItems|));
        && (forall p :: 0 <= p < |top| ==> 0 <= top[p] < |allItems|)
        && (r.Failure? <==>
              exists p :: 0 <= p < |top| && 0 <= top[p] < |allItems|
                          && !Presentable(Project(allItems[top[p]], scores[top[p]])))
        && (r.Failure? ==> r.error == InvalidResultItem)
        && (r.Success? ==>
              && r.value.query == request.query
              && |r.value.results| == |top|
              && forall p :: 0 <= p < |top| ==> r.value.results[p] == Project(allItems[top[p]], scores[top[p]]))
    {
      if request.topK.None? {
        return Failure(TopKNotComparable);
      }
      var topK := EffectiveTopK(request.topK.value, |allItems|);
      if !modelLoaded || allEmbeddings.None? {
        return Success(RecommendResponse(request.query, []));
      }
      var top := TopIndices(order, topK);
      TopIndicesInRange(scores, order, topK);
      var results := ProjectAll(allItems, scores, top);
      if results.Failure? {
        return Failure(results.error);
      }
      return Success(RecommendResponse(request.query, results.value));
    }
  }
}

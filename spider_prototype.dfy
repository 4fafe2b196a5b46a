/**
 * The LLM extraction prototype (src/spider_prototype.py): the clean-up of the
 * fetched page text, the cut to the model's input budget, the API-key check,
 * the bounded retry loop around the model call, the removal of markdown fences
 * from the reply, and the sanitisation of the extracted records.
 *
 * The HTTP fetch, the HTML parser, the model client, `json.loads` and the
 * sleeps are foreign: the model call is a sequence of per-attempt outcomes,
 * `json.loads` a function parameter, and each sleep is returned as its length.
 */
module SpiderPrototype {

  import opened Wrappers
  import opened PyStr
  import opened Json

  // ---------------------------------------------------------------------------
  // fetch_page_text: re.sub(r"\n{3,}", "\n\n", text).strip()
  // ---------------------------------------------------------------------------

  const TripleNewline := "\n\n\n"

  /** Three newlines in a row start at index `i`. */
  predicate TripleAt(s: string, i: int) {
    0 <= i && i + 2 < |s| && s[i] == '\n' && s[i + 1] == '\n' && s[i + 2] == '\n'
  }

  /** No three newlines in a row. */
  ghost predicate NoTripleNewline(s: string) {
    forall i :: !TripleAt(s, i)
  }

  /** Without three newlines in a row, `"\n\n\n" in s` is false. */
  lemma NoTripleNewlineNotContained(s: string)
    requires NoTripleNewline(s)
    ensures !Contains(s, TripleNewline)
  {
    forall i | 0 <= i <= |s| - 3
      ensures !OccursAt(s, TripleNewline, i)
    {
      assert !TripleAt(s, i);
      assert s[i..i + 3][0] == s[i] && s[i..i + 3][1] == s[i + 1] && s[i..i + 3][2] == s[i + 2];
    }
  }

  /** The length of the run of newlines `s` starts with. */
  function NewlineRun(s: string): (k: nat)
    ensures k <= |s|
    ensures forall i :: 0 <= i < k ==> s[i] == '\n'
    ensures k < |s| ==> s[k] != '\n'
    decreases |s|
  {
    if s != [] && s[0] == '\n' then 1 + NewlineRun(s[1..]) else 0
  }

  /**
   * `re.sub(r"\n{3,}", "\n\n", s)`: scanning left to right, every maximal run
   * of three or more newlines becomes two; shorter runs are copied.
   */
  function CollapseNewlines(s: string): string
    decreases |s|
  {
    if s == [] then []
    else if s[0] != '\n' then [s[0]] + CollapseNewlines(s[1..])
    else
      var k := NewlineRun(s);
      (if k >= 3 then "\n\n" else s[..k]) + CollapseNewlines(s[k..])
  }

  /** The visible text `fetch_page_text` returns, from the text before clean-up. */
  function CleanPageText(s: string): string {
    Strip(CollapseNewlines(s))
  }

  /** Dropping a prefix keeps a string free of triple newlines. */
  lemma NoTripleNewlineSuffix(s: string, j: nat)
    requires j <= |s| && NoTripleNewline(s)
    ensures NoTripleNewline(s[j..])
  {
    forall i ensures !TripleAt(s[j..], i) {
      assert !TripleAt(s, j + i);
    }
  }

  /** Putting at most two newlines, or one other character, before a string that does not start with a newline. */
  lemma NoTripleNewlinePrepend(p: string, t: string)
    requires NoTripleNewline(t)
    requires p == "\n" || p == "\n\n" || (|p| == 1 && p[0] != '\n')
    requires (p == "\n" || p == "\n\n") ==> t == [] || t[0] != '\n'
    ensures NoTripleNewline(p + t)
  {
    var s := p + t;
    forall i ensures !TripleAt(s, i) {
      if i >= |p| {
        assert !TripleAt(t, i - |p|);
      } else if p[0] != '\n' {
        assert s[0] == p[0];
      } else if 0 <= i && i + 2 < |s| {
        assert s[|p|] == t[0];
      }
    }
  }

  /** After the substitution no run of three or more newlines is left. */
  lemma {:induction false} CollapseRemovesTriples(s: string)
    ensures NoTripleNewline(CollapseNewlines(s))
    decreases |s|
  {
    if s == [] {
    } else if s[0] != '\n' {
      CollapseRemovesTriples(s[1..]);
      SeparatedByOther(s[0], s[1..]);
    } else {
      var k := NewlineRun(s);
      var t := s[k..];
      CollapseRemovesTriples(t);
      var p := if k >= 3 then "\n\n" else s[..k];
      assert p == "\n" || p == "\n\n" by {
        if k == 1 { assert s[..k] == "\n"; }
        if k == 2 { assert s[..k] == "\n\n"; }
      }
      assert t == [] || t[0] != '\n';
      assert CollapseNewlines(t) == [] || CollapseNewlines(t)[0] == t[0];
      NoTripleNewlinePrepend(p, CollapseNewlines(t));
    }
  }

  /** A character that is not a newline, in front of the collapsed rest. */
  lemma SeparatedByOther(c: char, t: string)
    requires c != '\n' && NoTripleNewline(CollapseNewlines(t))
    ensures NoTripleNewline([c] + CollapseNewlines(t))
  {
    NoTripleNewlinePrepend([c], CollapseNewlines(t));
  }

  /** Text without a run of three newlines passes through the substitution unchanged. */
  lemma {:induction false} CollapseUnchanged(s: string)
    requires NoTripleNewline(s)
    ensures CollapseNewlines(s) == s
    decreases |s|
  {
    if s == [] {
    } else if s[0] != '\n' {
      NoTripleNewlineSuffix(s, 1);
      CollapseUnchanged(s[1..]);
      assert s == [s[0]] + s[1..];
    } else {
      var k := NewlineRun(s);
      assert !TripleAt(s, 0);
      NoTripleNewlineSuffix(s, k);
      CollapseUnchanged(s[k..]);
      assert s == s[..k] + s[k..];
    }
  }

  /** A slice of a string free of triple newlines is free of them. */
  lemma NoTripleNewlineSlice(s: string, r: string, i: int)
    requires 0 <= i && i + |r| <= |s| && r == s[i..i + |r|] && NoTripleNewline(s)
    ensures NoTripleNewline(r)
  {
    forall x ensures !TripleAt(r, x) {
      assert !TripleAt(s, i + x);
    }
  }

  /**
   * The text `fetch_page_text` returns has no run of three or more newlines
   * and no whitespace at either end.
   */
  lemma CleanPageTextIsClean(s: string)
    ensures NoTripleNewline(CleanPageText(s)) && !Contains(CleanPageText(s), TripleNewline)
    ensures NoEdgeSpace(CleanPageText(s))
  {
    CollapseRemovesTriples(s);
    StripKeepsNoTriple(CollapseNewlines(s));
    NoTripleNewlineNotContained(Strip(CollapseNewlines(s)));
  }

  /** Stripping cannot create three newlines in a row. */
  lemma StripKeepsNoTriple(c: string)
    requires NoTripleNewline(c)
    ensures NoTripleNewline(Strip(c))
  {
    StripIsSlice(c);
    NoTripleNewlineSlice(c, Strip(c), |c| - |LStrip(c)|);
  }

  /** Text that is already clean is returned as it is. */
  lemma CleanPageTextUnchanged(s: string)
    requires NoTripleNewline(s) && NoEdgeSpace(s)
    ensures CleanPageText(s) == s
  {
    CollapseUnchanged(s);
    StripUnchanged(s);
  }

  // ---------------------------------------------------------------------------
  // extract_opportunities_with_llm
  // ---------------------------------------------------------------------------

  /** The input budget `max_chars`. */
  const MaxChars := 80000

  /** `page_text[:max_chars]` when the text is longer than `max_chars`. */
  function Truncate(text: string): (r: string)
    ensures |r| <= MaxChars && |r| <= |text| && r == text[..|r|]
    ensures |text| <= MaxChars ==> r == text
    ensures |text| > MaxChars ==> |r| == MaxChars
  {
    if |text| > MaxChars then text[..MaxChars] else text
  }

  datatype SpiderError =
    | MissingApiKey     // the RuntimeError raised when GEMINI_API_KEY is unset or empty
    | ModelCallFailed   // an exception from the model call that is re-raised

  /** `os.getenv("GEMINI_API_KEY")`, rejected when unset or empty, then stripped. */
  function ApiKey(env: Option<string>): (r: Result<string, SpiderError>)
    ensures r.Failure? <==> env.None? || env.value == ""
    ensures r.Failure? ==> r.error == MissingApiKey
    ensures r.Success? ==> r.value == Strip(env.value) && NoEdgeSpace(r.value)
  {
    if env.None? || env.value == "" then Failure(MissingApiKey)
    else Success(Strip(env.value))
  }

  /** What one `generate_content` attempt does. */
  datatype CallOutcome =
    | Responded(text: string)        // the reply's `.text`
    | ClientError(message: string)   // a `genai_errors.ClientError`, by its `str`
    | OtherException                 // any other exception: not caught

  const MaxRetries := 3

  /** A client error whose message names HTTP 429 or RESOURCE_EXHAUSTED. */
  predicate RateLimited(o: CallOutcome) {
    o.ClientError? && (Contains(o.message, "429") || Contains(o.message, "RESOURCE_EXHAUSTED"))
  }

  /** The index of the first attempt that is not rate-limited, or `|outcomes|` when all are. */
  function FirstSettled(outcomes: seq<CallOutcome>): (i: nat)
    ensures i <= |outcomes|
    ensures forall k :: 0 <= k < i ==> RateLimited(outcomes[k])
    ensures i < |outcomes| ==> !RateLimited(outcomes[i])
    decreases |outcomes|
  {
    if outcomes != [] && RateLimited(outcomes[0]) then 1 + FirstSettled(outcomes[1..]) else 0
  }

  datatype RetryResult =
    | GotResponse(text: string)   // the loop broke out with a response
    | Exhausted                   // every attempt was rate-limited: the function returns []
    | Raised                      // an error that is not a rate limit propagates

  /** How the retry loop ends, given what each of its attempts would do. */
  function RetryOutcome(outcomes: seq<CallOutcome>): RetryResult
    requires |outcomes| == MaxRetries
  {
    var i := FirstSettled(outcomes);
    if i == MaxRetries then Exhausted
    else if outcomes[i].Responded? then GotResponse(outcomes[i].text)
    else Raised
  }

  /**
   * The retry loop: attempt `k` (from 1) calls the model; a response ends the
   * loop, a rate-limit error sleeps `10 * k` seconds and tries again unless it
   * was the last attempt, and any other error propagates. `calls` counts the
   * model calls made and `waits` lists the sleeps in order.
   */
  method RetryGenerate(outcomes: seq<CallOutcome>) returns (r: RetryResult, calls: nat, waits: seq<int>)
    requires |outcomes| == MaxRetries
    ensures r == RetryOutcome(outcomes)
    ensures calls == (if FirstSettled(outcomes) == MaxRetries then MaxRetries else FirstSettled(outcomes) + 1)
    ensures 1 <= calls <= MaxRetries
    ensures |waits| == (if FirstSettled(outcomes) == MaxRetries then MaxRetries else FirstSettled(outcomes))
    ensures forall k :: 0 <= k < |waits| ==> waits[k] == 10 * (k + 1)
  {
    calls, waits := 0, [];
    var attempt := 1;
    while attempt <= MaxRetries
      invariant 1 <= attempt <= MaxRetries
      invariant calls == attempt - 1 && |waits| == attempt - 1
      invariant forall k :: 0 <= k < attempt - 1 ==> RateLimited(outcomes[k])
      invariant forall k :: 0 <= k < |waits| ==> waits[k] == 10 * (k + 1)
      decreases MaxRetries + 1 - attempt
    {
      var o := outcomes[attempt - 1];
      calls := calls + 1;
      if o.Responded? {
        LastSettled(outcomes, attempt - 1);
        return GotResponse(o.text), calls, waits;
      }
      if !RateLimited(o) {
        LastSettled(outcomes, attempt - 1);
        return Raised, calls, waits;
      }
      var wait := 10 * attempt;
      waits := waits + [wait];
      if attempt == MaxRetries {
        LastSettled(outcomes, MaxRetries);
        return Exhausted, calls, waits;
      }
      attempt := attempt + 1;
    }
    assert false;
  }

  /** The first attempt that is not rate-limited, recognised from its rate-limited prefix. */
  lemma LastSettled(outcomes: seq<CallOutcome>, i: nat)
    requires i <= |outcomes|
    requires forall k :: 0 <= k < i ==> RateLimited(outcomes[k])
    requires i < |outcomes| ==> !RateLimited(outcomes[i])
    ensures FirstSettled(outcomes) == i
  {
  }

  /** The loop returns [] exactly when all three attempts are rate-limited. */
  lemma ExhaustedIffAllRateLimited(outcomes: seq<CallOutcome>)
    requires |outcomes| == MaxRetries
    ensures RetryOutcome(outcomes) == Exhausted <==> forall k :: 0 <= k < MaxRetries ==> RateLimited(outcomes[k])
  {
    var i := FirstSettled(outcomes);
    if i < MaxRetries {
      assert !RateLimited(outcomes[i]);
    }
  }

  /** A first attempt that fails with an error other than a rate limit propagates at once. */
  lemma OtherErrorRaises(outcomes: seq<CallOutcome>)
    requires |outcomes| == MaxRetries
    requires outcomes[0].OtherException? || (outcomes[0].ClientError? && !RateLimited(outcomes[0]))
    ensures RetryOutcome(outcomes) == Raised
  {
    LastSettled(outcomes, 0);
  }

  /** `(?:json)?`: the optional tag after the opening fence. */
  function DropTag(t: string): string {
    if StartsWith(t, "json") then t[4..] else t
  }

  /**
   * `re.sub(r"^```(?:json)?\s*\n?", "", s)`: the opening fence, an optional
   * `json` tag and the whitespace after them. The `\s*` is greedy, so it takes
   * every newline and `\n?` matches nothing.
   */
  function DropOpeningFence(s: string): (r: string)
    ensures |r| <= |s|
  {
    if !StartsWith(s, "```") then s else LStrip(DropTag(s[3..]))
  }

  /**
   * `re.sub(r"\n?```\s*$", "", s)`: a closing fence followed by whitespace only,
   * with the newline just before it. That fence is the last three characters of
   * `s.rstrip()`.
   */
  function DropClosingFence(s: string): (r: string)
    ensures |r| <= |s|
  {
    var u := RStrip(s);
    if !EndsWith(u, "```") then s
    else
      var v := u[..|u| - 3];
      if EndsWith(v, "\n") then v[..|v| - 1] else v
  }

  /** The fence clean-up, applied only to output that starts with three backticks. */
  function StripFences(raw: string): (r: string)
    ensures !StartsWith(raw, "```") ==> r == raw
    ensures |r| <= |raw|
  {
    if StartsWith(raw, "```") then DropClosingFence(DropOpeningFence(raw)) else raw
  }

  /** The opening fence is matched whatever follows it. */
  lemma OpeningFenceMatched(x: string)
    ensures DropOpeningFence("```" + x) == LStrip(DropTag(x))
  {
    assert ("```" + x)[..3] == "```";
    assert ("```" + x)[3..] == x;
  }

  /** The tag, when present, is followed by a newline and comes off whole. */
  lemma TagDropped(tag: string, y: string)
    requires tag == "" || tag == "json"
    requires y != [] && y[0] == '\n'
    ensures DropTag(tag + y) == y
  {
    if tag == "json" {
      assert (tag + y)[..4] == "json";
      assert (tag + y)[4..] == y;
    } else {
      assert tag + y == y;
      if |y| >= 4 {
        assert y[..4][0] == '\n';
      }
    }
  }

  /** The fenced block, grouped from the right. */
  lemma FencedShape(body: string, tag: string)
    ensures "```" + tag + "\n" + body + "\n```" == "```" + (tag + ("\n" + (body + "\n```")))
  {
  }

  /** The opening fence and its tag come off, up to the first non-space character. */
  lemma OpeningFenceDropped(body: string, tag: string)
    requires tag == "" || tag == "json"
    requires body == [] || !IsSpace(body[0])
    ensures DropOpeningFence("```" + tag + "\n" + body + "\n```") == (if body == [] then "```" else body + "\n```")
  {
    var rest := body + "\n```";
    FencedShape(body, tag);
    OpeningFenceMatched(tag + ("\n" + rest));
    TagDropped(tag, "\n" + rest);
    LStripSkip('\n', rest);
    LStripAfterFence(body);
  }

  /** What `lstrip` leaves of the body and the closing fence. */
  lemma LStripAfterFence(body: string)
    requires body == [] || !IsSpace(body[0])
    ensures LStrip(body + "\n```") == (if body == [] then "```" else body + "\n```")
  {
    var rest := body + "\n```";
    if body == [] {
      assert rest == "\n" + "```";
      LStripSkip('\n', "```");
      LStripStop("```");
    } else {
      assert rest[0] == body[0];
      LStripStop(rest);
    }
  }

  /** A closing fence after a newline comes off with that newline. */
  lemma ClosingFenceDropped(body: string)
    ensures DropClosingFence(body + "\n```") == body
  {
    var s := body + "\n```";
    assert s[|s| - 1] == '`';
    assert RStrip(s) == s;
    assert s[|s| - 3..] == "```";
    var v := s[..|s| - 3];
    assert v == body + "\n";
    assert v[|v| - 1..] == "\n" && v[..|v| - 1] == body;
  }

  /**
   * Wrapping a body in a fenced block, tagged `json` or not, and stripping the
   * fences gives the body back, when the body does not start with whitespace.
   */
  lemma FenceRoundTrip(body: string, tag: string)
    requires tag == "" || tag == "json"
    requires body == [] || !IsSpace(body[0])
    ensures StripFences("```" + tag + "\n" + body + "\n```") == body
  {
    var s := "```" + tag + "\n" + body + "\n```";
    assert s[..3] == "```";
    OpeningFenceDropped(body, tag);
    if body == [] {
      assert RStrip("```") == "```";
      assert "```"[..0] == [];
    } else {
      ClosingFenceDropped(body);
    }
  }

  /** The fixed `source` of every sanitised record. */
  const SpiderSource := "spider_agent"

  /** `str(item.get(k, "")).strip()` */
  function SanitizedField(item: Object, k: string): (r: string)
    ensures NoEdgeSpace(r)
  {
    Strip(ToStr(Get(item, k, JStr(""))))
  }

  /** The four-key dict the sanitising loop appends. */
  function Record(title: string, link: string, snippet: string): Object {
    [("title", JStr(title)), ("link", JStr(link)), ("snippet", JStr(snippet)), ("source", JStr(SpiderSource))]
  }

  /** Looking up the keys of a record built by `Record`. */
  lemma RecordLookup(title: string, link: string, snippet: string, d: Json)
    ensures var rec := Record(title, link, snippet);
      && Keys(rec) == ["title", "link", "snippet", "source"]
      && Get(rec, "title", d) == JStr(title)
      && Get(rec, "link", d) == JStr(link)
      && Get(rec, "snippet", d) == JStr(snippet)
      && Get(rec, "source", d) == JStr(SpiderSource)
  {
    var rec := Record(title, link, snippet);
    var r1, r2, r3 := rec[1..], rec[2..], rec[3..];
    assert r3 == [("source", JStr(SpiderSource))] && r3[1..] == [];
    assert r2 == [("snippet", JStr(snippet))] + r3 && r2[1..] == r3;
    assert r1 == [("link", JStr(link))] + r2 && r1[1..] == r2;
    assert rec[1..] == r1;
    assert Keys(r3) == ["source"];
    assert Keys(r2) == ["snippet", "source"];
    assert Keys(r1) == ["link", "snippet", "source"];
    assert Get(r2, "snippet", d) == JStr(snippet);
    assert Get(r1, "snippet", d) == Get(r2, "snippet", d);
    assert Get(r3, "source", d) == JStr(SpiderSource);
    assert Get(r2, "source", d) == Get(r3, "source", d);
    assert Get(r1, "source", d) == Get(r2, "source", d);
  }

  /** The dict `extract_opportunities_with_llm` builds from one extracted object. */
  function SanitizeRecord(item: Object): (rec: Object) {
    Record(SanitizedField(item, "title"), SanitizedField(item, "link"), SanitizedField(item, "snippet"))
  }

  /** The dict elements of a list, in order. */
  function DictsOf(items: seq<Json>): (ds: seq<Object>)
    ensures |ds| <= |items|
    decreases |items|
  {
    if items == [] then []
    else
      var rest := DictsOf(items[..|items| - 1]);
      var last := items[|items| - 1];
      if last.JObj? then rest + [last.fields] else rest
  }

  /** The dicts kept are exactly the dict elements, and a list of dicts keeps them all, in order. */
  lemma {:induction false} DictsOfKeepsDicts(items: seq<Json>)
    ensures forall o :: o in DictsOf(items) <==> JObj(o) in items
    ensures (forall i :: 0 <= i < |items| ==> items[i].JObj?) ==>
      |DictsOf(items)| == |items| && forall i :: 0 <= i < |items| ==> DictsOf(items)[i] == items[i].fields
    decreases |items|
  {
    if items != [] {
      var init := items[..|items| - 1];
      DictsOfKeepsDicts(init);
      assert items == init + [items[|items| - 1]];
    }
  }

  /** `f` applied to every record, in order. */
  function MapRecords(ds: seq<Object>, f: Object -> Object): (r: seq<Object>)
    ensures |r| == |ds|
  {
    seq(|ds|, p requires 0 <= p < |ds| => f(ds[p]))
  }

  /** The `valid` list: the dicts among the parsed elements, sanitised, in order. */
  function Sanitized(items: seq<Json>): (valid: seq<Object>)
    ensures |valid| == |DictsOf(items)| <= |items|
  {
    MapRecords(DictsOf(items), SanitizeRecord)
  }

  /** A string value without whitespace at either end. */
  predicate StrippedString(j: Json) {
    j.JStr? && NoEdgeSpace(j.s)
  }

  /** The shape `extract_opportunities_with_llm` promises for each record, field by field. */
  predicate WellFormedRecord(rec: Object) {
    && |rec| == 4
    && rec[0].0 == "title" && StrippedString(rec[0].1)
    && rec[1].0 == "link" && StrippedString(rec[1].1)
    && rec[2].0 == "snippet" && StrippedString(rec[2].1)
    && rec[3] == ("source", JStr(SpiderSource))
  }

  /** A sanitised record has the promised shape: see `WellFormedRecord`. */
  lemma SanitizeRecordWellFormed(item: Object)
    ensures WellFormedRecord(SanitizeRecord(item))
  {
    RecordWellFormed(SanitizedField(item, "title"), SanitizedField(item, "link"), SanitizedField(item, "snippet"));
  }

  /** A record of three stripped strings has the promised shape. */
  lemma RecordWellFormed(title: string, link: string, snippet: string)
    requires NoEdgeSpace(title) && NoEdgeSpace(link) && NoEdgeSpace(snippet)
    ensures WellFormedRecord(Record(title, link, snippet))
  {
  }

  /**
   * A sanitised record has exactly the keys title, link, snippet and source;
   * source is `spider_agent`; the other three are the item's values as stripped
   * strings (`SanitizedField`).
   */
  lemma SanitizeRecordShape(item: Object, d: Json)
    ensures var rec := SanitizeRecord(item);
      && Keys(rec) == ["title", "link", "snippet", "source"]
      && Get(rec, "source", d) == JStr(SpiderSource)
      && Get(rec, "title", d) == JStr(SanitizedField(item, "title"))
      && Get(rec, "link", d) == JStr(SanitizedField(item, "link"))
      && Get(rec, "snippet", d) == JStr(SanitizedField(item, "snippet"))
  {
    RecordLookup(SanitizedField(item, "title"), SanitizedField(item, "link"), SanitizedField(item, "snippet"), d);
  }

  /** A key the item lacks gives the empty string. */
  lemma MissingFieldIsEmpty(item: Object, k: string)
    requires !Has(item, k)
    ensures SanitizedField(item, k) == ""
  {
    assert Get(item, k, JStr("")) == JStr("");
    StripUnchanged("");
  }

  /** Sanitising a record that is already sanitised changes nothing. */
  lemma SanitizeRecordIdempotent(item: Object)
    ensures SanitizeRecord(SanitizeRecord(item)) == SanitizeRecord(item)
  {
    var t, l, n := SanitizedField(item, "title"), SanitizedField(item, "link"), SanitizedField(item, "snippet");
    RecordLookup(t, l, n, JStr(""));
    var rec := Record(t, l, n);
    StripUnchanged(t);
    StripUnchanged(l);
    StripUnchanged(n);
    assert SanitizedField(rec, "title") == t;
    assert SanitizedField(rec, "link") == l;
    assert SanitizedField(rec, "snippet") == n;
  }

  /** Appending one more parsed element appends its fields exactly when it is a dict. */
  lemma DictsOfSnoc(items: seq<Json>, i: nat)
    requires i < |items|
    ensures DictsOf(items[..i + 1]) == DictsOf(items[..i]) + (if items[i].JObj? then [items[i].fields] else [])
  {
    assert items[..i + 1][..i] == items[..i];
  }

  /** Mapping over one more record appends its image. */
  lemma MapRecordsSnoc(ds: seq<Object>, extra: seq<Object>, f: Object -> Object)
    requires |extra| <= 1
    ensures MapRecords(ds + extra, f) == MapRecords(ds, f) + MapRecords(extra, f)
  {
    var l, r := MapRecords(ds + extra, f), MapRecords(ds, f) + MapRecords(extra, f);
    forall p | 0 <= p < |l| ensures l[p] == r[p] {
      if p >= |ds| {
        assert (ds + extra)[p] == extra[p - |ds|];
      }
    }
  }

  /** Mapping over the dicts of one more element appends the image of its fields exactly when it is a dict. */
  lemma MappedDictsSnoc(items: seq<Json>, i: nat, f: Object -> Object)
    requires i < |items|
    ensures MapRecords(DictsOf(items[..i + 1]), f) ==
      MapRecords(DictsOf(items[..i]), f) + (if items[i].JObj? then [f(items[i].fields)] else [])
  {
    var extra := if items[i].JObj? then [items[i].fields] else [];
    DictsOfSnoc(items, i);
    MapRecordsSnoc(DictsOf(items[..i]), extra, f);
    if items[i].JObj? {
      assert MapRecords(extra, f) == [f(items[i].fields)];
    } else {
      assert MapRecords(extra, f) == [];
    }
  }

  /** Appending one more parsed element appends its record exactly when it is a dict. */
  lemma SanitizedSnoc(items: seq<Json>, i: nat)
    requires i < |items|
    ensures Sanitized(items[..i + 1]) ==
      Sanitized(items[..i]) + (if items[i].JObj? then [SanitizeRecord(items[i].fields)] else [])
  {
    MappedDictsSnoc(items, i, SanitizeRecord);
  }

  /** Every record of the `valid` list has the promised shape. */
  lemma SanitizedWellFormed(items: seq<Json>)
    ensures forall p :: 0 <= p < |Sanitized(items)| ==> WellFormedRecord(Sanitized(items)[p])
  {
    var ds := DictsOf(items);
    forall p | 0 <= p < |ds|
      ensures WellFormedRecord(Sanitized(items)[p])
    {
      SanitizeRecordWellFormed(ds[p]);
    }
  }

  /** The loop that builds `valid`, skipping what is not a dict. */
  method SanitizeAll(items: seq<Json>) returns (valid: seq<Object>)
    ensures valid == Sanitized(items)
    ensures forall p :: 0 <= p < |valid| ==> WellFormedRecord(valid[p])
  {
    valid := [];
    for i := 0 to |items|
      invariant valid == Sanitized(items[..i])
    {
      var item := items[i];
      SanitizedSnoc(items, i);
      if !item.JObj? {
        continue;
      }
      valid := valid + [SanitizeRecord(item.fields)];
    }
    assert items[..|items|] == items;
    SanitizedWellFormed(items);
  }

  /** What `json.loads` and the list check make of the cleaned reply. */
  function Opportunities(parsed: Option<Json>): seq<Object> {
    if parsed.Some? && parsed.value.JArr? then Sanitized(parsed.value.items) else []
  }

  /**
   * `extract_opportunities_with_llm`: `apiKey` is the environment variable,
   * `outcomes` what each model attempt would do, and `parse` stands for
   * `json.loads` (`None` for a decode error). `sent` is the page text handed to
   * the model, after truncation.
   */
  method ExtractOpportunities(pageText: string, apiKey: Option<string>, outcomes: seq<CallOutcome>,
                              parse: string -> Option<Json>)
      returns (r: Result<seq<Object>, SpiderError>, calls: nat, sent: string)
    requires |outcomes| == MaxRetries
    ensures ApiKey(apiKey).Failure? ==> r == Failure(MissingApiKey) && calls == 0
    ensures ApiKey(apiKey).Success? ==>
      && sent == Truncate(pageText)
      && 1 <= calls <= MaxRetries
      && match RetryOutcome(outcomes)
         case Raised => r == Failure(ModelCallFailed)
         case Exhausted => r == Success([])
         case GotResponse(text) => r == Success(Opportunities(parse(StripFences(Strip(text)))))
    ensures r.Success? ==> forall p :: 0 <= p < |r.value| ==> WellFormedRecord(r.value[p])
  {
    calls, sent := 0, "";
    var key := ApiKey(apiKey);
    if key.Failure? {
      return Failure(MissingApiKey), calls, sent;
    }
    sent := Truncate(pageText);
    var outcome, waits;
    outcome, calls, waits := RetryGenerate(outcomes);
    if outcome.Raised? {
      return Failure(ModelCallFailed), calls, sent;
    }
    if outcome.Exhausted? {
      return Success([]), calls, sent;
    }
    var rawOutput := Strip(outcome.text);
    rawOutput := StripFences(rawOutput);
    var parsed := parse(rawOutput);
    if parsed.None? || !parsed.value.JArr? {
      return Success([]), calls, sent;
    }
    var valid := SanitizeAll(parsed.value.items);
    return Success(valid), calls, sent;
  }
}

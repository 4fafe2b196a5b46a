/**
 * The description repair pass (src/repair_descriptions.py): every club record
 * whose description looks truncated is re-scraped; a usable scrape replaces the
 * description, otherwise the old text is cleaned locally. Progress is written out
 * after a processed record whenever the number of fixes is a positive multiple of
 * 20, and once more at the end.
 *
 * The browser is foreign: what each club page showed (or that visiting it raised)
 * is an input, and a write of the list is recorded as the snapshot it writes.
 */
module RepairDescriptions {

  import opened Wrappers
  import opened Json
  import opened PyStr

  // ---------------------------------------------------------------------------
  // scrape_full_description
  // ---------------------------------------------------------------------------

  /** What a club page shows after any "Show More" expansion. */
  datatype RepairPage = RepairPage(
    whoWeAre: Option<string>,      // inner text of the first "Who we are" header's parent
    descBlock: Option<string>,     // inner text of the first description-like block
    mainParagraphs: seq<string>)   // "main p"

  /** `description_text.strip()`: the first of the three sources that exists. */
  function SourceText(p: RepairPage): string {
    var text := if p.whoWeAre.Some? then p.whoWeAre.value
                else if p.descBlock.Some? then p.descBlock.value
                else Join(p.mainParagraphs, "\n");
    Strip(text)
  }

  /** The header and button texts removed from a scraped description, in the order they are removed. */
  const Boilerplate: seq<string> := ["WHO WE ARE", "Who we are", "Show More", "Show Less", "show more"]

  /** Remove each of `pats` in turn (`s.replace(p, "")`). */
  function RemoveAll(s: string, pats: seq<string>): (r: string)
    requires forall k :: 0 <= k < |pats| ==> pats[k] != []
    ensures |r| <= |s|
    ensures (forall k :: 0 <= k < |pats| ==> !Contains(s, pats[k])) ==> r == s
    decreases |pats|
  {
    if pats == [] then s
    else
      DeleteShortens(s, pats[0]);
      var t := Replace(s, pats[0], "");
      if !Contains(s, pats[0]) then
        ReplaceAbsent(s, pats[0], "");
        RemoveAll(t, pats[1..])
      else RemoveAll(t, pats[1..])
  }

  /** The cleanup of a scraped description: boilerplate removed, whitespace normalized. */
  function CleanScraped(source: string): (r: string)
    ensures IsNormalized(r)
  {
    var cleaned := RemoveAll(source, Boilerplate);
    NormalizeIsNormalized(cleaned);
    Normalize(cleaned)
  }

  /** `scrape_full_description(page, url)`: `None` when visiting the url raised (a url that is not a string cannot be visited). */
  function ScrapeFullDescription(url: Json, visit: string -> Option<RepairPage>): (r: Option<string>)
    ensures r.Some? ==> IsNormalized(r.value)
  {
    if url.JStr? && visit(url.s).Some? then Some(CleanScraped(SourceText(visit(url.s).value))) else None
  }

  // ---------------------------------------------------------------------------
  // One record of main
  // ---------------------------------------------------------------------------

  /** A description `"Show More" in d` and `len(d)` accept: a string, a list or a dict. */
  predicate Sized(desc: Json) {
    desc.JStr? || desc.JArr? || desc.JObj?
  }

  /** `"Show More" in d`: a substring of a string, an element of a list, a key of a dict. */
  predicate ShowMoreIn(desc: Json)
    requires Sized(desc)
  {
    if desc.JStr? then Contains(desc.s, "Show More")
    else if desc.JArr? then JStr("Show More") in desc.items
    else Has(desc.fields, "Show More")
  }

  /** `len(d)` */
  function Length(desc: Json): nat
    requires Sized(desc)
  {
    if desc.JStr? then |desc.s| else if desc.JArr? then |desc.items| else |desc.fields|
  }

  /**
   * `needs_fix`: the description shows a "Show More", is under 100 long, or (a
   * string only) ends in "...". The `or` stops at the first true operand, so
   * `.endswith` is reached, and raises for a list or dict, only when both
   * earlier tests are false.
   */
  predicate NeedsFix(desc: Json)
    requires Sized(desc)
  {
    ShowMoreIn(desc) || Length(desc) < 100 || (desc.JStr? && EndsWith(desc.s, "..."))
  }

  /** The local cleanup used when scraping gave nothing. */
  function CleanLocally(desc: string): (r: string)
    ensures IsNormalized(r)
  {
    var cleaned := Replace(Replace(desc, "Show More", ""), "WHO WE ARE", "");
    NormalizeIsNormalized(cleaned);
    Normalize(cleaned)
  }

  /** What the loop did with one record. */
  datatype Action = Skipped | NoLink | Fixed | CleanedLocally

  /**
   * One iteration of the loop: the record afterwards and what was done, or `None`
   * when the iteration raises, which ends the run. It raises when the
   * description is None, a number or a boolean (`in` raises); and for a list or
   * dict when it reaches `.endswith` or the local `.replace`.
   */
  function Step(club: Object, visit: string -> Option<RepairPage>): (r: Option<(Object, Action)>)
    ensures r.Some? ==> Sized(Get(club, "description", JStr("")))
    ensures r.Some? && (r.value.1.Skipped? || r.value.1.NoLink?) ==> r.value.0 == club
    ensures r.Some? && r.value.1.CleanedLocally? ==> Get(club, "description", JStr("")).JStr?
  {
    var desc := Get(club, "description", JStr(""));
    if !Sized(desc) then None
    else if !desc.JStr? && !ShowMoreIn(desc) && Length(desc) >= 100 then None
    else if !NeedsFix(desc) then Some((club, Skipped))
    else
      var url := Get(club, "link", JNull);
      if !Truthy(url) then Some((club, NoLink))
      else
        var newDesc := ScrapeFullDescription(url, visit);
        if newDesc.Some? && newDesc.value != "" then Some((Set(club, "description", JStr(newDesc.value)), Fixed))
        else if !desc.JStr? then None
        else Some((Set(club, "description", JStr(CleanLocally(desc.s))), CleanedLocally))
  }

  /** Exactly when an iteration raises. */
  lemma StepRaises(club: Object, visit: string -> Option<RepairPage>)
    ensures var desc := Get(club, "description", JStr(""));
      var url := Get(club, "link", JNull);
      var scraped := ScrapeFullDescription(url, visit);
      Step(club, visit).None? <==>
        || desc.JNull? || desc.JBool? || desc.JNum?
        || ((desc.JArr? || desc.JObj?) && !ShowMoreIn(desc) && Length(desc) >= 100)
        || ((desc.JArr? || desc.JObj?) && NeedsFix(desc) && Truthy(url) && !(scraped.Some? && scraped.value != ""))
  {
  }

  /**
   * A list or dict description does not stop the run when it has no link, or
   * when the scrape replaces it: for example an empty list with an empty link.
   */
  lemma EmptyListWithoutLinkContinues(visit: string -> Option<RepairPage>)
    ensures Step([("description", JArr([])), ("link", JStr(""))], visit)
      == Some(([("description", JArr([])), ("link", JStr(""))], NoLink))
  {
  }

  /**
   * A step touches the description only: every other key keeps its value, and the
   * keys stay as they were, with "description" appended when it was missing and
   * a new one was stored.
   */
  lemma StepOnlyDescription(club: Object, visit: string -> Option<RepairPage>, k: string, d: Json)
    requires Step(club, visit).Some?
    requires k != "description"
    ensures var after := Step(club, visit).value.0;
      && Get(after, k, d) == Get(club, k, d)
      && Keys(after) == if Has(club, "description") || after == club then Keys(club) else Keys(club) + ["description"]
  {
    var (after, action) := Step(club, visit).value;
    var desc := Get(club, "description", JStr(""));
    var url := Get(club, "link", JNull);
    if action.Fixed? {
      GetSetOther(club, "description", JStr(ScrapeFullDescription(url, visit).value), k, d);
    } else if action.CleanedLocally? {
      GetSetOther(club, "description", JStr(CleanLocally(desc.s)), k, d);
    }
  }

  /**
   * What becomes of the description: kept as it is when it does not need fixing
   * or there is no link; otherwise replaced by a non-empty normalized scrape, or
   * (a string only) by the normalized local cleanup when scraping gave nothing.
   */
  lemma StepDescription(club: Object, visit: string -> Option<RepairPage>)
    requires Step(club, visit).Some?
    ensures var (after, action) := Step(club, visit).value;
      var desc := Get(club, "description", JStr(""));
      var url := Get(club, "link", JNull);
      && Sized(desc)
      && (action == Skipped <==> !NeedsFix(desc))
      && (action == NoLink <==> NeedsFix(desc) && !Truthy(url))
      && (action.Skipped? || action.NoLink? ==> after == club)
      && (action == Fixed <==> NeedsFix(desc) && Truthy(url) && ScrapeFullDescription(url, visit).Some?
                               && ScrapeFullDescription(url, visit).value != "")
      && (action == Fixed ==> Get(after, "description", JNull) == JStr(ScrapeFullDescription(url, visit).value)
                              && IsNormalized(ScrapeFullDescription(url, visit).value))
      && (action == CleanedLocally ==> desc.JStr? && Get(after, "description", JNull) == JStr(CleanLocally(desc.s)))
  {
    var (after, action) := Step(club, visit).value;
    var desc := Get(club, "description", JStr(""));
    var url := Get(club, "link", JNull);
    if action.Fixed? {
      GetSetSame(club, "description", JStr(ScrapeFullDescription(url, visit).value), JNull);
    } else if action.CleanedLocally? {
      GetSetSame(club, "description", JStr(CleanLocally(desc.s)), JNull);
    }
  }

  /** A description the pass leaves alone is a string of at least 100 characters that shows no "Show More". */
  lemma SkippedIsLong(club: Object, visit: string -> Option<RepairPage>)
    requires Step(club, visit).Some? && Step(club, visit).value.1 == Skipped
    ensures Get(club, "description", JStr("")).JStr?
    ensures |Get(club, "description", JStr("")).s| >= 100
    ensures !Contains(Get(club, "description", JStr("")).s, "Show More")
  {
  }

  // ---------------------------------------------------------------------------
  // The loop of main
  // ---------------------------------------------------------------------------

  /** The loop body as a function of the record, for the given page contents. */
  function StepOf(visit: string -> Option<RepairPage>): Object -> Option<(Object, Action)> {
    club => Step(club, visit)
  }

  /** The number of records processed before the run stops: up to the first whose iteration raises, or all. */
  function CrashIndex(cs: seq<Object>, step: Object -> Option<(Object, Action)>): (n: nat)
    ensures n <= |cs|
    ensures forall k :: 0 <= k < n ==> step(cs[k]).Some?
    ensures n < |cs| ==> step(cs[n]).None?
  {
    if cs == [] || step(cs[0]).None? then 0
    else
      var n := 1 + CrashIndex(cs[1..], step);
      assert forall k :: 1 <= k < n ==> cs[k] == cs[1..][k - 1];
      n
  }

  /** The list after the first `n` records have been processed. */
  function Repaired(cs: seq<Object>, step: Object -> Option<(Object, Action)>, n: nat): (r: seq<Object>)
    requires n <= CrashIndex(cs, step)
    ensures |r| == |cs|
  {
    seq(|cs|, k requires 0 <= k < |cs| => if k < n then step(cs[k]).value.0 else cs[k])
  }

  /** Processing one more record updates exactly that record. */
  lemma RepairedStep(cs: seq<Object>, step: Object -> Option<(Object, Action)>, i: nat)
    requires i < CrashIndex(cs, step)
    ensures Repaired(cs, step, i + 1) == Repaired(cs, step, i)[i := step(cs[i]).value.0]
  {
  }

  /** How many of the first `n` records had action `a`. */
  function CountOf(cs: seq<Object>, step: Object -> Option<(Object, Action)>, n: nat, a: Action): nat
    requires n <= CrashIndex(cs, step)
  {
    if n == 0 then 0
    else CountOf(cs, step, n - 1, a) + (if step(cs[n - 1]).value.1 == a then 1 else 0)
  }

  /** After record `k` the list is written: it was processed, and the fix count is a positive multiple of 20. */
  predicate SavesAfter(cs: seq<Object>, step: Object -> Option<(Object, Action)>, k: nat)
    requires k < CrashIndex(cs, step)
  {
    var action := step(cs[k]).value.1;
    var fixed := CountOf(cs, step, k + 1, Fixed);
    (action == Fixed || action == CleanedLocally) && fixed > 0 && fixed % 20 == 0
  }

  /** The progress writes made while processing the first `n` records, each the list as it then was. */
  function Writes(cs: seq<Object>, step: Object -> Option<(Object, Action)>, n: nat): seq<seq<Object>>
    requires n <= CrashIndex(cs, step)
  {
    if n == 0 then []
    else Writes(cs, step, n - 1) + (if SavesAfter(cs, step, n - 1) then [Repaired(cs, step, n)] else [])
  }

  /** Fixed and skipped records together never outnumber the records processed. */
  lemma {:induction false} CountsBounded(cs: seq<Object>, step: Object -> Option<(Object, Action)>, n: nat)
    requires n <= CrashIndex(cs, step)
    ensures CountOf(cs, step, n, Fixed) + CountOf(cs, step, n, Skipped) + CountOf(cs, step, n, NoLink)
            + CountOf(cs, step, n, CleanedLocally) == n
  {
    if n > 0 {
      CountsBounded(cs, step, n - 1);
    }
  }

  /** Every twentieth fix is followed by a write: there are at least fixed / 20 progress writes. */
  lemma {:induction false} WritesKeepUp(cs: seq<Object>, step: Object -> Option<(Object, Action)>, n: nat)
    requires n <= CrashIndex(cs, step)
    ensures |Writes(cs, step, n)| >= CountOf(cs, step, n, Fixed) / 20
  {
    if n > 0 {
      WritesKeepUp(cs, step, n - 1);
      var before, after := CountOf(cs, step, n - 1, Fixed), CountOf(cs, step, n, Fixed);
      if after != before {
        assert after == before + 1;
        if after % 20 == 0 {
          assert SavesAfter(cs, step, n - 1);
        } else {
          assert after / 20 == before / 20;
        }
      }
    }
  }

  /**
   * A write can repeat: once the fix count reaches a multiple of 20, each following
   * record cleaned locally writes the list again with the count unchanged.
   */
  lemma {:induction false} RepeatedWrite(cs: seq<Object>, step: Object -> Option<(Object, Action)>, k: nat)
    requires k + 1 < CrashIndex(cs, step)
    requires SavesAfter(cs, step, k)
    requires step(cs[k + 1]).value.1 == CleanedLocally
    ensures SavesAfter(cs, step, k + 1)
    ensures CountOf(cs, step, k + 2, Fixed) == CountOf(cs, step, k + 1, Fixed)
  {
  }

  /**
   * `main`'s loop over the loaded list, then the final write, with `step` the loop
   * body for one record (`StepOf(visit)` for the pages the site shows).
   * `completed` is false when a record's iteration raised: the run stops there
   * and the final write does not happen.
   */
  method Repair(clubs: array<Object>, step: Object -> Option<(Object, Action)>)
      returns (completed: bool, fixedCount: nat, skippedCount: nat, writes: seq<seq<Object>>)
    modifies clubs
    ensures var n := CrashIndex(old(clubs[..]), step);
      && (completed <==> n == clubs.Length)
      && clubs[..] == Repaired(old(clubs[..]), step, n)
      && fixedCount == CountOf(old(clubs[..]), step, n, Fixed)
      && skippedCount == CountOf(old(clubs[..]), step, n, Skipped)
      && writes == Writes(old(clubs[..]), step, n) + (if completed then [clubs[..]] else [])
  {
    ghost var cs := clubs[..];
    fixedCount, skippedCount, writes := 0, 0, [];
    var i := 0;
    assert clubs[..] == Repaired(cs, step, 0);
    while i < clubs.Length
      invariant i <= CrashIndex(cs, step)
      invariant clubs[..] == Repaired(cs, step, i)
      invariant fixedCount == CountOf(cs, step, i, Fixed)
      invariant skippedCount == CountOf(cs, step, i, Skipped)
      invariant writes == Writes(cs, step, i)
    {
      assert clubs[i] == cs[i];
      var outcome := step(clubs[i]);
      if outcome.None? {
        return false, fixedCount, skippedCount, writes;
      }
      RepairedStep(cs, step, i);
      var (updated, action) := outcome.value;
      if action == Skipped {
        skippedCount := skippedCount + 1;
      } else if action == Fixed {
        fixedCount := fixedCount + 1;
      }
      clubs[i] := updated;
      i := i + 1;
      if (action == Fixed || action == CleanedLocally) && fixedCount > 0 && fixedCount % 20 == 0 {
        writes := writes + [clubs[..]];
      }
    }
    writes := writes + [clubs[..]];
    return true, fixedCount, skippedCount, writes;
  }
}

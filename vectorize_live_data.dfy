/**
 * `vectorize_data_file` (src/vectorize_live_data.py): load an events file,
 * build one rich text per event, encode them in one batch, attach row `i` to
 * event `i` in place, save the list and report whether the file was processed.
 */
module VectorizeLiveData {

  import opened Wrappers
  import opened Json
  import opened Enrichment

  /** `f"Title: {title}. Source: {source}. Description: {snippet}"` */
  function EventText(event: Object): string {
    "Title: " + FieldText(event, "title") + ". Source: " + FieldText(event, "source")
      + ". Description: " + FieldText(event, "snippet")
  }

  /** String fields appear verbatim, between the fixed labels; the snippet is labelled as the description. */
  lemma EventTextOfStrings(event: Object, title: string, source: string, snippet: string)
    requires Get(event, "title", JNull) == JStr(title)
    requires Get(event, "source", JNull) == JStr(source)
    requires Get(event, "snippet", JNull) == JStr(snippet)
    ensures EventText(event) == "Title: " + title + ". Source: " + source + ". Description: " + snippet
  {
    FieldTextOfString(event, "title", title);
    FieldTextOfString(event, "source", source);
    FieldTextOfString(event, "snippet", snippet);
  }

  /**
   * `vectorize_data_file`: `False` when the input file is missing, with
   * nothing encoded or written; otherwise `texts` holds one rich text per
   * event in event order, event `i` gains `encode(texts)[i]` under `embedding`
   * and nothing else, the updated list is saved and the result is `True`.
   */
  method VectorizeDataFile(events: array<Object>, fileFound: bool, encode: seq<string> -> seq<Json>)
      returns (ok: bool, texts: seq<string>, saved: Option<seq<Object>>)
    requires forall ts :: |encode(ts)| == |ts|
    modifies events
    ensures ok == fileFound
    ensures !ok ==> texts == [] && saved == None && events[..] == old(events[..])
    ensures ok ==>
      && texts == Texts(old(events[..]), EventText)
      && (forall i :: 0 <= i < events.Length ==> events[i] == Embedded(old(events[i]), encode(texts)[i]))
      && saved == Some(events[..])
  {
    if !fileFound {
      return false, [], None;
    }
    texts := BuildTexts(events[..], EventText);
    var rows := encode(texts);
    AttachEmbeddings(events, rows);
    return true, texts, Some(events[..]);
  }
}

/**
 * What src/generate_embeddings.py and src/vectorize_live_data.py share: reading
 * a display field for the rich text (`record.get(k, '') or ''` inside an
 * f-string), building one rich text per record in order, and attaching the
 * encoder's rows to the records in place.
 *
 * The sentence encoder is foreign: it is a function parameter that returns one
 * row (already converted with `tolist()`) per text.
 */
module Enrichment {

  import opened Json

  /** `f"{record.get(k, '') or ''}"`: a missing or falsy value gives "". */
  function FieldText(record: Object, k: string): (text: string)
    ensures !Truthy(Get(record, k, JStr(""))) ==> text == ""
    ensures Get(record, k, JStr("")).JStr? ==> text == Get(record, k, JStr("")).s
  {
    ToStr(Or(Get(record, k, JStr("")), JStr("")))
  }

  /** A missing key, `None`, "" or any other falsy value reads as the empty string. */
  lemma FieldTextDefaults(record: Object, k: string)
    requires !Has(record, k) || !Truthy(Get(record, k, JStr("")))
    ensures FieldText(record, k) == ""
  {
  }

  /** A non-empty string value is used as it is. */
  lemma FieldTextOfString(record: Object, k: string, s: string)
    requires Get(record, k, JNull) == JStr(s)
    ensures FieldText(record, k) == s
  {
    GetDefaultIrrelevant(record, k, JNull, JStr(""));
  }

  /** The rich text of each record, in record order. */
  function Texts(records: seq<Object>, template: Object -> string): (texts: seq<string>)
    ensures |texts| == |records|
  {
    seq(|records|, i requires 0 <= i < |records| => template(records[i]))
  }

  /** The loop that appends one rich text per record. */
  method BuildTexts(records: seq<Object>, template: Object -> string) returns (texts: seq<string>)
    ensures texts == Texts(records, template)
    ensures forall i :: 0 <= i < |records| ==> texts[i] == template(records[i])
  {
    texts := [];
    for i := 0 to |records|
      invariant |texts| == i
      invariant forall j :: 0 <= j < i ==> texts[j] == template(records[j])
    {
      texts := texts + [template(records[i])];
    }
  }

  /** `record['embedding'] = row`. */
  function Embedded(record: Object, row: Json): Object {
    Set(record, "embedding", row)
  }

  /**
   * Attaching an embedding sets `embedding` to the row, keeps every other
   * key's value, and keeps the keys in order, appending `embedding` when it
   * was not there.
   */
  lemma EmbeddedFields(record: Object, row: Json, k: string, d: Json)
    ensures Get(Embedded(record, row), "embedding", d) == row
    ensures k != "embedding" ==> Get(Embedded(record, row), k, d) == Get(record, k, d)
    ensures Keys(Embedded(record, row)) ==
      if Has(record, "embedding") then Keys(record) else Keys(record) + ["embedding"]
  {
    GetSetSame(record, "embedding", row, d);
    if k != "embedding" {
      GetSetOther(record, "embedding", row, k, d);
    }
  }

  /** `for i, record in enumerate(records): record['embedding'] = embeddings[i].tolist()` */
  method AttachEmbeddings(records: array<Object>, rows: seq<Json>)
    requires |rows| == records.Length
    modifies records
    ensures forall i :: 0 <= i < records.Length ==> records[i] == Embedded(old(records[i]), rows[i])
  {
    for i := 0 to records.Length
      invariant forall j :: 0 <= j < i ==> records[j] == Embedded(old(records[j]), rows[j])
      invariant forall j :: i <= j < records.Length ==> records[j] == old(records[j])
    {
      records[i] := Embedded(records[i], rows[i]);
    }
  }
}

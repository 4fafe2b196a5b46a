/**
 * `generate_embeddings` (src/generate_embeddings.py): load the repaired club
 * list, build one rich text per club, encode them in one batch, attach row `i`
 * to club `i` in place, and save the list.
 *
 * The clubs are an array of dicts updated by index; whether the input file was
 * found is a parameter, and the list written to the output file is returned.
 */
module GenerateEmbeddings {

  import opened Wrappers
  import opened Json
  import opened Enrichment

  const InputFile := "wusa_clubs_fixed.json"
  const OutputFile := "wusa_clubs_vectors.json"

  /** `f"Name: {name}. Category: {category}. Description: {description}"` */
  function ClubText(club: Object): string {
    "Name: " + FieldText(club, "club_name") + ". Category: " + FieldText(club, "category")
      + ". Description: " + FieldText(club, "description")
  }

  /** String fields appear verbatim, between the fixed labels. */
  lemma ClubTextOfStrings(club: Object, name: string, category: string, description: string)
    requires Get(club, "club_name", JNull) == JStr(name)
    requires Get(club, "category", JNull) == JStr(category)
    requires Get(club, "description", JNull) == JStr(description)
    ensures ClubText(club) == "Name: " + name + ". Category: " + category + ". Description: " + description
  {
    FieldTextOfString(club, "club_name", name);
    FieldTextOfString(club, "category", category);
    FieldTextOfString(club, "description", description);
  }

  /**
   * `generate_embeddings`. A missing input file ends the run before anything
   * is encoded or written. Otherwise `texts` holds one rich text per club in
   * club order, club `i` gains `encode(texts)[i]` under `embedding` and
   * nothing else, and the updated list is what is saved.
   */
  method Generate(clubs: array<Object>, fileFound: bool, encode: seq<string> -> seq<Json>)
      returns (texts: seq<string>, saved: Option<seq<Object>>)
    requires forall ts :: |encode(ts)| == |ts|
    modifies clubs
    ensures !fileFound ==> texts == [] && saved == None && clubs[..] == old(clubs[..])
    ensures fileFound ==>
      && texts == Texts(old(clubs[..]), ClubText)
      && (forall i :: 0 <= i < clubs.Length ==> clubs[i] == Embedded(old(clubs[i]), encode(texts)[i]))
      && saved == Some(clubs[..])
  {
    if !fileFound {
      return [], None;
    }
    texts := BuildTexts(clubs[..], ClubText);
    var rows := encode(texts);
    AttachEmbeddings(clubs, rows);
    return texts, Some(clubs[..]);
  }
}

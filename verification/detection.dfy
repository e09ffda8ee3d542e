/** What the third-party detectors report, as the redaction passes of both variants see it.
    The recognisers themselves (spaCy, phonenumbers, pyap) are parameters of the model. */
module Detection {

  /** A named entity: its label (`label_`) and its surface text. */
  datatype Entity = Entity(tag: string, text: string)

  /** A match: where it starts in the text it was found in and the text it covers (for a
      phone match, the matcher's raw string); like a phonenumbers match it ends at `start`
      plus the length of that text. */
  datatype Hit = Hit(start: nat, surface: string) {
    function End(): nat {
      start + |surface|
    }
  }

  /** The detectors the passes consult: the named-entity recogniser on a text, the phone
      matcher on a text and a region, the address parser on a text and a country, and
      `str.title()`, which the deletion variant applies before parsing addresses. */
  datatype Detectors = Detectors(
    ner: string -> seq<Entity>,
    phones: (string, string) -> seq<Hit>,
    addresses: (string, string) -> seq<string>,
    title: string -> string)

  /** The regions both variants search for phone numbers, in order. */
  const PhoneRegions: seq<string> := ["US", "GB", "CA", "AU", "IN"]
}

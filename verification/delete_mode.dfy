/** The deletion variant of the redaction pipeline (redactr.py): the same four passes as the
    placeholder variant, in the same order, but every match is removed outright and nothing
    is recorded.  Addresses are looked for in a normalised copy of the pass's input, in that
    copy and in its title-cased form, and each one found is relocated in the pass's input
    before it is deleted from the text being reduced. */
module DeleteMode {
  import opened Wrappers
  import opened TextUtil
  import opened Patterns
  import opened TextCleanup
  import opened Extraction
  import opened AddressSearch
  import opened Detection

  const AddressCountries: seq<string> := ["US", "CA", "GB"]

  /** What `redact_pdf` returns when the PDF yields no text. */
  const NoText: string := "no text"

  // ----- person names -------------------------------------------------------------------

  /** One entity of `remove_names`: a PERSON entity has every word-bounded occurrence of its
      text deleted. */
  function NameRemoval(s: string, e: Entity): string {
    if e.tag == "PERSON" then SubAll(Word(e.text), s, []) else s
  }

  function NamesRemoved(s: string, ents: seq<Entity>): string {
    if ents == [] then s else NameRemoval(NamesRemoved(s, ents[..|ents| - 1]), ents[|ents| - 1])
  }

  // ----- e-mail addresses ---------------------------------------------------------------

  /** `remove_email_addresses`: one `re.sub` of the e-mail pattern by the empty string. */
  function EmailsRemoved(s: string): string {
    SubAll(Email, s, [])
  }

  // ----- phone numbers ------------------------------------------------------------------

  /** `redacted[:start] + redacted[end:]`, with Python's clamping of slices. */
  function Cut(s: string, h: Hit): string {
    PyTake(s, h.start) + PyDrop(s, h.End())
  }

  /** The matches in order, each cut at its original offsets from the text as the previous
      cuts left it. */
  function CutAll(s: string, hits: seq<Hit>): string {
    if hits == [] then s else Cut(CutAll(s, hits[..|hits| - 1]), hits[|hits| - 1])
  }

  /** The regions in order, each one's matches computed on the text as the previous regions
      left it. */
  function PhonesRemoved(s: string, regions: seq<string>, phones: (string, string) -> seq<Hit>): string {
    if regions == [] then s
    else
      var prev := PhonesRemoved(s, regions[..|regions| - 1], phones);
      CutAll(prev, phones(prev, regions[|regions| - 1]))
  }

  // ----- postal addresses ---------------------------------------------------------------

  /** One address found by the parser: relocated in `text`, the pass's input, and when that
      yields a non-empty string, every literal occurrence of it is deleted from `redacted`. */
  function AddressRemoval(redacted: string, text: string, address: string): string {
    match FindOriginalAddress(text, address)
    case Some(original) => if original != [] then ReplaceLiteral(redacted, original, []) else redacted
    case None => redacted
  }

  function AddressListRemoved(redacted: string, text: string, addrs: seq<string>): string {
    if addrs == [] then redacted
    else AddressRemoval(AddressListRemoved(redacted, text, addrs[..|addrs| - 1]), text, addrs[|addrs| - 1])
  }

  /** The texts handed to the parser: the normalised input and its title-cased form. */
  function Variants(text: string, title: string -> string): seq<string> {
    var normalized := NormalizeForAddress(text);
    [normalized, title(normalized)]
  }

  /** One country: the addresses parsed from each variant in turn. */
  function CountryRemoved(redacted: string, text: string, variants: seq<string>,
                          parse: (string, string) -> seq<string>, country: string): string
  {
    if variants == [] then redacted
    else
      var prev := CountryRemoved(redacted, text, variants[..|variants| - 1], parse, country);
      AddressListRemoved(prev, text, parse(variants[|variants| - 1], country))
  }

  function CountriesRemoved(redacted: string, text: string, countries: seq<string>, variants: seq<string>,
                            parse: (string, string) -> seq<string>): string
  {
    if countries == [] then redacted
    else
      var prev := CountriesRemoved(redacted, text, countries[..|countries| - 1], variants, parse);
      CountryRemoved(prev, text, variants, parse, countries[|countries| - 1])
  }

  /** `remove_addresses`. */
  function AddressesRemoved(text: string, parse: (string, string) -> seq<string>, title: string -> string): string {
    CountriesRemoved(text, text, AddressCountries, Variants(text, title), parse)
  }

  // ----- the pipeline -------------------------------------------------------------------

  /** `redact_pdf` of the deletion variant. */
  function Removed(pdf: Option<seq<string>>, det: Detectors): string {
    var text := PlainText(pdf);
    if text == [] then NoText
    else
      var names := NamesRemoved(text, det.ner(text));
      var emails := EmailsRemoved(names);
      var phones := PhonesRemoved(emails, PhoneRegions, det.phones);
      AddressesRemoved(phones, det.addresses, det.title)
  }

  // ----- no pass makes the text longer --------------------------------------------------

  lemma SubAllDeleteShrinks(p: Pattern, s: string)
    ensures |SubAll(p, s, [])| <= |s|
  {
    SubAllIsSubstitute(p, s, [], 0);
    SubstituteDeleteShrinks(s, FindAll(p, s), 0);
  }

  lemma {:induction false} NamesRemovedShrinks(s: string, ents: seq<Entity>)
    ensures |NamesRemoved(s, ents)| <= |s|
  {
    if ents != [] {
      NamesRemovedShrinks(s, ents[..|ents| - 1]);
      var e := ents[|ents| - 1];
      SubAllDeleteShrinks(Word(e.text), NamesRemoved(s, ents[..|ents| - 1]));
    }
  }

  lemma {:induction false} CutAllShrinks(s: string, hits: seq<Hit>)
    ensures |CutAll(s, hits)| <= |s|
  {
    if hits != [] {
      CutAllShrinks(s, hits[..|hits| - 1]);
    }
  }

  lemma {:induction false} PhonesRemovedShrinks(s: string, regions: seq<string>, phones: (string, string) -> seq<Hit>)
    ensures |PhonesRemoved(s, regions, phones)| <= |s|
  {
    if regions != [] {
      PhonesRemovedShrinks(s, regions[..|regions| - 1], phones);
      var prev := PhonesRemoved(s, regions[..|regions| - 1], phones);
      CutAllShrinks(prev, phones(prev, regions[|regions| - 1]));
    }
  }

  lemma {:induction false} AddressListShrinks(redacted: string, text: string, addrs: seq<string>)
    ensures |AddressListRemoved(redacted, text, addrs)| <= |redacted|
  {
    if addrs != [] {
      AddressListShrinks(redacted, text, addrs[..|addrs| - 1]);
      var prev := AddressListRemoved(redacted, text, addrs[..|addrs| - 1]);
      match FindOriginalAddress(text, addrs[|addrs| - 1])
      case Some(original) => DeleteLiteralShrinks(prev, original);
      case None =>
    }
  }

  lemma {:induction false} CountryShrinks(redacted: string, text: string, variants: seq<string>,
                                          parse: (string, string) -> seq<string>, country: string)
    ensures |CountryRemoved(redacted, text, variants, parse, country)| <= |redacted|
  {
    if variants != [] {
      CountryShrinks(redacted, text, variants[..|variants| - 1], parse, country);
      var prev := CountryRemoved(redacted, text, variants[..|variants| - 1], parse, country);
      AddressListShrinks(prev, text, parse(variants[|variants| - 1], country));
    }
  }

  lemma {:induction false} CountriesShrink(redacted: string, text: string, countries: seq<string>,
                                           variants: seq<string>, parse: (string, string) -> seq<string>)
    ensures |CountriesRemoved(redacted, text, countries, variants, parse)| <= |redacted|
  {
    if countries != [] {
      CountriesShrink(redacted, text, countries[..|countries| - 1], variants, parse);
      var prev := CountriesRemoved(redacted, text, countries[..|countries| - 1], variants, parse);
      CountryShrinks(prev, text, variants, parse, countries[|countries| - 1]);
    }
  }

  /** With text to work on, the result is never longer than the extracted text; without,
      it is the sentinel `no text`. */
  lemma RemovedShrinks(pdf: Option<seq<string>>, det: Detectors)
    ensures PlainText(pdf) == [] ==> Removed(pdf, det) == NoText
    ensures PlainText(pdf) != [] ==> |Removed(pdf, det)| <= |PlainText(pdf)|
  {
    var text := PlainText(pdf);
    if text != [] {
      var names := NamesRemoved(text, det.ner(text));
      var emails := EmailsRemoved(names);
      var phones := PhonesRemoved(emails, PhoneRegions, det.phones);
      NamesRemovedShrinks(text, det.ner(text));
      SubAllDeleteShrinks(Email, names);
      PhonesRemovedShrinks(emails, PhoneRegions, det.phones);
      CountriesShrink(phones, phones, AddressCountries, Variants(phones, det.title), det.addresses);
    }
  }

  // ----- what the passes delete ---------------------------------------------------------

  /** The e-mail pass deletes the matches `re.finditer` reports, each an e-mail match, and
      keeps every other character in order. */
  lemma EmailsRemovedSpec(s: string)
    ensures EmailsRemoved(s) == Substitute(s, FindAll(Email, s), [], 0)
    ensures forall k :: 0 <= k < |FindAll(Email, s)| ==>
      EmailAt(s, FindAll(Email, s)[k].start) == Some(FindAll(Email, s)[k].end)
  {
    SubAllIsSubstitute(Email, s, [], 0);
  }

  /** No e-mail is skipped: every position where the pattern matches lies inside a deleted
      match. */
  lemma EmailsRemovedCovers(s: string, j: nat)
    requires j <= |s| && EmailAt(s, j).Some?
    ensures Covers(FindAll(Email, s), j)
  {
    FindAllCovers(Email, s, 0, j);
  }

  /** With a single match, the cut removes exactly that match. */
  lemma SingleCut(s: string, h: Hit)
    requires h.End() <= |s|
    ensures CutAll(s, [h]) == s[..h.start] + s[h.End()..]
  {
    assert [h][..0] == [];
  }

  /** Offsets of later matches are not adjusted: in `x12y34` with phone matches `12` at 1 and
      `34` at 4, the second cut falls past the end of the shortened text and removes nothing. */
  lemma StaleCut()
    ensures CutAll("x12y34", [Hit(1, "12"), Hit(4, "34")]) == "xy34"
  {
    var h1, h2 := Hit(1, "12"), Hit(4, "34");
    assert [h1, h2][..1] == [h1];
    assert [h1][..0] == [];
    assert CutAll("x12y34", [h1]) == "xy34";
  }

  /** An address that cannot be relocated, or relocates to the empty string, removes nothing;
      one that removes something was relocated to a non-empty part of the pass's input that
      fits its tokens, and that part occurs in the text being reduced. */
  lemma AddressRemovalSpec(redacted: string, text: string, address: string)
    ensures (FindOriginalAddress(text, address).None? || FindOriginalAddress(text, address) == Some([])) ==>
      AddressRemoval(redacted, text, address) == redacted
    ensures AddressRemoval(redacted, text, address) != redacted ==>
      exists a, e :: 0 <= a < e <= |text| && FitsAt(text, a, e, Tokens(address)) && Contains(redacted, text[a..e])
  {
    var found := FindOriginalAddress(text, address);
    if AddressRemoval(redacted, text, address) != redacted {
      FindOriginalSome(text, address);
      var a, e :| 0 <= a <= e <= |text| && found.value == text[a..e] && FitsAt(text, a, e, Tokens(address));
      if !Contains(redacted, text[a..e]) {
        ReplaceAbsent(redacted, text[a..e], []);
      }
    }
  }

  // ----- the imperative passes ----------------------------------------------------------

  /** `remove_names`. */
  method RemoveNames(text: string, ner: string -> seq<Entity>) returns (redacted: string)
    ensures redacted == NamesRemoved(text, ner(text))
    ensures |redacted| <= |text|
  {
    var ents := ner(text);
    redacted := text;
    var i := 0;
    while i < |ents|
      invariant 0 <= i <= |ents|
      invariant redacted == NamesRemoved(text, ents[..i])
    {
      assert ents[..i + 1][..i] == ents[..i];
      if ents[i].tag == "PERSON" {
        redacted := SubAll(Word(ents[i].text), redacted, []);
      }
      i := i + 1;
    }
    assert ents[..i] == ents;
    NamesRemovedShrinks(text, ents);
  }

  /** `remove_phone_numbers`. */
  method RemovePhones(text: string, phones: (string, string) -> seq<Hit>) returns (redacted: string)
    ensures redacted == PhonesRemoved(text, PhoneRegions, phones)
    ensures |redacted| <= |text|
  {
    redacted := text;
    var i := 0;
    while i < |PhoneRegions|
      invariant 0 <= i <= |PhoneRegions|
      invariant redacted == PhonesRemoved(text, PhoneRegions[..i], phones)
    {
      assert PhoneRegions[..i + 1][..i] == PhoneRegions[..i];
      ghost var before := redacted;
      var matches := phones(redacted, PhoneRegions[i]);
      var j := 0;
      while j < |matches|
        invariant 0 <= j <= |matches|
        invariant redacted == CutAll(before, matches[..j])
      {
        assert matches[..j + 1][..j] == matches[..j];
        redacted := PyTake(redacted, matches[j].start) + PyDrop(redacted, matches[j].End());
        j := j + 1;
      }
      assert matches[..j] == matches;
      i := i + 1;
    }
    assert PhoneRegions[..i] == PhoneRegions;
    PhonesRemovedShrinks(text, PhoneRegions, phones);
  }

  /** `remove_addresses`. */
  method RemoveAddresses(text: string, parse: (string, string) -> seq<string>, title: string -> string)
    returns (redacted: string)
    ensures redacted == AddressesRemoved(text, parse, title)
    ensures |redacted| <= |text|
  {
    redacted := text;
    var normalized := NormalizeForAddress(text);
    var variants := [normalized, title(normalized)];
    var i := 0;
    while i < |AddressCountries|
      invariant 0 <= i <= |AddressCountries|
      invariant redacted == CountriesRemoved(text, text, AddressCountries[..i], variants, parse)
    {
      assert AddressCountries[..i + 1][..i] == AddressCountries[..i];
      ghost var beforeCountry := redacted;
      var v := 0;
      while v < |variants|
        invariant 0 <= v <= |variants|
        invariant redacted == CountryRemoved(beforeCountry, text, variants[..v], parse, AddressCountries[i])
      {
        assert variants[..v + 1][..v] == variants[..v];
        ghost var beforeVariant := redacted;
        var addresses := parse(variants[v], AddressCountries[i]);
        var j := 0;
        while j < |addresses|
          invariant 0 <= j <= |addresses|
          invariant redacted == AddressListRemoved(beforeVariant, text, addresses[..j])
        {
          assert addresses[..j + 1][..j] == addresses[..j];
          var original := FindOriginalAddress(text, addresses[j]);
          if original.Some? && original.value != [] {
            redacted := ReplaceLiteral(redacted, original.value, []);
          }
          j := j + 1;
        }
        assert addresses[..j] == addresses;
        v := v + 1;
      }
      assert variants[..v] == variants;
      i := i + 1;
    }
    assert AddressCountries[..i] == AddressCountries;
    CountriesShrink(text, text, AddressCountries, variants, parse);
  }

  /** `redact_pdf` of the deletion variant. */
  method RedactPdf(pdf: Option<seq<string>>, det: Detectors) returns (result: string)
    ensures result == Removed(pdf, det)
  {
    var text := ExtractPlainText(pdf);
    if text == [] {
      return NoText;
    }
    result := RemoveNames(text, det.ner);
    result := EmailsRemoved(result);
    result := RemovePhones(result, det.phones);
    result := RemoveAddresses(result, det.addresses, det.title);
  }
}

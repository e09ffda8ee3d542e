/** The placeholder variant of the redaction pipeline (FlaskIntegration.py): four passes over
    the extracted text, person names, e-mail addresses, phone numbers and postal addresses,
    each replacing what it finds by a `[KIND_n]` placeholder recorded in one shared
    dictionary.

    The detectors are parameters (module Detection).  The phone matches, like those
    of `re.finditer`, are computed once on the text as it is when the loop over them starts,
    while each splice is applied to the text as already rewritten; the model keeps this. */
module ReplaceMode {
  import opened Wrappers
  import opened TextUtil
  import opened Patterns
  import opened Placeholders
  import opened Extraction
  import opened Detection

  const AddressCountries: seq<string> := ["US", "CA", "GB", "AU"]

  /** The text being redacted together with the dictionary built so far. */
  datatype Run = Run(text: string, table: Table)

  /** The dictionary only grows: earlier keys keep their place in the insertion order, their
      kind and their placeholder. */
  predicate Grows(t: Table, u: Table) {
    && |t.keys| <= |u.keys| && |t.kinds| <= |u.kinds|
    && u.keys[..|t.keys|] == t.keys && u.kinds[..|t.kinds|] == t.kinds
    && (forall s :: s in t.dict ==> s in u.dict && u.dict[s] == t.dict[s])
  }

  lemma GrowsTrans(t: Table, u: Table, v: Table)
    requires Grows(t, u) && Grows(u, v)
    ensures Grows(t, v)
  {
    assert v.keys[..|t.keys|] == v.keys[..|u.keys|][..|t.keys|];
    assert v.kinds[..|t.kinds|] == v.kinds[..|u.kinds|][..|t.kinds|];
  }

  lemma RegisterStep(t: Table, surface: string, kind: Kind)
    requires Numbered(t)
    ensures Numbered(Register(t, surface, kind)) && Grows(t, Register(t, surface, kind))
    ensures surface in Register(t, surface, kind).dict
  {
    RegisterNumbered(t, surface, kind);
    RegisterGrows(t, surface, kind);
    var r := Register(t, surface, kind);
    assert r.keys[..|t.keys|] == t.keys;
    assert r.kinds[..|t.kinds|] == t.kinds;
  }

  /** The placeholder a surface form receives when registered. */
  function PlaceholderOf(t: Table, surface: string, kind: Kind): string {
    var u := Register(t, surface, kind);
    if surface in u.dict then u.dict[surface] else []
  }

  // ----- person names -------------------------------------------------------------------

  /** One entity of `redact_names`: a PERSON entity is registered and every word-bounded
      occurrence of its text is replaced; other labels change nothing. */
  function NameStep(st: Run, e: Entity): Run {
    if e.tag != "PERSON" then st
    else
      var t := Register(st.table, e.text, Person);
      Run(SubAll(Word(e.text), st.text, PlaceholderOf(st.table, e.text, Person)), t)
  }

  function NamesPass(st: Run, ents: seq<Entity>): Run {
    if ents == [] then st else NameStep(NamesPass(st, ents[..|ents| - 1]), ents[|ents| - 1])
  }

  // ----- spliced matches: e-mail addresses and phone numbers -----------------------------

  /** `redacted[:start] + placeholder + redacted[end:]`, with Python's clamping of slices. */
  function Splice(s: string, h: Hit, rep: string): string {
    PyTake(s, h.start) + rep + PyDrop(s, h.End())
  }

  function HitStep(st: Run, h: Hit, kind: Kind): Run {
    Run(Splice(st.text, h, PlaceholderOf(st.table, h.surface, kind)), Register(st.table, h.surface, kind))
  }

  /** The matches taken in order, each spliced into the text as the previous ones left it. */
  function HitsPass(st: Run, hits: seq<Hit>, kind: Kind): Run {
    if hits == [] then st else HitStep(HitsPass(st, hits[..|hits| - 1], kind), hits[|hits| - 1], kind)
  }

  /** The matches `re.finditer` yields for the e-mail pattern, with the text each covers. */
  function EmailHits(s: string): (r: seq<Hit>)
    ensures |r| == |FindAll(Email, s)|
    ensures forall k :: 0 <= k < |r| ==>
      r[k].start == FindAll(Email, s)[k].start && r[k].End() == FindAll(Email, s)[k].end &&
      r[k].End() <= |s| && r[k].surface == s[r[k].start..r[k].End()]
  {
    var spans := FindAll(Email, s);
    seq(|spans|, k requires 0 <= k < |spans| => Hit(spans[k].start, s[spans[k].start..spans[k].end]))
  }

  function EmailsPass(st: Run): Run {
    HitsPass(st, EmailHits(st.text), EmailAddress)
  }

  /** The regions in order, each one's matches computed on the text as the previous regions
      left it. */
  function PhonesPass(st: Run, regions: seq<string>, phones: (string, string) -> seq<Hit>): Run {
    if regions == [] then st
    else
      var prev := PhonesPass(st, regions[..|regions| - 1], phones);
      HitsPass(prev, phones(prev.text, regions[|regions| - 1]), Phone)
  }

  // ----- postal addresses ----------------------------------------------------------------

  /** One address: registered, then every literal occurrence of it replaced. */
  function AddressStep(st: Run, a: string): Run {
    Run(ReplaceLiteral(st.text, a, PlaceholderOf(st.table, a, Address)), Register(st.table, a, Address))
  }

  function AddressList(st: Run, addrs: seq<string>): Run {
    if addrs == [] then st else AddressStep(AddressList(st, addrs[..|addrs| - 1]), addrs[|addrs| - 1])
  }

  function AddressesPass(st: Run, countries: seq<string>, parse: (string, string) -> seq<string>): Run {
    if countries == [] then st
    else
      var prev := AddressesPass(st, countries[..|countries| - 1], parse);
      AddressList(prev, parse(prev.text, countries[|countries| - 1]))
  }

  // ----- the pipeline --------------------------------------------------------------------

  /** The four passes in order on a non-empty text, starting from an empty dictionary. */
  function Passes(text: string, det: Detectors): Run {
    var names := NamesPass(Run(text, Empty), det.ner(text));
    var emails := EmailsPass(names);
    var phones := PhonesPass(emails, PhoneRegions, det.phones);
    AddressesPass(phones, AddressCountries, det.addresses)
  }

  /** `redact_pdf`: no text means an empty result and an empty dictionary. */
  function Redacted(pdf: Option<seq<string>>, det: Detectors): Run {
    var text := NormalizedText(pdf);
    if text == [] then Run([], Empty) else Passes(text, det)
  }

  lemma HitsPassPrefix(st: Run, hits: seq<Hit>, i: nat, kind: Kind)
    requires i < |hits|
    ensures HitsPass(st, hits[..i + 1], kind) == HitStep(HitsPass(st, hits[..i], kind), hits[i], kind)
  {
    assert hits[..i + 1][..i] == hits[..i];
  }

  lemma AddressListPrefix(st: Run, addrs: seq<string>, j: nat)
    requires j < |addrs|
    ensures AddressList(st, addrs[..j + 1]) == AddressStep(AddressList(st, addrs[..j]), addrs[j])
  {
    assert addrs[..j + 1][..j] == addrs[..j];
  }

  // ----- the dictionary invariant across the passes --------------------------------------

  lemma {:induction false} NamesPassGrows(st: Run, ents: seq<Entity>)
    requires Numbered(st.table)
    ensures Numbered(NamesPass(st, ents).table) && Grows(st.table, NamesPass(st, ents).table)
  {
    if ents != [] {
      var prev := NamesPass(st, ents[..|ents| - 1]);
      NamesPassGrows(st, ents[..|ents| - 1]);
      var e := ents[|ents| - 1];
      if e.tag == "PERSON" {
        RegisterStep(prev.table, e.text, Person);
        GrowsTrans(st.table, prev.table, NamesPass(st, ents).table);
      }
    }
  }

  lemma {:induction false} HitsPassGrows(st: Run, hits: seq<Hit>, kind: Kind)
    requires Numbered(st.table)
    ensures Numbered(HitsPass(st, hits, kind).table) && Grows(st.table, HitsPass(st, hits, kind).table)
  {
    if hits != [] {
      var prev := HitsPass(st, hits[..|hits| - 1], kind);
      HitsPassGrows(st, hits[..|hits| - 1], kind);
      RegisterStep(prev.table, hits[|hits| - 1].surface, kind);
      GrowsTrans(st.table, prev.table, HitsPass(st, hits, kind).table);
    }
  }

  lemma {:induction false} PhonesPassGrows(st: Run, regions: seq<string>, phones: (string, string) -> seq<Hit>)
    requires Numbered(st.table)
    ensures Numbered(PhonesPass(st, regions, phones).table)
    ensures Grows(st.table, PhonesPass(st, regions, phones).table)
  {
    if regions != [] {
      var prev := PhonesPass(st, regions[..|regions| - 1], phones);
      PhonesPassGrows(st, regions[..|regions| - 1], phones);
      HitsPassGrows(prev, phones(prev.text, regions[|regions| - 1]), Phone);
      GrowsTrans(st.table, prev.table, PhonesPass(st, regions, phones).table);
    }
  }

  lemma {:induction false} AddressListGrows(st: Run, addrs: seq<string>)
    requires Numbered(st.table)
    ensures Numbered(AddressList(st, addrs).table) && Grows(st.table, AddressList(st, addrs).table)
  {
    if addrs != [] {
      var prev := AddressList(st, addrs[..|addrs| - 1]);
      AddressListGrows(st, addrs[..|addrs| - 1]);
      RegisterStep(prev.table, addrs[|addrs| - 1], Address);
      GrowsTrans(st.table, prev.table, AddressList(st, addrs).table);
    }
  }

  lemma {:induction false} AddressesPassGrows(st: Run, countries: seq<string>, parse: (string, string) -> seq<string>)
    requires Numbered(st.table)
    ensures Numbered(AddressesPass(st, countries, parse).table)
    ensures Grows(st.table, AddressesPass(st, countries, parse).table)
  {
    if countries != [] {
      var prev := AddressesPass(st, countries[..|countries| - 1], parse);
      AddressesPassGrows(st, countries[..|countries| - 1], parse);
      AddressListGrows(prev, parse(prev.text, countries[|countries| - 1]));
      GrowsTrans(st.table, prev.table, AddressesPass(st, countries, parse).table);
    }
  }

  /** Across the four passes the dictionary stays numbered in first-seen order, and every
      pass only adds to what the previous passes recorded. */
  lemma PassesNumbered(text: string, det: Detectors)
    ensures Numbered(Passes(text, det).table)
    ensures var names := NamesPass(Run(text, Empty), det.ner(text));
      var emails := EmailsPass(names);
      var phones := PhonesPass(emails, PhoneRegions, det.phones);
      Grows(names.table, emails.table) && Grows(emails.table, phones.table) &&
      Grows(phones.table, Passes(text, det).table)
  {
    var names := NamesPass(Run(text, Empty), det.ner(text));
    var emails := EmailsPass(names);
    var phones := PhonesPass(emails, PhoneRegions, det.phones);
    NamesPassGrows(Run(text, Empty), det.ner(text));
    HitsPassGrows(names, EmailHits(names.text), EmailAddress);
    PhonesPassGrows(emails, PhoneRegions, det.phones);
    AddressesPassGrows(phones, AddressCountries, det.addresses);
  }

  /** The dictionary `redact_pdf` returns is numbered, so its placeholders are pairwise
      distinct and carry exactly the numbers 1 to its size; an empty text yields an empty
      result and dictionary. */
  lemma RedactedNumbered(pdf: Option<seq<string>>, det: Detectors)
    ensures Numbered(Redacted(pdf, det).table)
    ensures NormalizedText(pdf) == [] ==> Redacted(pdf, det) == Run([], Empty)
    ensures forall s1, s2 ::
      (s1 in Redacted(pdf, det).table.dict && s2 in Redacted(pdf, det).table.dict && s1 != s2) ==>
      Redacted(pdf, det).table.dict[s1] != Redacted(pdf, det).table.dict[s2]
  {
    var text := NormalizedText(pdf);
    if text != [] {
      PassesNumbered(text, det);
    }
    var t := Redacted(pdf, det).table;
    forall s1, s2 | s1 in t.dict && s2 in t.dict && s1 != s2 ensures t.dict[s1] != t.dict[s2] {
      NumberedInjective(t, s1, s2);
    }
  }

  // ----- single-pass properties ----------------------------------------------------------

  /** A PERSON entity has every word-bounded occurrence of its text replaced, not only the
      one the recogniser flagged: the result is the atomic rewrite of all of them. */
  lemma NameReplacesEveryOccurrence(st: Run, name: string)
    ensures var r := NameStep(st, Entity("PERSON", name));
      r.text == Substitute(st.text, FindAll(Word(name), st.text), r.table.dict[name], 0) &&
      name in r.table.dict
  {
    RegisterGrows(st.table, name, Person);
    SubAllIsSubstitute(Word(name), st.text, PlaceholderOf(st.table, name, Person), 0);
  }

  /** With a single match, the splice replaces exactly that match. */
  lemma SingleHitSplice(st: Run, h: Hit, kind: Kind)
    requires h.End() <= |st.text|
    ensures var r := HitsPass(st, [h], kind);
      h.surface in r.table.dict &&
      r.text == st.text[..h.start] + r.table.dict[h.surface] + st.text[h.End()..]
  {
    assert [h][..0] == [];
    RegisterGrows(st.table, h.surface, kind);
  }

  /** With exactly one e-mail address in the text, the pass yields
      `text[:start] + placeholder + text[end:]`. */
  lemma SingleEmail(st: Run)
    requires |FindAll(Email, st.text)| == 1
    ensures var m := FindAll(Email, st.text)[0];
      var email := st.text[m.start..m.end];
      var r := EmailsPass(st);
      email in r.table.dict &&
      r.text == st.text[..m.start] + r.table.dict[email] + st.text[m.end..]
  {
    var hits := EmailHits(st.text);
    assert hits == [hits[0]];
    SingleHitSplice(st, hits[0], EmailAddress);
  }

  lemma PhoneOne()
    ensures Placeholder(Phone, 1) == "[PHONE_1]"
  {
    assert NatToString(1) == ['1'];
    assert "[" + "PHONE" + "_" + ['1'] + "]" == "[PHONE_1]";
  }

  lemma PhoneTwo()
    ensures Placeholder(Phone, 2) == "[PHONE_2]"
  {
    assert NatToString(2) == ['2'];
    assert "[" + "PHONE" + "_" + ['2'] + "]" == "[PHONE_2]";
  }

  lemma OneHit(st: Run, h: Hit, kind: Kind)
    ensures HitsPass(st, [h], kind) == HitStep(st, h, kind)
  {
    assert [h][..0] == [];
  }

  lemma FirstText()
    ensures Splice("x12y34", Hit(1, "12"), "[PHONE_1]") == "x[PHONE_1]y34"
  {
    assert PyTake("x12y34", 1) == "x";
    assert PyDrop("x12y34", 3) == "y34";
  }

  /** The first phone match of the example below, spliced into the untouched text. */
  lemma FirstSplice()
    ensures HitsPass(Run("x12y34", Empty), [Hit(1, "12")], Phone)
      == Run("x[PHONE_1]y34", Table(["12"], [Phone], map["12" := "[PHONE_1]"]))
  {
    OneHit(Run("x12y34", Empty), Hit(1, "12"), Phone);
    PhoneOne();
    FirstText();
  }

  /** The second one, spliced at its original offsets into the text the first left. */
  lemma SecondSplice(t: Table)
    requires |t.dict| == 1 && "34" !in t.dict
    ensures HitStep(Run("x[PHONE_1]y34", t), Hit(4, "34"), Phone).text == "x[PH[PHONE_2]E_1]y34"
  {
    assert PlaceholderOf(t, "34", Phone) == "[PHONE_2]" by {
      PhoneTwo();
    }
    assert Splice("x[PHONE_1]y34", Hit(4, "34"), "[PHONE_2]") == "x[PH[PHONE_2]E_1]y34";
  }

  /** Offsets of later matches are not adjusted: in `x12y34` with phone matches `12` at 1 and
      `34` at 4, the second splice lands inside the first placeholder. */
  lemma StaleOffsets()
    ensures HitsPass(Run("x12y34", Empty), [Hit(1, "12"), Hit(4, "34")], Phone).text
      == "x[PH[PHONE_2]E_1]y34"
  {
    var h1, h2 := Hit(1, "12"), Hit(4, "34");
    HitsPassPrefix(Run("x12y34", Empty), [h1, h2], 1, Phone);
    assert [h1, h2][..1] == [h1];
    FirstSplice();
    SecondSplice(Table(["12"], [Phone], map["12" := "[PHONE_1]"]));
  }

  /** A surface form already in the dictionary keeps its placeholder when a later pass of
      another kind matches it: an address equal to a recorded name is replaced by the name's
      placeholder, and the dictionary does not change. */
  lemma FirstSeenReuse(st: Run, a: string)
    requires a in st.table.dict
    ensures AddressStep(st, a) == Run(ReplaceLiteral(st.text, a, st.table.dict[a]), st.table)
  {
  }

  lemma OneName(text: string, name: string)
    ensures NamesPass(Run(text, Empty), [Entity("PERSON", name)]).table.dict == map[name := Placeholder(Person, 1)]
  {
    assert [Entity("PERSON", name)][..0] == [];
  }

  lemma OneEmailAfterOneName(names: Run, name: string)
    requires names.table.dict == map[name := Placeholder(Person, 1)]
    requires |FindAll(Email, names.text)| == 1
    requires var m := FindAll(Email, names.text)[0]; names.text[m.start..m.end] != name
    ensures var m := FindAll(Email, names.text)[0];
      EmailsPass(names).table.dict == map[name := Placeholder(Person, 1), names.text[m.start..m.end] := Placeholder(EmailAddress, 2)]
  {
    var hits := EmailHits(names.text);
    HitsPassPrefix(names, hits, 0, EmailAddress);
    assert hits[..1] == hits;
    assert hits[..0] == [];
    assert EmailsPass(names) == HitStep(names, hits[0], EmailAddress);
    assert |names.table.dict| == 1;
  }

  /** Names are handled before e-mails: with one person `name` found in the text and one
      e-mail address in what the name pass leaves, `redact_pdf` maps them to `[PERSON_1]`
      and `[EMAIL_2]` (placeholders numbered 1 and 2). */
  lemma NamesBeforeEmails(text: string, det: Detectors, name: string)
    requires det.ner(text) == [Entity("PERSON", name)]
    requires var names := NamesPass(Run(text, Empty), det.ner(text));
      |FindAll(Email, names.text)| == 1 &&
      names.text[FindAll(Email, names.text)[0].start..FindAll(Email, names.text)[0].end] != name
    ensures var names := NamesPass(Run(text, Empty), det.ner(text));
      var m := FindAll(Email, names.text)[0];
      var email := names.text[m.start..m.end];
      var d := Passes(text, det).table.dict;
      name in d && email in d && d[name] == Placeholder(Person, 1) && d[email] == Placeholder(EmailAddress, 2)
  {
    var names := NamesPass(Run(text, Empty), det.ner(text));
    OneName(text, name);
    OneEmailAfterOneName(names, name);
    PassesNumbered(text, det);
    var emails := EmailsPass(names);
    var phones := PhonesPass(emails, PhoneRegions, det.phones);
    GrowsTrans(emails.table, phones.table, Passes(text, det).table);
  }

  // ----- the imperative passes -----------------------------------------------------------

  /** The `replacements` dictionary, filled in place by the passes. */
  class ReplacementMap {
    var entries: map<string, string>
    ghost var keys: seq<string>
    ghost var kinds: seq<Kind>

    ghost function Model(): Table
      reads this
    {
      Table(keys, kinds, entries)
    }

    ghost predicate Valid()
      reads this
    {
      Numbered(Model())
    }

    constructor ()
      ensures Valid() && Model() == Empty
    {
      entries := map[];
      keys := [];
      kinds := [];
    }

    /** `if s not in replacements: replacements[s] = f"[{KIND}_{len(replacements) + 1}]"`,
        then `replacements[s]`. */
    method PlaceholderFor(surface: string, kind: Kind) returns (placeholder: string)
      requires Valid()
      modifies this
      ensures Valid()
      ensures Model() == Register(old(Model()), surface, kind)
      ensures placeholder == PlaceholderOf(old(Model()), surface, kind)
    {
      RegisterNumbered(Model(), surface, kind);
      if surface !in entries {
        entries := entries[surface := Placeholder(kind, |entries| + 1)];
        keys := keys + [surface];
        kinds := kinds + [kind];
      }
      placeholder := entries[surface];
    }
  }

  /** `redact_names`. */
  method RedactNames(text: string, ner: string -> seq<Entity>, r: ReplacementMap) returns (redacted: string)
    requires r.Valid()
    modifies r
    ensures r.Valid()
    ensures Run(redacted, r.Model()) == NamesPass(Run(text, old(r.Model())), ner(text))
  {
    var ents := ner(text);
    redacted := text;
    var i := 0;
    while i < |ents|
      invariant 0 <= i <= |ents| && r.Valid()
      invariant Run(redacted, r.Model()) == NamesPass(Run(text, old(r.Model())), ents[..i])
    {
      assert ents[..i + 1][..i] == ents[..i];
      var ent := ents[i];
      if ent.tag == "PERSON" {
        var placeholder := r.PlaceholderFor(ent.text, Person);
        redacted := SubAll(Word(ent.text), redacted, placeholder);
      }
      i := i + 1;
    }
    assert ents[..i] == ents;
  }

  /** One match: its placeholder, then `redacted[:start] + placeholder + redacted[end:]`. */
  method SpliceOne(text: string, hit: Hit, kind: Kind, r: ReplacementMap) returns (redacted: string)
    requires r.Valid()
    modifies r
    ensures r.Valid()
    ensures Run(redacted, r.Model()) == HitStep(Run(text, old(r.Model())), hit, kind)
  {
    var placeholder := r.PlaceholderFor(hit.surface, kind);
    redacted := Splice(text, hit, placeholder);
  }

  /** The loop shared by the e-mail and phone passes: each match spliced in turn at its
      original offsets. */
  method SpliceAll(text: string, hits: seq<Hit>, kind: Kind, r: ReplacementMap) returns (redacted: string)
    requires r.Valid()
    modifies r
    ensures r.Valid()
    ensures Run(redacted, r.Model()) == HitsPass(Run(text, old(r.Model())), hits, kind)
  {
    redacted := text;
    ghost var start := Run(text, r.Model());
    var i := 0;
    while i < |hits|
      invariant 0 <= i <= |hits| && r.Valid()
      invariant Run(redacted, r.Model()) == HitsPass(start, hits[..i], kind)
    {
      HitsPassPrefix(start, hits, i, kind);
      redacted := SpliceOne(redacted, hits[i], kind, r);
      i := i + 1;
    }
    assert hits[..i] == hits;
  }

  /** `redact_email_addresses`: the matches are those of the text the pass receives. */
  method RedactEmails(text: string, r: ReplacementMap) returns (redacted: string)
    requires r.Valid()
    modifies r
    ensures r.Valid()
    ensures Run(redacted, r.Model()) == EmailsPass(Run(text, old(r.Model())))
  {
    redacted := SpliceAll(text, EmailHits(text), EmailAddress, r);
  }

  /** `redact_phone_numbers`: per region, the matcher runs on the text as it is when that
      region's loop starts. */
  method RedactPhones(text: string, phones: (string, string) -> seq<Hit>, r: ReplacementMap)
    returns (redacted: string)
    requires r.Valid()
    modifies r
    ensures r.Valid()
    ensures Run(redacted, r.Model()) == PhonesPass(Run(text, old(r.Model())), PhoneRegions, phones)
  {
    redacted := text;
    var i := 0;
    while i < |PhoneRegions|
      invariant 0 <= i <= |PhoneRegions| && r.Valid()
      invariant Run(redacted, r.Model()) == PhonesPass(Run(text, old(r.Model())), PhoneRegions[..i], phones)
    {
      assert PhoneRegions[..i + 1][..i] == PhoneRegions[..i];
      redacted := SpliceAll(redacted, phones(redacted, PhoneRegions[i]), Phone, r);
      i := i + 1;
    }
    assert PhoneRegions[..i] == PhoneRegions;
  }

  /** The inner loop of `redact_addresses`: each address found for one country replaced in
      turn by its placeholder. */
  method ReplaceAddresses(text: string, addresses: seq<string>, r: ReplacementMap) returns (redacted: string)
    requires r.Valid()
    modifies r
    ensures r.Valid()
    ensures Run(redacted, r.Model()) == AddressList(Run(text, old(r.Model())), addresses)
  {
    redacted := text;
    ghost var start := Run(text, r.Model());
    var j := 0;
    while j < |addresses|
      invariant 0 <= j <= |addresses| && r.Valid()
      invariant Run(redacted, r.Model()) == AddressList(start, addresses[..j])
    {
      ghost var prev := Run(redacted, r.Model());
      var placeholder := r.PlaceholderFor(addresses[j], Address);
      redacted := ReplaceLiteral(redacted, addresses[j], placeholder);
      assert Run(redacted, r.Model()) == AddressStep(prev, addresses[j]);
      AddressListPrefix(start, addresses, j);
      j := j + 1;
    }
    assert addresses[..j] == addresses;
  }

  /** `redact_addresses`: per country, the parser runs on the text as it is when that
      country's loop starts. */
  method RedactAddresses(text: string, parse: (string, string) -> seq<string>, r: ReplacementMap)
    returns (redacted: string)
    requires r.Valid()
    modifies r
    ensures r.Valid()
    ensures Run(redacted, r.Model()) == AddressesPass(Run(text, old(r.Model())), AddressCountries, parse)
  {
    redacted := text;
    var i := 0;
    while i < |AddressCountries|
      invariant 0 <= i <= |AddressCountries| && r.Valid()
      invariant Run(redacted, r.Model()) ==
        AddressesPass(Run(text, old(r.Model())), AddressCountries[..i], parse)
    {
      assert AddressCountries[..i + 1][..i] == AddressCountries[..i];
      var addresses := parse(redacted, AddressCountries[i]);
      redacted := ReplaceAddresses(redacted, addresses, r);
      i := i + 1;
    }
    assert AddressCountries[..i] == AddressCountries;
  }

  /** `redact_pdf`: extraction, then the four passes in order. */
  method RedactPdf(pdf: Option<seq<string>>, det: Detectors) returns (redacted: string, replacements: ReplacementMap)
    ensures replacements.Valid()
    ensures Run(redacted, replacements.Model()) == Redacted(pdf, det)
  {
    replacements := new ReplacementMap();
    var text := ExtractNormalizedText(pdf);
    if text == [] {
      return [], replacements;
    }
    redacted := RedactNames(text, det.ner, replacements);
    redacted := RedactEmails(redacted, replacements);
    redacted := RedactPhones(redacted, det.phones, replacements);
    redacted := RedactAddresses(redacted, det.addresses, replacements);
  }
}

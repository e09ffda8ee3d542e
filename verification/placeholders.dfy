/** The bookkeeping of the placeholder variant: `[KIND_n]` tokens, the surface-form to
    placeholder dictionary with its insertion order, the per-kind counts the upload route
    derives from it, and the route's file-name check (FlaskIntegration.py). */
module Placeholders {
  import opened TextUtil

  /** The four entity kinds, in the order their passes run. */
  datatype Kind = Person | EmailAddress | Phone | Address

  function KindName(k: Kind): string {
    match k
    case Person => "PERSON"
    case EmailAddress => "EMAIL"
    case Phone => "PHONE"
    case Address => "ADDRESS"
  }

  /** `f"[{KIND}_{n}]"`. */
  function Placeholder(k: Kind, n: nat): string {
    "[" + KindName(k) + "_" + NatToString(n) + "]"
  }

  /** `v.split('_')[0][1:]`: what comes before the first underscore, less its first character. */
  function KindOf(v: string): string {
    var u := IndexOf(v, '_');
    var head := if u == -1 then v else v[..u];
    if head == [] then [] else head[1..]
  }

  /** The kind read back from a placeholder is the kind it was made for. */
  lemma KindOfPlaceholder(k: Kind, n: nat)
    ensures KindOf(Placeholder(k, n)) == KindName(k)
  {
    var v := Placeholder(k, n);
    var name := KindName(k);
    assert '_' !in name;
    assert v[..|name| + 1] == "[" + name;
    assert v[|name| + 1] == '_';
    assert IndexOf(v, '_') == |name| + 1;
    assert v[..|name| + 1][1..] == name;
  }

  /** Two placeholders are equal only when kind and number both are. */
  lemma PlaceholderInjective(k1: Kind, n1: nat, k2: Kind, n2: nat)
    requires Placeholder(k1, n1) == Placeholder(k2, n2)
    ensures k1 == k2 && n1 == n2
  {
    KindOfPlaceholder(k1, n1);
    KindOfPlaceholder(k2, n2);
    assert KindName(k1) == KindName(k2);
    var v := Placeholder(k1, n1);
    var m := |KindName(k1)| + 2;
    assert NatToString(n1) == v[m..|v| - 1];
    assert NatToString(n2) == v[m..|v| - 1];
    PrintedInjective(n1, n2);
  }

  /** The `replacements` dictionary: its entries, and the order in which keys were first
      inserted together with the kind each was registered as. */
  datatype Table = Table(keys: seq<string>, kinds: seq<Kind>, dict: map<string, string>)

  const Empty := Table([], [], map[])

  predicate Distinct(keys: seq<string>) {
    forall i, j :: 0 <= i < j < |keys| ==> keys[i] != keys[j]
  }

  /** The entries of a numbered table, the `j`-th key inserted mapping to number `j + 1`. */
  predicate Entries(keys: seq<string>, kinds: seq<Kind>, dict: map<string, string>)
    requires |kinds| == |keys|
  {
    forall j :: 0 <= j < |keys| ==> keys[j] in dict && dict[keys[j]] == Placeholder(kinds[j], j + 1)
  }

  /** The table's invariant: the `j`-th key inserted maps to a placeholder numbered `j + 1`. */
  predicate Numbered(t: Table) {
    && |t.kinds| == |t.keys|
    && Distinct(t.keys)
    && t.dict.Keys == (set s | s in t.keys)
    && Entries(t.keys, t.kinds, t.dict)
  }

  /** `if s not in replacements: replacements[s] = f"[{KIND}_{len(replacements) + 1}]"`. */
  function Register(t: Table, surface: string, kind: Kind): Table {
    if surface in t.dict then t
    else Table(t.keys + [surface], t.kinds + [kind], t.dict[surface := Placeholder(kind, |t.dict| + 1)])
  }

  lemma {:induction false} DistinctCard(keys: seq<string>)
    requires Distinct(keys)
    ensures |set s | s in keys| == |keys|
  {
    if keys != [] {
      var init := keys[..|keys| - 1];
      DistinctCard(init);
      var last := keys[|keys| - 1];
      assert (set s | s in keys) == (set s | s in init) + {last};
      assert last !in (set s | s in init);
    }
  }

  /** In a numbered table the dictionary has one entry per inserted key. */
  lemma NumberedSize(t: Table)
    requires Numbered(t)
    ensures |t.dict| == |t.keys|
  {
    DistinctCard(t.keys);
  }

  /** A key not yet inserted keeps the insertion order free of repeats. */
  lemma AppendDistinct(keys: seq<string>, surface: string)
    requires Distinct(keys) && surface !in keys
    ensures Distinct(keys + [surface])
  {
  }

  /** A key not yet in the dictionary, entered with the next number, extends the entries. */
  lemma AppendEntries(keys: seq<string>, kinds: seq<Kind>, dict: map<string, string>, surface: string, kind: Kind)
    requires |kinds| == |keys| && Entries(keys, kinds, dict) && surface !in dict
    ensures Entries(keys + [surface], kinds + [kind], dict[surface := Placeholder(kind, |keys| + 1)])
  {
    var keys', kinds', dict' := keys + [surface], kinds + [kind], dict[surface := Placeholder(kind, |keys| + 1)];
    forall j | 0 <= j < |keys'| ensures keys'[j] in dict' && dict'[keys'[j]] == Placeholder(kinds'[j], j + 1) {
      if j < |keys| {
        assert keys'[j] == keys[j] && kinds'[j] == kinds[j];
      }
    }
  }

  /** The keys inserted, one more appended. */
  lemma AppendKeys(keys: seq<string>, surface: string)
    ensures (set s | s in keys + [surface]) == (set s | s in keys) + {surface}
  {
  }

  /** The dictionary's keys, one more entered. */
  lemma UpdateKeys(dict: map<string, string>, surface: string, v: string)
    ensures dict[surface := v].Keys == dict.Keys + {surface}
  {
  }

  /** Registering keeps the numbering: a new surface form gets number `|dict| + 1`, which is
      its position in the insertion order. */
  lemma RegisterNumbered(t: Table, surface: string, kind: Kind)
    requires Numbered(t)
    ensures Numbered(Register(t, surface, kind))
  {
    if surface !in t.dict {
      NumberedSize(t);
      var r := Register(t, surface, kind);
      assert r == Table(t.keys + [surface], t.kinds + [kind], t.dict[surface := Placeholder(kind, |t.keys| + 1)]);
      AppendEntries(t.keys, t.kinds, t.dict, surface, kind);
      AppendDistinct(t.keys, surface);
      AppendKeys(t.keys, surface);
      UpdateKeys(t.dict, surface, Placeholder(kind, |t.keys| + 1));
    }
  }

  /** The dictionary only grows, keys already present keep their placeholder, and the
      registered surface form is present afterwards. */
  lemma RegisterGrows(t: Table, surface: string, kind: Kind)
    ensures var r := Register(t, surface, kind);
      surface in r.dict && t.dict.Keys <= r.dict.Keys &&
      (forall s :: s in t.dict ==> r.dict[s] == t.dict[s]) &&
      (surface in t.dict ==> r == t) &&
      (surface !in t.dict ==>
        (r.dict[surface] == Placeholder(kind, |t.dict| + 1) && r.dict.Keys == t.dict.Keys + {surface}))
  {
  }

  /** The position at which `s` was inserted. */
  function InsertedAt(keys: seq<string>, s: string): (i: nat)
    requires s in keys
    ensures i < |keys| && keys[i] == s
  {
    if keys[0] == s then 0 else 1 + InsertedAt(keys[1..], s)
  }

  /** No two surface forms share a placeholder. */
  lemma NumberedInjective(t: Table, s1: string, s2: string)
    requires Numbered(t) && s1 in t.dict && s2 in t.dict && s1 != s2
    ensures t.dict[s1] != t.dict[s2]
  {
    assert s1 in t.keys && s2 in t.keys;
    var i := InsertedAt(t.keys, s1);
    var j := InsertedAt(t.keys, s2);
    var p1 := Placeholder(t.kinds[i], i + 1);
    var p2 := Placeholder(t.kinds[j], j + 1);
    assert t.dict[s1] == p1 && t.dict[s2] == p2;
    if p1 == p2 {
      PlaceholderInjective(t.kinds[i], i + 1, t.kinds[j], j + 1);
    }
  }

  /** The dictionary's values in insertion order, as `replacements.values()` yields them. */
  function Values(t: Table): seq<string>
    requires Numbered(t)
  {
    seq(|t.keys|, j requires 0 <= j < |t.keys| => t.dict[t.keys[j]])
  }

  /** Number of values whose kind, read back, is `kind`. */
  function CountOf(values: seq<string>, kind: string): nat {
    if values == [] then 0
    else CountOf(values[..|values| - 1], kind) + (if KindOf(values[|values| - 1]) == kind then 1 else 0)
  }

  /** `type_counts[t] = type_counts.get(t, 0) + 1`. */
  function Bump(m: map<string, nat>, key: string): map<string, nat> {
    m[key := (if key in m then m[key] else 0) + 1]
  }

  /** `type_counts` after the loop over `values`. */
  function CountKinds(values: seq<string>): map<string, nat> {
    if values == [] then map[]
    else Bump(CountKinds(values[..|values| - 1]), KindOf(values[|values| - 1]))
  }

  function Get(m: map<string, nat>, key: string): nat {
    if key in m then m[key] else 0
  }

  /** Each kind's count is the number of values of that kind; kinds that occur nowhere are absent. */
  lemma {:induction false} CountKindsPerKind(values: seq<string>, kind: string)
    ensures Get(CountKinds(values), kind) == CountOf(values, kind)
    ensures kind in CountKinds(values) <==> CountOf(values, kind) > 0
  {
    if values != [] {
      CountKindsPerKind(values[..|values| - 1], kind);
    }
  }

  ghost function AnyKey(m: map<string, nat>): (k: string)
    requires m != map[]
    ensures k in m
  {
    var k :| k in m; k
  }

  /** The sum of the counts. */
  ghost function Total(m: map<string, nat>): nat
    decreases |m|
  {
    if m == map[] then 0 else m[AnyKey(m)] + Total(m - {AnyKey(m)})
  }

  lemma {:induction false} TotalWithout(m: map<string, nat>, k: string)
    requires k in m
    ensures Total(m) == m[k] + Total(m - {k})
    decreases |m|
  {
    var a := AnyKey(m);
    if a != k {
      var m' := m - {a};
      assert |m'| < |m| by { assert m'.Keys < m.Keys; }
      TotalWithout(m', k);
      var m'' := m - {k};
      assert |m''| < |m| by { assert m''.Keys < m.Keys; }
      TotalWithout(m'', a);
      assert m' - {k} == m'' - {a};
    }
  }

  lemma TotalBump(m: map<string, nat>, key: string)
    ensures Total(Bump(m, key)) == Total(m) + 1
  {
    var b := Bump(m, key);
    TotalWithout(b, key);
    assert b - {key} == m - {key};
    if key in m {
      TotalWithout(m, key);
    } else {
      assert m - {key} == m;
    }
  }

  /** The counts add up to the number of values counted. */
  lemma {:induction false} CountKindsTotal(values: seq<string>)
    ensures Total(CountKinds(values)) == |values|
  {
    if values != [] {
      CountKindsTotal(values[..|values| - 1]);
      TotalBump(CountKinds(values[..|values| - 1]), KindOf(values[|values| - 1]));
    }
  }

  /** The `type_counts` loop of the upload route. */
  method TypeCounts(values: seq<string>) returns (counts: map<string, nat>)
    ensures counts == CountKinds(values)
    ensures forall kind :: Get(counts, kind) == CountOf(values, kind)
  {
    counts := map[];
    var i := 0;
    while i < |values|
      invariant 0 <= i <= |values|
      invariant counts == CountKinds(values[..i])
    {
      assert values[..i + 1][..i] == values[..i];
      var typeName := KindOf(values[i]);
      counts := counts[typeName := Get(counts, typeName) + 1];
      i := i + 1;
    }
    assert values[..i] == values;
    forall kind ensures Get(counts, kind) == CountOf(values, kind) {
      CountKindsPerKind(values, kind);
    }
  }

  /** For the dictionary of a run, the counts add up to `len(replacements)`. */
  lemma TableCountsTotal(t: Table)
    requires Numbered(t)
    ensures Total(CountKinds(Values(t))) == |t.dict|
  {
    CountKindsTotal(Values(t));
    NumberedSize(t);
  }

  /** `'.' in name and name.rsplit('.', 1)[1].lower() == 'pdf'`. */
  predicate AllowedFile(name: string) {
    '.' in name && Lower(name[LastIndexOf(name, '.') + 1..]) == "pdf"
  }

  /** A name is accepted exactly when it ends in a dot and three letters that lower-case to
      `pdf`. */
  lemma AllowedFileIff(name: string)
    ensures AllowedFile(name) <==>
      |name| >= 4 && name[|name| - 4] == '.' && Lower(name[|name| - 3..]) == "pdf"
  {
    if AllowedFile(name) {
      var d := LastIndexOf(name, '.');
      assert |name[d + 1..]| == 3;
    }
    if |name| >= 4 && name[|name| - 4] == '.' && Lower(name[|name| - 3..]) == "pdf" {
      var ext := name[|name| - 3..];
      assert forall k :: 0 <= k < 3 ==> ext[k] != '.' by {
        forall k | 0 <= k < 3 ensures ext[k] != '.' {
          assert LowerChar(ext[k]) == "pdf"[k];
        }
      }
      assert name[|name| - 3..] == name[|name| - 4 + 1..];
      var d := LastIndexOf(name, '.');
      assert d >= |name| - 4;
    }
  }
}

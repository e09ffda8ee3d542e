/** The two searching regular expressions of the redaction passes, written out as scanners
    that follow Python's `re` engine: the word-bounded literal `\b<name>\b` built for each
    person entity, and the e-mail pattern
    `\b[A-Za-z0-9._%+-]+@[A-Za-z0-9.-]+\.[A-Z|a-z]{2,}\b`, whose top-level-domain class
    also admits a literal `|`.  `re.finditer` and `re.sub` scan left to right for the
    leftmost match and resume after it; both are given here once for either pattern. */
module Patterns {
  import opened Wrappers
  import opened TextUtil

  /** `\b`: exactly one of the characters on either side of position `p` is a word character. */
  predicate Boundary(s: string, p: nat)
    requires p <= |s|
  {
    (p > 0 && IsWordChar(s[p - 1])) != (p < |s| && IsWordChar(s[p]))
  }

  predicate IsAlnum(c: char) {
    ('a' <= c <= 'z') || ('A' <= c <= 'Z') || ('0' <= c <= '9')
  }

  /** The character classes the e-mail pattern is made of. */
  datatype CharClass = Local | Domain | Tld

  predicate InClass(cls: CharClass, c: char) {
    match cls
    case Local => IsAlnum(c) || c == '.' || c == '_' || c == '%' || c == '+' || c == '-'
    case Domain => IsAlnum(c) || c == '.' || c == '-'
    case Tld => ('a' <= c <= 'z') || ('A' <= c <= 'Z') || c == '|'
  }

  predicate AllIn(s: string, a: nat, b: nat, cls: CharClass)
    requires a <= b <= |s|
  {
    forall k :: a <= k < b ==> InClass(cls, s[k])
  }

  /** Length of the longest run of `cls` characters starting at `i`: what a greedy `+` or `*`
      consumes before backtracking. */
  function RunLength(s: string, i: nat, cls: CharClass): (n: nat)
    requires i <= |s|
    ensures i + n <= |s|
    ensures AllIn(s, i, i + n, cls)
    ensures i + n == |s| || !InClass(cls, s[i + n])
    decreases |s| - i
  {
    if i < |s| && InClass(cls, s[i]) then 1 + RunLength(s, i + 1, cls) else 0
  }

  /** The e-mail pattern anchored at `i`: the end of the match Python's backtracking finds first. */
  function EmailAt(s: string, i: nat): (r: Option<nat>)
    requires i <= |s|
    ensures r.Some? ==> i < r.value <= |s|
  {
    if !Boundary(s, i) then None
    else
      var l := RunLength(s, i, Local);
      if l == 0 || i + l == |s| || s[i + l] != '@' then None
      else TryDomain(s, i + l + 1, RunLength(s, i + l + 1, Domain))
  }

  /** `[A-Za-z0-9.-]+` starting at `j`, tried with `d` characters, then fewer. */
  function TryDomain(s: string, j: nat, d: nat): (r: Option<nat>)
    requires j + d <= |s|
    ensures r.Some? ==> j < r.value <= |s|
    decreases d
  {
    if d == 0 then None
    else match TldAt(s, j + d)
      case Some(e) => Some(e)
      case None => TryDomain(s, j, d - 1)
  }

  /** `\.[A-Z|a-z]{2,}\b` with the dot at `k`. */
  function TldAt(s: string, k: nat): (r: Option<nat>)
    requires k <= |s|
    ensures r.Some? ==> k + 3 <= r.value <= |s|
  {
    if k == |s| || s[k] != '.' then None
    else TryTld(s, k + 1, RunLength(s, k + 1, Tld))
  }

  /** `[A-Z|a-z]{2,}\b` starting at `m`, tried with `t` characters, then fewer. */
  function TryTld(s: string, m: nat, t: nat): (r: Option<nat>)
    requires m + t <= |s|
    ensures r.Some? ==> m + 2 <= r.value <= m + t
    decreases t
  {
    if t < 2 then None
    else if Boundary(s, m + t) then Some(m + t)
    else TryTld(s, m, t - 1)
  }

  /** The shape of an e-mail match: local part up to the `@` at `at`, a domain up to the dot at
      `dot`, a top-level domain of two or more characters up to `e`, a word boundary at both ends. */
  predicate EmailParts(s: string, i: nat, at: nat, dot: nat, e: nat) {
    && i < at && at + 1 < dot && dot + 3 <= e <= |s|
    && Boundary(s, i) && Boundary(s, e)
    && AllIn(s, i, at, Local) && s[at] == '@'
    && AllIn(s, at + 1, dot, Domain) && s[dot] == '.'
    && AllIn(s, dot + 1, e, Tld)
  }

  lemma {:induction false} TryTldShape(s: string, m: nat, t: nat)
    requires m + t <= |s|
    requires TryTld(s, m, t).Some?
    ensures Boundary(s, TryTld(s, m, t).value)
    decreases t
  {
    if !Boundary(s, m + t) { TryTldShape(s, m, t - 1); }
  }

  lemma {:induction false} TryDomainShape(s: string, j: nat, d: nat)
    requires j + d <= |s| && AllIn(s, j, j + d, Domain)
    requires TryDomain(s, j, d).Some?
    ensures exists dot :: (j < dot && dot + 3 <= TryDomain(s, j, d).value && s[dot] == '.' &&
      AllIn(s, j, dot, Domain) && AllIn(s, dot + 1, TryDomain(s, j, d).value, Tld) &&
      Boundary(s, TryDomain(s, j, d).value))
    decreases d
  {
    var k := j + d;
    if TldAt(s, k).Some? {
      var t := RunLength(s, k + 1, Tld);
      TryTldShape(s, k + 1, t);
      assert AllIn(s, k + 1, TldAt(s, k).value, Tld);
    } else {
      TryDomainShape(s, j, d - 1);
    }
  }

  /** Soundness: whatever `EmailAt` reports is an e-mail-shaped stretch of `s`. */
  lemma EmailAtSound(s: string, i: nat)
    requires i <= |s| && EmailAt(s, i).Some?
    ensures exists at, dot :: EmailParts(s, i, at, dot, EmailAt(s, i).value)
  {
    var l := RunLength(s, i, Local);
    var j := i + l + 1;
    TryDomainShape(s, j, RunLength(s, j, Domain));
    var dot :| j < dot && dot + 3 <= EmailAt(s, i).value && s[dot] == '.' &&
      AllIn(s, j, dot, Domain) && AllIn(s, dot + 1, EmailAt(s, i).value, Tld) &&
      Boundary(s, EmailAt(s, i).value);
    assert EmailParts(s, i, i + l, dot, EmailAt(s, i).value);
  }

  lemma {:induction false} TryTldFinds(s: string, m: nat, t: nat, t': nat)
    requires m + t <= |s| && 2 <= t' <= t && Boundary(s, m + t')
    ensures TryTld(s, m, t).Some?
    decreases t
  {
    if t != t' && !Boundary(s, m + t) { TryTldFinds(s, m, t - 1, t'); }
  }

  lemma {:induction false} TryDomainFinds(s: string, j: nat, d: nat, d': nat)
    requires j + d <= |s| && 1 <= d' <= d && TldAt(s, j + d').Some?
    ensures TryDomain(s, j, d).Some?
    decreases d
  {
    if d != d' && TldAt(s, j + d).None? { TryDomainFinds(s, j, d - 1, d'); }
  }

  lemma {:induction false} RunLengthAtLeast(s: string, i: nat, b: nat, cls: CharClass)
    requires i <= b <= |s| && AllIn(s, i, b, cls)
    ensures i + RunLength(s, i, cls) >= b
    decreases b - i
  {
    if i < b { RunLengthAtLeast(s, i + 1, b, cls); }
  }

  lemma RunLengthExact(s: string, i: nat, b: nat, cls: CharClass)
    requires i <= b < |s| && AllIn(s, i, b, cls) && !InClass(cls, s[b])
    ensures i + RunLength(s, i, cls) == b
  {
    RunLengthAtLeast(s, i, b, cls);
    var n := RunLength(s, i, cls);
    assert AllIn(s, i, i + n, cls);
  }

  /** A dot followed by two or more top-level-domain characters up to a boundary is found. */
  lemma TldFound(s: string, dot: nat, e: nat)
    requires dot + 3 <= e <= |s| && s[dot] == '.' && AllIn(s, dot + 1, e, Tld) && Boundary(s, e)
    ensures TldAt(s, dot).Some?
  {
    var t := RunLength(s, dot + 1, Tld);
    RunLengthAtLeast(s, dot + 1, e, Tld);
    TryTldFinds(s, dot + 1, t, e - dot - 1);
  }

  /** A domain run reaching a dot at which a top-level domain is found is found. */
  lemma DomainFound(s: string, j: nat, dot: nat)
    requires j < dot < |s| && s[dot] == '.' && AllIn(s, j, dot, Domain) && TldAt(s, dot).Some?
    ensures TryDomain(s, j, RunLength(s, j, Domain)).Some?
  {
    assert AllIn(s, j, dot + 1, Domain);
    RunLengthAtLeast(s, j, dot + 1, Domain);
    TryDomainFinds(s, j, RunLength(s, j, Domain), dot - j);
  }

  /** Once the local part ends at an `@`, the match is the domain search after it. */
  lemma EmailAtAfterLocal(s: string, i: nat, at: nat)
    requires i < at < |s| && i + RunLength(s, i, Local) == at && s[at] == '@' && Boundary(s, i)
    requires TryDomain(s, at + 1, RunLength(s, at + 1, Domain)).Some?
    ensures EmailAt(s, i).Some?
  {
    assert EmailAt(s, i) == TryDomain(s, at + 1, RunLength(s, at + 1, Domain));
  }

  /** Completeness: wherever an e-mail-shaped stretch starts, `EmailAt` finds a match, because
      the backtracking tries every domain length and every top-level-domain length. */
  lemma EmailAtComplete(s: string, i: nat, at: nat, dot: nat, e: nat)
    requires EmailParts(s, i, at, dot, e)
    ensures EmailAt(s, i).Some?
  {
    assert !InClass(Local, s[at]);
    RunLengthExact(s, i, at, Local);
    TldFound(s, dot, e);
    DomainFound(s, at + 1, dot);
    EmailAtAfterLocal(s, i, at);
  }

  /** The two searching patterns of the redaction passes. */
  datatype Pattern = Word(needle: string) | Email

  /** A pattern whose every match is non-empty. */
  predicate NonEmptyMatches(p: Pattern) {
    p.Email? || p.needle != []
  }

  /** Where the match of `p` anchored at `i` ends, if there is one. */
  function MatchAt(p: Pattern, s: string, i: nat): (r: Option<nat>)
    requires i <= |s|
    ensures r.Some? ==> i <= r.value <= |s|
    ensures r.Some? && NonEmptyMatches(p) ==> i < r.value
  {
    match p
    case Word(needle) =>
      if OccursAt(s, needle, i) && Boundary(s, i) && Boundary(s, i + |needle|)
      then Some(i + |needle|) else None
    case Email => EmailAt(s, i)
  }

  /** A half-open range `[start, end)` of a text. */
  datatype Span = Span(start: nat, end: nat)

  /** Spans in increasing, non-overlapping order, all at or after `from` and inside `s`. */
  predicate Chain(s: string, spans: seq<Span>, from: nat)
    decreases |spans|
  {
    spans == [] ||
    (from <= spans[0].start <= spans[0].end <= |s| && Chain(s, spans[1..], spans[0].end))
  }

  /** `re.finditer(p, s)` from position `i`: each match, then the search resumes where it ended
      (one character further after an empty match). */
  function FindAllFrom(p: Pattern, s: string, i: nat): (r: seq<Span>)
    requires i <= |s|
    ensures Chain(s, r, i)
    ensures forall k :: 0 <= k < |r| ==> i <= r[k].start <= r[k].end <= |s|
    ensures forall k :: 0 <= k < |r| ==> MatchAt(p, s, r[k].start) == Some(r[k].end)
    decreases |s| - i
  {
    if i == |s| then
      (match MatchAt(p, s, i) case Some(_) => [Span(i, i)] case None => [])
    else match MatchAt(p, s, i)
      case Some(e) =>
        if e == i then [Span(i, i)] + FindAllFrom(p, s, i + 1)
        else [Span(i, e)] + FindAllFrom(p, s, e)
      case None => FindAllFrom(p, s, i + 1)
  }

  /** `re.sub(p, rep, s)` from position `i`, for a replacement with no backslash. */
  function SubAllFrom(p: Pattern, s: string, rep: string, i: nat): string
    requires i <= |s|
    decreases |s| - i
  {
    if i == |s| then
      (if MatchAt(p, s, i).Some? then rep else [])
    else match MatchAt(p, s, i)
      case Some(e) =>
        if e == i then rep + [s[i]] + SubAllFrom(p, s, rep, i + 1)
        else rep + SubAllFrom(p, s, rep, e)
      case None => [s[i]] + SubAllFrom(p, s, rep, i + 1)
  }

  function FindAll(p: Pattern, s: string): seq<Span> {
    FindAllFrom(p, s, 0)
  }

  function SubAll(p: Pattern, s: string, rep: string): string {
    SubAllFrom(p, s, rep, 0)
  }

  /** The text between the spans kept in order, `rep` in place of each span: the result of one
      atomic rewrite of all the spans. */
  function Substitute(s: string, spans: seq<Span>, rep: string, from: nat): string
    requires from <= |s| && Chain(s, spans, from)
    decreases |spans|
  {
    if spans == [] then s[from..]
    else s[from..spans[0].start] + rep + Substitute(s, spans[1..], rep, spans[0].end)
  }

  lemma SubstituteStep(s: string, spans: seq<Span>, rep: string, i: nat)
    requires i < |s| && Chain(s, spans, i + 1)
    ensures Chain(s, spans, i)
    ensures Substitute(s, spans, rep, i) == [s[i]] + Substitute(s, spans, rep, i + 1)
  {
    if spans == [] {
      assert s[i..] == [s[i]] + s[i + 1..];
    } else {
      var first := spans[0];
      assert Chain(s, spans[1..], first.end);
      var tail := Substitute(s, spans[1..], rep, first.end);
      assert Substitute(s, spans, rep, i + 1) == s[i + 1..first.start] + rep + tail;
      assert Substitute(s, spans, rep, i) == s[i..first.start] + rep + tail;
      assert s[i..first.start] == [s[i]] + s[i + 1..first.start];
    }
  }

  /** One scanning step of `re.sub` and of `re.finditer` from position `i`. */
  lemma ScanStep(p: Pattern, s: string, rep: string, i: nat)
    requires i < |s|
    ensures MatchAt(p, s, i).None? ==>
      SubAllFrom(p, s, rep, i) == [s[i]] + SubAllFrom(p, s, rep, i + 1) &&
      FindAllFrom(p, s, i) == FindAllFrom(p, s, i + 1)
    ensures MatchAt(p, s, i) == Some(i) ==>
      SubAllFrom(p, s, rep, i) == rep + [s[i]] + SubAllFrom(p, s, rep, i + 1) &&
      FindAllFrom(p, s, i) == [Span(i, i)] + FindAllFrom(p, s, i + 1)
    ensures MatchAt(p, s, i).Some? && MatchAt(p, s, i).value != i ==>
      SubAllFrom(p, s, rep, i) == rep + SubAllFrom(p, s, rep, MatchAt(p, s, i).value) &&
      FindAllFrom(p, s, i) == [Span(i, MatchAt(p, s, i).value)] + FindAllFrom(p, s, MatchAt(p, s, i).value)
  {
  }

  /** `re.sub` from `i` is the atomic rewrite of the matches `re.finditer` reports from `i`. */
  predicate SubAgrees(p: Pattern, s: string, rep: string, i: nat)
    requires i <= |s|
  {
    SubAllFrom(p, s, rep, i) == Substitute(s, FindAllFrom(p, s, i), rep, i)
  }

  lemma SubCaseNone(p: Pattern, s: string, rep: string, i: nat)
    requires i < |s| && MatchAt(p, s, i).None?
    requires SubAgrees(p, s, rep, i + 1)
    ensures SubAgrees(p, s, rep, i)
  {
    ScanStep(p, s, rep, i);
    SubstituteStep(s, FindAllFrom(p, s, i + 1), rep, i);
  }

  lemma SubCaseEmpty(p: Pattern, s: string, rep: string, i: nat)
    requires i < |s| && MatchAt(p, s, i) == Some(i)
    requires SubAgrees(p, s, rep, i + 1)
    ensures SubAgrees(p, s, rep, i)
  {
    ScanStep(p, s, rep, i);
    var tail := FindAllFrom(p, s, i + 1);
    SubstituteStep(s, tail, rep, i);
    assert Substitute(s, [Span(i, i)] + tail, rep, i) == s[i..i] + rep + Substitute(s, tail, rep, i);
  }

  lemma ScanMatch(p: Pattern, s: string, rep: string, i: nat, e: nat)
    requires i < e <= |s| && MatchAt(p, s, i) == Some(e)
    ensures SubAllFrom(p, s, rep, i) == rep + SubAllFrom(p, s, rep, e)
    ensures FindAllFrom(p, s, i) == [Span(i, e)] + FindAllFrom(p, s, e)
  {
  }

  lemma SubCaseMatch(p: Pattern, s: string, rep: string, i: nat, e: nat)
    requires i < e <= |s| && MatchAt(p, s, i) == Some(e)
    requires SubAgrees(p, s, rep, e)
    ensures SubAgrees(p, s, rep, i)
  {
    ScanMatch(p, s, rep, i, e);
    var tail := FindAllFrom(p, s, e);
    var spans := [Span(i, e)] + tail;
    assert Chain(s, spans, i);
    SubstituteHead(s, spans, rep, i);
  }

  lemma SubstituteHead(s: string, spans: seq<Span>, rep: string, from: nat)
    requires from <= |s| && Chain(s, spans, from) && spans != [] && spans[0].start == from
    ensures Substitute(s, spans, rep, from) == rep + Substitute(s, spans[1..], rep, spans[0].end)
  {
    assert s[from..from] == [];
  }

  /** `re.sub` performs exactly the atomic rewrite of the matches `re.finditer` reports. */
  lemma SubAllIsSubstitute(p: Pattern, s: string, rep: string, i: nat)
    requires i <= |s|
    ensures SubAllFrom(p, s, rep, i) == Substitute(s, FindAllFrom(p, s, i), rep, i)
  {
    SubAgreesFrom(p, s, rep, i);
  }

  /** The induction behind it, one scanning step at a time from the end of the text. */
  lemma {:induction false} SubAgreesFrom(p: Pattern, s: string, rep: string, i: nat)
    requires i <= |s|
    ensures SubAgrees(p, s, rep, i)
    decreases |s| - i
  {
    if i < |s| {
      var m := MatchAt(p, s, i);
      if m.None? {
        SubAgreesFrom(p, s, rep, i + 1);
        SubCaseNone(p, s, rep, i);
      } else if m.value == i {
        SubAgreesFrom(p, s, rep, i + 1);
        SubCaseEmpty(p, s, rep, i);
      } else {
        SubAgreesFrom(p, s, rep, m.value);
        SubCaseMatch(p, s, rep, i, m.value);
      }
    }
  }

  /** Position `j` lies inside one of the spans. */
  predicate Covers(spans: seq<Span>, j: nat) {
    exists k :: 0 <= k < |spans| && spans[k].start <= j < spans[k].end
  }

  /** Leftmost, non-overlapping: every position where a non-empty pattern matches lies inside
      one of the reported matches, so no match is skipped except one overlapping a reported one. */
  lemma {:induction false} FindAllCovers(p: Pattern, s: string, i: nat, j: nat)
    requires NonEmptyMatches(p)
    requires i <= j <= |s| && MatchAt(p, s, j).Some?
    ensures Covers(FindAllFrom(p, s, i), j)
    decreases |s| - i
  {
    if i == |s| {
      assert false;
    }
    var m := MatchAt(p, s, i);
    if m.None? {
      ScanStep(p, s, [], i);
      FindAllCovers(p, s, i + 1, j);
    } else {
      var e := m.value;
      ScanMatch(p, s, [], i, e);
      if j < e {
        CoversHead(Span(i, e), FindAllFrom(p, s, e), j);
      } else {
        FindAllCovers(p, s, e, j);
        CoversTail(Span(i, e), FindAllFrom(p, s, e), j);
      }
    }
  }

  lemma CoversHead(first: Span, rest: seq<Span>, j: nat)
    requires first.start <= j < first.end
    ensures Covers([first] + rest, j)
  {
    assert ([first] + rest)[0] == first;
  }

  lemma CoversTail(first: Span, rest: seq<Span>, j: nat)
    requires Covers(rest, j)
    ensures Covers([first] + rest, j)
  {
    var k :| 0 <= k < |rest| && rest[k].start <= j < rest[k].end;
    assert ([first] + rest)[k + 1] == rest[k];
  }


  /** Rewriting spans with the empty string never lengthens the text. */
  lemma {:induction false} SubstituteDeleteShrinks(s: string, spans: seq<Span>, from: nat)
    requires from <= |s| && Chain(s, spans, from)
    ensures |Substitute(s, spans, [], from)| <= |s| - from
    decreases |spans|
  {
    if spans != [] { SubstituteDeleteShrinks(s, spans[1..], spans[0].end); }
  }

  /** With no match in `s`, `re.sub` returns `s` unchanged. */
  lemma NoMatchNoChange(p: Pattern, s: string, rep: string)
    requires FindAll(p, s) == []
    ensures SubAll(p, s, rep) == s
  {
    SubAllIsSubstitute(p, s, rep, 0);
  }

  /** With exactly one match, `re.sub` splices `rep` in place of it. */
  lemma OneMatchSplice(p: Pattern, s: string, rep: string)
    requires |FindAll(p, s)| == 1
    ensures var m := FindAll(p, s)[0];
      m.start <= m.end <= |s| && SubAll(p, s, rep) == s[..m.start] + rep + s[m.end..]
  {
    SubAllIsSubstitute(p, s, rep, 0);
    var r := FindAll(p, s);
    assert r[1..] == [];
  }
}

/** The character-level substitutions the extractors and the address pass apply:
    `\n{2,}` and ` {2,}` collapsing, the soft line-break join
    `(?<![.!?:])\n(?=[a-z])`, and the address normalisation `[^\w\s,.]`. */
module TextCleanup {
  import opened TextUtil

  /** No two adjacent characters of `s` are both `c`. */
  predicate NoDouble(s: string, c: char) {
    forall i :: 0 <= i < |s| - 1 ==> s[i] != c || s[i + 1] != c
  }

  /** Length of the run of `c` that `s` starts with. */
  function LeadingRun(s: string, c: char): (n: nat)
    ensures n <= |s|
    ensures forall k :: 0 <= k < n ==> s[k] == c
    ensures n < |s| ==> s[n] != c
  {
    if s != [] && s[0] == c then 1 + LeadingRun(s[1..], c) else 0
  }

  /** `re.sub(c + '{2,}', rep, s)`: every run of two or more `c` becomes `rep`, a lone `c` stays. */
  function CollapseRuns(s: string, c: char, rep: string): string
    decreases |s|
  {
    if s == [] then []
    else if s[0] != c then [s[0]] + CollapseRuns(s[1..], c, rep)
    else
      var n := LeadingRun(s, c);
      if n >= 2 then rep + CollapseRuns(s[n..], c, rep) else [c] + CollapseRuns(s[1..], c, rep)
  }

  /** Collapsing runs to a single `c` keeps the first character. */
  lemma CollapseFirst(s: string, c: char)
    requires s != []
    ensures CollapseRuns(s, c, [c]) != [] && CollapseRuns(s, c, [c])[0] == s[0]
  {
  }

  /** After collapsing runs of `c` to one `c`, no two `c` are adjacent. */
  lemma {:induction false} CollapseLeavesNoDouble(s: string, c: char)
    ensures NoDouble(CollapseRuns(s, c, [c]), c)
    decreases |s|
  {
    if s != [] {
      var n := LeadingRun(s, c);
      var t := if s[0] != c || n < 2 then s[1..] else s[n..];
      CollapseLeavesNoDouble(t, c);
      var r := CollapseRuns(t, c, [c]);
      if r != [] {
        CollapseFirst(t, c);
        if s[0] == c && n == 1 { assert t[0] == s[1]; }
      }
      assert CollapseRuns(s, c, [c]) == [if s[0] != c then s[0] else c] + r;
    }
  }

  /** Collapsing runs of `c` to one `c` creates no adjacent pair of another character `a`. */
  lemma {:induction false} CollapseKeepsNoDouble(s: string, c: char, a: char)
    requires a != c && NoDouble(s, a)
    ensures NoDouble(CollapseRuns(s, c, [c]), a)
    decreases |s|
  {
    if s != [] {
      var n := LeadingRun(s, c);
      var t := if s[0] != c || n < 2 then s[1..] else s[n..];
      assert NoDouble(t, a) by {
        forall i | 0 <= i < |t| - 1 ensures t[i] != a || t[i + 1] != a {
          var off := |s| - |t|;
          assert t[i] == s[off + i] && t[i + 1] == s[off + i + 1];
        }
      }
      CollapseKeepsNoDouble(t, c, a);
      var r := CollapseRuns(t, c, [c]);
      if r != [] {
        CollapseFirst(t, c);
        assert t[0] == s[|s| - |t|];
      }
      assert CollapseRuns(s, c, [c]) == [if s[0] != c then s[0] else c] + r;
    }
  }

  /** Where no two `c` are adjacent there is nothing to collapse, whatever the replacement. */
  lemma {:induction false} CollapseIdle(s: string, c: char, rep: string)
    requires NoDouble(s, c)
    ensures CollapseRuns(s, c, rep) == s
    decreases |s|
  {
    if s != [] {
      assert NoDouble(s[1..], c);
      CollapseIdle(s[1..], c, rep);
      if s[0] == c {
        assert LeadingRun(s, c) == 1 by {
          if |s| > 1 { assert s[1] != c; }
        }
      }
    }
  }

  /** A line break that is not a paragraph end: no `.`, `!`, `?` or `:` before it and a
      lower-case ASCII letter after it. */
  predicate SoftBreakAt(s: string, i: nat)
    requires i < |s|
  {
    s[i] == '\n' && (i == 0 || s[i - 1] !in ".!?:") && i + 1 < |s| && 'a' <= s[i + 1] <= 'z'
  }

  /** `re.sub(r'(?<![.!?:])\n(?=[a-z])', ' ', s)`. The lookaround characters are never
      themselves replaced, so the rewrite is a position-wise map over the original text. */
  function JoinSoftBreaks(s: string): (r: string)
    ensures |r| == |s|
    ensures forall i :: 0 <= i < |s| ==> r[i] == if SoftBreakAt(s, i) then ' ' else s[i]
  {
    seq(|s|, i requires 0 <= i < |s| => if SoftBreakAt(s, i) then ' ' else s[i])
  }

  /** Joining soft breaks turns line breaks into spaces only, so it cannot create a double break. */
  lemma JoinKeepsNoDouble(s: string)
    requires NoDouble(s, '\n')
    ensures NoDouble(JoinSoftBreaks(s), '\n')
  {
    var r := JoinSoftBreaks(s);
    forall i | 0 <= i < |r| - 1 ensures r[i] != '\n' || r[i + 1] != '\n' {
      assert r[i] == '\n' ==> s[i] == '\n';
      assert r[i + 1] == '\n' ==> s[i + 1] == '\n';
    }
  }

  /** Characters the address pass leaves alone: `\w`, `\s`, comma and period. */
  predicate KeptForAddress(c: char) {
    IsWordChar(c) || IsSpace(c) || c == ',' || c == '.'
  }

  /** `re.sub(r'[^\w\s,.]', ' ', s)`. */
  function NormalizeForAddress(s: string): (r: string)
    ensures |r| == |s|
    ensures forall i :: 0 <= i < |s| ==> KeptForAddress(r[i])
    ensures forall i :: 0 <= i < |s| && KeptForAddress(s[i]) ==> r[i] == s[i]
    ensures forall i :: 0 <= i < |s| && !KeptForAddress(s[i]) ==> r[i] == ' '
  {
    seq(|s|, i requires 0 <= i < |s| => if KeptForAddress(s[i]) then s[i] else ' ')
  }

  /** Normalising an already normalised text changes nothing. */
  lemma NormalizeIdempotent(s: string)
    ensures NormalizeForAddress(NormalizeForAddress(s)) == NormalizeForAddress(s)
  {
  }
}

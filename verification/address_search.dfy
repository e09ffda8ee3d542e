/** `find_original_address` of the deletion variant (redactr.py): the address a parser found
    in the normalised text is split into tokens at runs of whitespace and commas, the tokens
    are joined into the pattern `tok1[^\w]*tok2[^\w]*...`, and the leftmost case-insensitive
    match of that pattern in the original text is returned. */
module AddressSearch {
  import opened Wrappers
  import opened TextUtil

  /** The separators of `re.split(r'[\s,]+', ...)`. */
  predicate IsSep(c: char) {
    IsSpace(c) || c == ','
  }

  /** Length of the run of non-separators that `s` starts with. */
  function TokenLength(s: string): (n: nat)
    ensures n <= |s|
    ensures forall k :: 0 <= k < n ==> !IsSep(s[k])
    ensures n < |s| ==> IsSep(s[n])
  {
    if s != [] && !IsSep(s[0]) then 1 + TokenLength(s[1..]) else 0
  }

  /** The non-empty parts of `re.split(r'[\s,]+', s)`. */
  function Tokens(s: string): (r: seq<string>)
    ensures forall k :: 0 <= k < |r| ==> r[k] != []
    decreases |s|
  {
    if s == [] then []
    else if IsSep(s[0]) then Tokens(s[1..])
    else
      var n := TokenLength(s);
      [s[..n]] + Tokens(s[n..])
  }

  /** `s` with its separators removed. */
  function Unseparated(s: string): string {
    if s == [] then [] else (if IsSep(s[0]) then [] else [s[0]]) + Unseparated(s[1..])
  }

  function Concat(parts: seq<string>): string {
    if parts == [] then [] else parts[0] + Concat(parts[1..])
  }

  lemma {:induction false} UnseparatedRun(s: string, n: nat)
    requires n <= |s| && forall k :: 0 <= k < n ==> !IsSep(s[k])
    ensures Unseparated(s) == s[..n] + Unseparated(s[n..])
  {
    if n > 0 {
      UnseparatedRun(s[1..], n - 1);
      assert s[1..][n - 1..] == s[n..];
      assert s[..n] == [s[0]] + s[1..][..n - 1];
    }
  }

  /** The tokens hold no separator, and in order they spell out the text with its separators
      removed: nothing but separators is dropped and nothing is reordered. */
  lemma {:induction false} TokensSpell(s: string)
    ensures forall k, c :: 0 <= k < |Tokens(s)| && c in Tokens(s)[k] ==> !IsSep(c)
    ensures Concat(Tokens(s)) == Unseparated(s)
    decreases |s|
  {
    if s != [] {
      if IsSep(s[0]) {
        TokensSpell(s[1..]);
      } else {
        var n := TokenLength(s);
        TokensSpell(s[n..]);
        UnseparatedRun(s, n);
        var r := Tokens(s);
        assert r[1..] == Tokens(s[n..]);
        forall k, c | 0 <= k < |r| && c in r[k] ensures !IsSep(c) {
          if k == 0 {
            var j :| 0 <= j < n && s[..n][j] == c;
          } else {
            assert r[k] == Tokens(s[n..])[k - 1];
          }
        }
      }
    }
  }

  /** `part` occurs at `i`, compared as `re.IGNORECASE` compares ASCII letters. */
  predicate LitAt(s: string, i: nat, part: string) {
    i + |part| <= |s| && Lower(s[i..i + |part|]) == Lower(part)
  }

  /** `s[a..b]` holds no word character: it can be consumed by `[^\w]*`. */
  predicate NonWord(s: string, a: nat, b: nat)
    requires a <= b <= |s|
  {
    forall k :: a <= k < b ==> !IsWordChar(s[k])
  }

  /** How far a greedy `[^\w]*` at `j` reaches before backtracking. */
  function NonWordRun(s: string, j: nat): (n: nat)
    requires j <= |s|
    ensures j + n <= |s| && NonWord(s, j, j + n)
    ensures j + n < |s| ==> IsWordChar(s[j + n])
    decreases |s| - j
  {
    if j < |s| && !IsWordChar(s[j]) then 1 + NonWordRun(s, j + 1) else 0
  }

  /** The pattern of `parts` anchored at `i`: the end of the match the backtracking engine
      finds first, or `None`. */
  function MatchTokens(s: string, i: nat, parts: seq<string>): (r: Option<nat>)
    requires i <= |s|
    ensures r.Some? ==> i <= r.value <= |s|
    decreases |parts|, 0, 0
  {
    if parts == [] then Some(i)
    else if !LitAt(s, i, parts[0]) then None
    else if |parts| == 1 then Some(i + |parts[0]|)
    else
      var j := i + |parts[0]|;
      TrySeparators(s, j, parts[1..], NonWordRun(s, j))
  }

  /** The separator before `rest` consumes `k` characters, then one fewer on failure. */
  function TrySeparators(s: string, j: nat, rest: seq<string>, k: nat): (r: Option<nat>)
    requires j + k <= |s| && rest != []
    ensures r.Some? ==> j <= r.value <= |s|
    decreases |rest|, 1, k
  {
    match MatchTokens(s, j + k, rest)
    case Some(e) => Some(e)
    case None => if k == 0 then None else TrySeparators(s, j, rest, k - 1)
  }

  /** `s[i..e]` is the tokens in order, each matched case-insensitively, with only non-word
      characters between consecutive tokens. */
  predicate FitsAt(s: string, i: nat, e: nat, parts: seq<string>)
    requires i <= e <= |s|
    decreases |parts|, 0
  {
    if parts == [] then e == i
    else
      && LitAt(s, i, parts[0]) && i + |parts[0]| <= e
      && if |parts| == 1 then e == i + |parts[0]| else SeparatedFit(s, i + |parts[0]|, e, parts[1..])
  }

  /** Some run of non-word characters from `j` on, then `rest` fitting up to `e`. */
  predicate SeparatedFit(s: string, j: nat, e: nat, rest: seq<string>)
    requires j <= e <= |s|
    decreases |rest|, 1
  {
    exists k :: j <= k <= e && NonWord(s, j, k) && FitsAt(s, k, e, rest)
  }

  lemma {:induction false} MatchSound(s: string, i: nat, parts: seq<string>)
    requires i <= |s| && MatchTokens(s, i, parts).Some?
    ensures FitsAt(s, i, MatchTokens(s, i, parts).value, parts)
    decreases |parts|, 0, 0
  {
    if parts != [] && |parts| > 1 {
      var j := i + |parts[0]|;
      SeparatorsSound(s, j, parts[1..], NonWordRun(s, j));
    }
  }

  lemma {:induction false} SeparatorsSound(s: string, j: nat, rest: seq<string>, k: nat)
    requires j + k <= |s| && rest != [] && NonWord(s, j, j + k)
    requires TrySeparators(s, j, rest, k).Some?
    ensures j <= TrySeparators(s, j, rest, k).value
    ensures SeparatedFit(s, j, TrySeparators(s, j, rest, k).value, rest)
    decreases |rest|, 1, k
  {
    var e := TrySeparators(s, j, rest, k).value;
    match MatchTokens(s, j + k, rest)
    case Some(_) =>
      MatchSound(s, j + k, rest);
      assert j <= j + k <= e && NonWord(s, j, j + k) && FitsAt(s, j + k, e, rest);
    case None =>
      SeparatorsSound(s, j, rest, k - 1);
  }

  lemma {:induction false} NonWordWithinRun(s: string, j: nat, b: nat)
    requires j <= b <= |s| && NonWord(s, j, b)
    ensures b <= j + NonWordRun(s, j)
    decreases |s| - j
  {
    if j < b {
      NonWordWithinRun(s, j + 1, b);
    }
  }

  lemma {:induction false} SeparatorsFind(s: string, j: nat, rest: seq<string>, k: nat, m: nat)
    requires j + k <= |s| && rest != [] && m <= k && MatchTokens(s, j + m, rest).Some?
    ensures TrySeparators(s, j, rest, k).Some?
    decreases k
  {
    if MatchTokens(s, j + k, rest).None? {
      SeparatorsFind(s, j, rest, k - 1, m);
    }
  }

  /** Whatever fits the tokens is found by the backtracking search. */
  lemma {:induction false} MatchComplete(s: string, i: nat, e: nat, parts: seq<string>)
    requires i <= e <= |s| && FitsAt(s, i, e, parts)
    ensures MatchTokens(s, i, parts).Some?
    decreases |parts|
  {
    if parts != [] && |parts| > 1 {
      var j := i + |parts[0]|;
      assert SeparatedFit(s, j, e, parts[1..]);
      var k :| j <= k <= e && NonWord(s, j, k) && FitsAt(s, k, e, parts[1..]);
      MatchComplete(s, k, e, parts[1..]);
      NonWordWithinRun(s, j, k);
      SeparatorsFind(s, j, parts[1..], NonWordRun(s, j), k - j);
    }
  }

  /** `re.search`: the leftmost start from `i` on where the pattern matches, with its end. */
  function SearchFrom(s: string, parts: seq<string>, i: nat): (r: Option<(nat, nat)>)
    requires i <= |s|
    ensures r.Some? ==> i <= r.value.0 <= r.value.1 <= |s|
    decreases |s| - i
  {
    match MatchTokens(s, i, parts)
    case Some(e) => Some((i, e))
    case None => if i == |s| then None else SearchFrom(s, parts, i + 1)
  }

  lemma {:induction false} SearchNone(s: string, parts: seq<string>, i: nat)
    requires i <= |s| && SearchFrom(s, parts, i).None?
    ensures forall j, e :: i <= j <= e <= |s| ==> !FitsAt(s, j, e, parts)
    decreases |s| - i
  {
    if i < |s| {
      SearchNone(s, parts, i + 1);
    }
    forall j, e | i <= j <= e <= |s| ensures !FitsAt(s, j, e, parts) {
      if FitsAt(s, j, e, parts) {
        MatchComplete(s, j, e, parts);
      }
    }
  }

  lemma {:induction false} SearchSome(s: string, parts: seq<string>, i: nat)
    requires i <= |s| && SearchFrom(s, parts, i).Some?
    ensures var (a, e) := SearchFrom(s, parts, i).value;
      FitsAt(s, a, e, parts) &&
      forall j, e' :: i <= j < a && j <= e' <= |s| ==> !FitsAt(s, j, e', parts)
    decreases |s| - i
  {
    var m := MatchTokens(s, i, parts);
    if m.Some? {
      MatchSound(s, i, parts);
    } else {
      SearchSome(s, parts, i + 1);
      forall e' | i <= e' <= |s| ensures !FitsAt(s, i, e', parts) {
        if FitsAt(s, i, e', parts) {
          MatchComplete(s, i, e', parts);
        }
      }
    }
  }

  /** `find_original_address(original_text, normalized_address)`. */
  function FindOriginalAddress(text: string, address: string): Option<string> {
    match SearchFrom(text, Tokens(address), 0)
    case None => None
    case Some((a, e)) => Some(text[a..e])
  }

  /** `None` only when no part of the text fits the address's tokens ... */
  lemma FindOriginalNone(text: string, address: string)
    requires FindOriginalAddress(text, address).None?
    ensures forall j, e :: 0 <= j <= e <= |text| ==> !FitsAt(text, j, e, Tokens(address))
  {
    SearchNone(text, Tokens(address), 0);
  }

  /** ... and whenever some part of the text fits them, the search finds one. */
  lemma FindOriginalFinds(text: string, address: string, j: nat, e: nat)
    requires j <= e <= |text| && FitsAt(text, j, e, Tokens(address))
    ensures FindOriginalAddress(text, address).Some?
  {
    if SearchFrom(text, Tokens(address), 0).None? {
      SearchNone(text, Tokens(address), 0);
    }
  }

  /** Otherwise the result is the leftmost part of the text that fits the tokens. */
  lemma FindOriginalSome(text: string, address: string)
    requires FindOriginalAddress(text, address).Some?
    ensures exists a, e :: (0 <= a <= e <= |text| && FindOriginalAddress(text, address).value == text[a..e] &&
      FitsAt(text, a, e, Tokens(address)) &&
      forall j, e' :: 0 <= j < a && j <= e' <= |text| ==> !FitsAt(text, j, e', Tokens(address)))
  {
    var parts := Tokens(address);
    var r := SearchFrom(text, parts, 0);
    SearchSome(text, parts, 0);
    var a, e := r.value.0, r.value.1;
    assert FindOriginalAddress(text, address).value == text[a..e];
  }

  /** An address with no tokens gives the empty pattern, which matches the empty string at
      the start of the text. */
  lemma NoTokensEmptyMatch(text: string, address: string)
    requires Tokens(address) == []
    ensures FindOriginalAddress(text, address) == Some([])
  {
  }
}

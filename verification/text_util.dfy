/** String helpers shared by the redaction pipeline and the interview helpers.
    Python's `\w`, `\s`, `str.lower()` and `str.strip()` are modelled on ASCII. */
module TextUtil {

  /** `\w` of Python's `re`, restricted to ASCII. */
  predicate IsWordChar(c: char) {
    ('a' <= c <= 'z') || ('A' <= c <= 'Z') || ('0' <= c <= '9') || c == '_'
  }

  /** `\s` of Python's `re` and the characters `str.strip()` removes, restricted to ASCII:
      space, tab, the line and page breaks, and the four separators 0x1C to 0x1F. */
  predicate IsSpace(c: char) {
    c == ' ' || c == '\t' || c == '\n' || c == '\r' || c == '\U{0B}' || c == '\U{0C}' ||
    ('\U{1C}' <= c <= '\U{1F}')
  }

  function LowerChar(c: char): (r: char)
    ensures 'A' <= c <= 'Z' ==> 'a' <= r <= 'z' && r as int == c as int + 32
    ensures !('A' <= c <= 'Z') ==> r == c
  {
    if 'A' <= c <= 'Z' then (c as int + 32) as char else c
  }

  /** `str.lower()` on ASCII letters. */
  function Lower(s: string): (r: string)
    ensures |r| == |s|
    ensures forall i :: 0 <= i < |s| ==> r[i] == LowerChar(s[i])
  {
    seq(|s|, i requires 0 <= i < |s| => LowerChar(s[i]))
  }

  predicate StartsWith(s: string, prefix: string) {
    |prefix| <= |s| && s[..|prefix|] == prefix
  }

  /** `sub` occurs in `s` starting at index `i`. */
  predicate OccursAt(s: string, sub: string, i: nat) {
    i + |sub| <= |s| && s[i..i + |sub|] == sub
  }

  /** Python's `sub in s`. */
  predicate Contains(s: string, sub: string) {
    exists i: nat | i <= |s| :: OccursAt(s, sub, i)
  }

  /** Python's `any(p in s for p in phrases)`. */
  predicate ContainsAny(s: string, phrases: seq<string>) {
    exists k | 0 <= k < |phrases| :: Contains(s, phrases[k])
  }

  /** Python's `s[:n]`: a prefix, clamped at the end of the string. */
  function PyTake(s: string, n: nat): (r: string)
    ensures |r| == if n <= |s| then n else |s|
    ensures StartsWith(s, r)
  {
    if n <= |s| then s[..n] else s
  }

  /** Python's `s[n:]`: a suffix, empty when `n` is past the end. */
  function PyDrop(s: string, n: nat): (r: string)
    ensures |r| == if n <= |s| then |s| - n else 0
    ensures r == s[|s| - |r|..]
  {
    if n <= |s| then s[n..] else []
  }

  function StripStart(s: string): (r: string)
    ensures |r| <= |s| && r == s[|s| - |r|..]
    ensures r == [] || !IsSpace(r[0])
    ensures forall i :: 0 <= i < |s| - |r| ==> IsSpace(s[i])
  {
    if |s| > 0 && IsSpace(s[0]) then StripStart(s[1..]) else s
  }

  function StripEnd(s: string): (r: string)
    ensures |r| <= |s| && r == s[..|r|]
    ensures r == [] || !IsSpace(r[|r| - 1])
    ensures forall i :: |r| <= i < |s| ==> IsSpace(s[i])
  {
    if |s| > 0 && IsSpace(s[|s| - 1]) then StripEnd(s[..|s| - 1]) else s
  }

  /** `str.strip()`: whitespace removed from both ends. */
  function Strip(s: string): (r: string)
    ensures |r| <= |s|
    ensures r == [] || (!IsSpace(r[0]) && !IsSpace(r[|r| - 1]))
  {
    StripEnd(StripStart(s))
  }

  /** What `str.strip()` keeps is a slice of the string, and everything it cuts off on either
      side is whitespace. */
  lemma StripIsSlice(s: string)
    ensures exists a, b :: (0 <= a <= b <= |s| && Strip(s) == s[a..b] &&
      (forall i :: 0 <= i < a ==> IsSpace(s[i])) && (forall i :: b <= i < |s| ==> IsSpace(s[i])))
  {
    var t := StripStart(s);
    var r := StripEnd(t);
    assert r == s[|s| - |t|..|s| - |t| + |r|];
  }

  /** A word between two whitespace characters is what `str.strip()` keeps. */
  lemma StripSurrounded(w: string, c: char, d: char)
    requires IsSpace(c) && IsSpace(d)
    requires w != [] && !IsSpace(w[0]) && !IsSpace(w[|w| - 1])
    ensures Strip([c] + w + [d]) == w
  {
    var s := [c] + w + [d];
    assert s[1..] == w + [d];
    assert StripStart(s) == w + [d];
    assert (w + [d])[..|w|] == w;
  }

  /** The separators 0x1C to 0x1F count as whitespace: `"\x1cJane\x1f".strip()` is `"Jane"`. */
  lemma SeparatorsStripped()
    ensures Strip(['\U{1C}'] + "Jane" + ['\U{1F}']) == "Jane"
  {
    StripSurrounded("Jane", '\U{1C}', '\U{1F}');
  }

  /** `str.strip(chars)` for a set of characters. */
  function StripChars(s: string, chars: set<char>): (r: string)
    ensures |r| <= |s|
    ensures r == [] || (r[0] !in chars && r[|r| - 1] !in chars)
    decreases |s|
  {
    if |s| > 0 && s[0] in chars then StripChars(s[1..], chars)
    else if |s| > 0 && s[|s| - 1] in chars then StripChars(s[..|s| - 1], chars)
    else s
  }

  /** `r` is what is left of `s` once some characters of `chars` are cut from either end. */
  predicate TrimmedOf(s: string, r: string, chars: set<char>) {
    exists a, b :: 0 <= a <= b <= |s| && r == s[a..b] &&
      (forall i :: 0 <= i < a ==> s[i] in chars) && (forall i :: b <= i < |s| ==> s[i] in chars)
  }

  /** Cutting one more character of `chars` off the front keeps a trimming. */
  lemma TrimmedFront(s: string, r: string, chars: set<char>)
    requires |s| > 0 && s[0] in chars && TrimmedOf(s[1..], r, chars)
    ensures TrimmedOf(s, r, chars)
  {
    var t := s[1..];
    var a, b :| 0 <= a <= b <= |t| && r == t[a..b] &&
      (forall i :: 0 <= i < a ==> t[i] in chars) && (forall i :: b <= i < |t| ==> t[i] in chars);
    assert r == s[a + 1..b + 1];
    assert forall i :: 0 <= i < a + 1 ==> s[i] in chars by {
      forall i | 0 < i < a + 1 ensures s[i] in chars {
        assert s[i] == t[i - 1];
      }
    }
    assert forall i :: b + 1 <= i < |s| ==> s[i] in chars by {
      forall i | b + 1 <= i < |s| ensures s[i] in chars {
        assert s[i] == t[i - 1];
      }
    }
  }

  /** Cutting one more character of `chars` off the back keeps a trimming. */
  lemma TrimmedBack(s: string, r: string, chars: set<char>)
    requires |s| > 0 && s[|s| - 1] in chars && TrimmedOf(s[..|s| - 1], r, chars)
    ensures TrimmedOf(s, r, chars)
  {
    var t := s[..|s| - 1];
    var a, b :| 0 <= a <= b <= |t| && r == t[a..b] &&
      (forall i :: 0 <= i < a ==> t[i] in chars) && (forall i :: b <= i < |t| ==> t[i] in chars);
    assert r == s[a..b] by {
      assert |r| == b - a;
      forall k | 0 <= k < b - a ensures r[k] == s[a + k] {
        assert r[k] == t[a + k];
      }
    }
    assert forall i :: 0 <= i < a ==> s[i] in chars by {
      forall i | 0 <= i < a ensures s[i] in chars {
        assert s[i] == t[i];
      }
    }
    assert forall i :: b <= i < |s| ==> s[i] in chars by {
      forall i | b <= i < |s| - 1 ensures s[i] in chars {
        assert s[i] == t[i];
      }
    }
  }

  /** What `str.strip(chars)` keeps is a slice of the string, and everything it cuts off on
      either side is in `chars`; with the ends of the result outside `chars`, this fixes it. */
  lemma {:induction false} StripCharsIsSlice(s: string, chars: set<char>)
    ensures TrimmedOf(s, StripChars(s, chars), chars)
    decreases |s|
  {
    if |s| > 0 && s[0] in chars {
      StripCharsIsSlice(s[1..], chars);
      TrimmedFront(s, StripChars(s, chars), chars);
    } else if |s| > 0 && s[|s| - 1] in chars {
      StripCharsIsSlice(s[..|s| - 1], chars);
      TrimmedBack(s, StripChars(s, chars), chars);
    } else {
      assert StripChars(s, chars) == s[0..|s|];
    }
  }

  /** `s.replace(pat, rep)` of Python, and equally `re.sub(re.escape(pat), rep, s)` when `rep`
      holds no backslash: every leftmost non-overlapping occurrence of `pat` becomes `rep`;
      an empty `pat` puts `rep` before every character and at the end. */
  function ReplaceLiteral(s: string, pat: string, rep: string): string
    decreases |s|
  {
    if pat == [] then
      if s == [] then rep else rep + [s[0]] + ReplaceLiteral(s[1..], pat, rep)
    else if s == [] then []
    else if StartsWith(s, pat) then rep + ReplaceLiteral(s[|pat|..], pat, rep)
    else [s[0]] + ReplaceLiteral(s[1..], pat, rep)
  }

  /** Deleting occurrences never makes a string longer. */
  lemma {:induction false} DeleteLiteralShrinks(s: string, pat: string)
    ensures |ReplaceLiteral(s, pat, [])| <= |s|
    decreases |s|
  {
    if pat == [] {
      if s != [] { DeleteLiteralShrinks(s[1..], pat); }
    } else if s == [] {
    } else if StartsWith(s, pat) {
      DeleteLiteralShrinks(s[|pat|..], pat);
    } else {
      DeleteLiteralShrinks(s[1..], pat);
    }
  }

  /** When `pat` does not occur in `s` at all, the replacement leaves `s` as it is. */
  lemma {:induction false} ReplaceAbsent(s: string, pat: string, rep: string)
    requires pat != []
    requires !Contains(s, pat)
    ensures ReplaceLiteral(s, pat, rep) == s
    decreases |s|
  {
    if s != [] {
      assert !StartsWith(s, pat) by {
        if StartsWith(s, pat) { assert OccursAt(s, pat, 0); }
      }
      assert !Contains(s[1..], pat) by {
        if Contains(s[1..], pat) {
          var i: nat :| i <= |s[1..]| && OccursAt(s[1..], pat, i);
          assert s[1..][i..i + |pat|] == s[i + 1..i + 1 + |pat|];
          assert OccursAt(s, pat, i + 1);
        }
      }
      ReplaceAbsent(s[1..], pat, rep);
    }
  }

  /** Deleting a one-character pattern removes exactly that character and keeps the rest in order. */
  function Without(s: string, c: char): (r: string)
    ensures c !in r
    ensures |r| <= |s|
  {
    if s == [] then [] else (if s[0] == c then [] else [s[0]]) + Without(s[1..], c)
  }

  lemma {:induction false} DeleteCharIsWithout(s: string, c: char)
    ensures ReplaceLiteral(s, [c], []) == Without(s, c)
    decreases |s|
  {
    if s != [] {
      DeleteCharIsWithout(s[1..], c);
      if s[0] == c {
        assert StartsWith(s, [c]);
        assert s[|[c]|..] == s[1..];
      } else {
        assert !StartsWith(s, [c]);
      }
    }
  }

  /** Index of the first `c` in `s`, if any. */
  function IndexOf(s: string, c: char): (r: int)
    ensures -1 <= r < |s|
    ensures r == -1 <==> c !in s
    ensures r >= 0 ==> s[r] == c && c !in s[..r]
  {
    if s == [] then -1
    else if s[0] == c then 0
    else var k := IndexOf(s[1..], c); if k == -1 then -1 else (assert s[..k + 1] == [s[0]] + s[1..][..k]; k + 1)
  }

  /** Index of the last `c` in `s`, if any. */
  function LastIndexOf(s: string, c: char): (r: int)
    ensures -1 <= r < |s|
    ensures r == -1 <==> c !in s
    ensures r >= 0 ==> s[r] == c && c !in s[r + 1..]
  {
    if s == [] then -1
    else if s[|s| - 1] == c then |s| - 1
    else (assert s[..|s| - 1] + [s[|s| - 1]] == s; LastIndexOf(s[..|s| - 1], c))
  }

  /** `s.split(sep)` for a one-character separator. */
  function Split(s: string, sep: char): (r: seq<string>)
    ensures |r| >= 1
    ensures forall i :: 0 <= i < |r| ==> sep !in r[i]
    decreases |s|
  {
    var k := IndexOf(s, sep);
    if k == -1 then [s] else [s[..k]] + Split(s[k + 1..], sep)
  }

  /** `sep.join(parts)`. */
  function Join(parts: seq<string>, sep: string): string
  {
    if parts == [] then []
    else if |parts| == 1 then parts[0]
    else parts[0] + sep + Join(parts[1..], sep)
  }

  /** Splitting on a character and joining back with it gives the original string. */
  lemma {:induction false} JoinSplit(s: string, sep: char)
    ensures Join(Split(s, sep), [sep]) == s
    decreases |s|
  {
    var k := IndexOf(s, sep);
    if k != -1 {
      var rest := Split(s[k + 1..], sep);
      SplitAt(s, sep);
      JoinCons(s[..k], rest, [sep]);
      JoinSplit(s[k + 1..], sep);
      assert s == s[..k] + [sep] + s[k + 1..];
    }
  }

  lemma SplitAt(s: string, sep: char)
    requires sep in s
    ensures Split(s, sep) == [s[..IndexOf(s, sep)]] + Split(s[IndexOf(s, sep) + 1..], sep)
  {
  }

  lemma JoinCons(head: string, rest: seq<string>, sep: string)
    requires rest != []
    ensures Join([head] + rest, sep) == head + sep + Join(rest, sep)
  {
    assert ([head] + rest)[1..] == rest;
  }

  /** The decimal digits of `n`, as `str(n)` prints them. */
  function NatToString(n: nat): (r: string)
    ensures |r| >= 1
    ensures forall i :: 0 <= i < |r| ==> '0' <= r[i] <= '9'
    ensures n >= 10 ==> r[0] != '0'
  {
    if n < 10 then [Digit(n)] else NatToString(n / 10) + [Digit(n % 10)]
  }

  function Digit(d: nat): (c: char)
    requires d < 10
    ensures '0' <= c <= '9' && c as int - '0' as int == d
  {
    ('0' as int + d) as char
  }

  /** `int(s)` for a string of decimal digits. */
  function ParseNat(s: string): nat
    requires forall i :: 0 <= i < |s| ==> '0' <= s[i] <= '9'
  {
    if s == [] then 0 else 10 * ParseNat(s[..|s| - 1]) + (s[|s| - 1] as int - '0' as int)
  }

  /** Printing a number and reading it back gives the number. */
  lemma {:induction false} ParsePrinted(n: nat)
    ensures ParseNat(NatToString(n)) == n
  {
    if n >= 10 {
      var s := NatToString(n);
      assert s[..|s| - 1] == NatToString(n / 10);
      ParsePrinted(n / 10);
    }
  }

  /** Different numbers print differently. */
  lemma PrintedInjective(m: nat, n: nat)
    requires NatToString(m) == NatToString(n)
    ensures m == n
  {
    ParsePrinted(m);
    ParsePrinted(n);
  }
}

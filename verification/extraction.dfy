/** Turning the per-page text of a PDF into one string, in the two variants of the program:
    the placeholder variant (FlaskIntegration.py) joins pages with a space and normalises
    line breaks and spaces; the deletion variant (redactr.py) drops every line break of a
    page, strips it and concatenates the pages with no separator.

    The PDF reader is abstract: `None` stands for a reader that raised, otherwise one string
    per page, the empty string for a page without a text layer. */
module Extraction {
  import opened Wrappers
  import opened TextUtil
  import opened TextCleanup

  /** The pages with text, each followed by one space, as the accumulation loop builds them. */
  function PagesWithSpaces(pages: seq<string>): string
  {
    if pages == [] then []
    else
      var last := pages[|pages| - 1];
      PagesWithSpaces(pages[..|pages| - 1]) + (if last != [] then last + " " else [])
  }

  /** The clean-up chain applied to the joined pages, step by step. */
  function CollapsedBreaks(raw: string): string { CollapseRuns(raw, '\n', "\n") }
  function JoinedLines(raw: string): string { JoinSoftBreaks(CollapsedBreaks(raw)) }
  function CollapsedSpaces(raw: string): string { CollapseRuns(JoinedLines(raw), ' ', " ") }
  function Paragraphs(raw: string): string { CollapseRuns(CollapsedSpaces(raw), '\n', "\n\n") }

  function CleanText(raw: string): string { Strip(Paragraphs(raw)) }

  /** The text the placeholder variant hands to the redaction passes. */
  function NormalizedText(pdf: Option<seq<string>>): string
  {
    match pdf
    case None => []
    case Some(pages) => CleanText(PagesWithSpaces(pages))
  }

  lemma NoDoubleSlice(s: string, c: char, a: nat, b: nat)
    requires a <= b <= |s| && NoDouble(s, c)
    ensures NoDouble(s[a..b], c)
  {
    var t := s[a..b];
    forall i | 0 <= i < |t| - 1 ensures t[i] != c || t[i + 1] != c {
      assert t[i] == s[a + i] && t[i + 1] == s[a + i + 1];
    }
  }

  lemma StripKeepsNoDouble(p: string, c: char)
    requires NoDouble(p, c)
    ensures NoDouble(Strip(p), c)
  {
    var t := StripStart(p);
    NoDoubleSlice(p, c, |p| - |t|, |p|);
    NoDoubleSlice(t, c, 0, |StripEnd(t)|);
  }

  /** The normalised text has no two adjacent line breaks, no two adjacent spaces and no
      whitespace at either end, and the `\n{2,}` to blank-line step finds nothing to do. */
  lemma CleanTextShape(raw: string)
    ensures Paragraphs(raw) == CollapsedSpaces(raw)
    ensures NoDouble(CleanText(raw), '\n')
    ensures NoDouble(CleanText(raw), ' ')
    ensures var r := CleanText(raw); r == [] || (!IsSpace(r[0]) && !IsSpace(r[|r| - 1]))
  {
    CollapseLeavesNoDouble(raw, '\n');
    JoinKeepsNoDouble(CollapsedBreaks(raw));
    CollapseKeepsNoDouble(JoinedLines(raw), ' ', '\n');
    CollapseLeavesNoDouble(JoinedLines(raw), ' ');
    CollapseIdle(CollapsedSpaces(raw), '\n', "\n\n");
    StripKeepsNoDouble(Paragraphs(raw), '\n');
    StripKeepsNoDouble(Paragraphs(raw), ' ');
  }

  /** `extract_text_from_pdf` of the placeholder variant. */
  method ExtractNormalizedText(pdf: Option<seq<string>>) returns (text: string)
    ensures text == NormalizedText(pdf)
  {
    if pdf.None? {
      return [];
    }
    var pages := pdf.value;
    var raw: string := [];
    var i := 0;
    while i < |pages|
      invariant 0 <= i <= |pages|
      invariant raw == PagesWithSpaces(pages[..i])
    {
      assert pages[..i + 1][..i] == pages[..i];
      if pages[i] != [] {
        raw := raw + pages[i] + " ";
      }
      i := i + 1;
    }
    assert pages[..i] == pages;
    text := CleanText(raw);
  }

  /** One page of the deletion variant: `'\n '` becomes `' '`, every other `'\n'` goes, then strip. */
  function CleanPage(page: string): string
  {
    Strip(ReplaceLiteral(ReplaceLiteral(page, "\n ", " "), "\n", []))
  }

  lemma {:induction false} BreakSpaceThenBreak(p: string)
    ensures Without(ReplaceLiteral(p, "\n ", " "), '\n') == Without(p, '\n')
    decreases |p|
  {
    if p != [] {
      if StartsWith(p, "\n ") {
        BreakSpaceThenBreak(p[2..]);
        assert p == "\n " + p[2..];
        assert Without(p, '\n') == Without(p[1..], '\n');
        assert p[1..] == " " + p[2..];
      } else {
        BreakSpaceThenBreak(p[1..]);
      }
    }
  }

  lemma {:induction false} StripStartKeepsAbsent(w: string, c: char)
    requires c !in w
    ensures c !in StripStart(w)
    decreases |w|
  {
    if |w| > 0 && IsSpace(w[0]) {
      assert c !in w[1..];
      StripStartKeepsAbsent(w[1..], c);
    }
  }

  lemma {:induction false} StripEndKeepsAbsent(w: string, c: char)
    requires c !in w
    ensures c !in StripEnd(w)
    decreases |w|
  {
    if |w| > 0 && IsSpace(w[|w| - 1]) {
      assert c !in w[..|w| - 1];
      StripEndKeepsAbsent(w[..|w| - 1], c);
    }
  }

  lemma StripKeepsAbsent(w: string, c: char)
    requires c !in w
    ensures c !in Strip(w)
  {
    StripStartKeepsAbsent(w, c);
    StripEndKeepsAbsent(StripStart(w), c);
  }

  /** The two replacements of a page amount to deleting every line break, so no line break
      survives. */
  lemma CleanPageDropsBreaks(page: string)
    ensures CleanPage(page) == Strip(Without(page, '\n'))
    ensures '\n' !in CleanPage(page)
  {
    BreakSpaceThenBreak(page);
    DeleteCharIsWithout(ReplaceLiteral(page, "\n ", " "), '\n');
    assert "\n" == ['\n'];
    StripKeepsAbsent(Without(page, '\n'), '\n');
  }

  /** The pages with text, each cleaned, concatenated with no separator. */
  function JoinedPages(pages: seq<string>): string
  {
    if pages == [] then []
    else
      var last := pages[|pages| - 1];
      JoinedPages(pages[..|pages| - 1]) + (if last != [] then CleanPage(last) else [])
  }

  /** The text the deletion variant hands to the removal passes. */
  function PlainText(pdf: Option<seq<string>>): string
  {
    match pdf
    case None => []
    case Some(pages) => JoinedPages(pages)
  }

  /** The deletion variant's text holds no line break at all. */
  lemma {:induction false} PlainTextHasNoBreak(pages: seq<string>)
    ensures '\n' !in JoinedPages(pages)
  {
    if pages != [] {
      PlainTextHasNoBreak(pages[..|pages| - 1]);
      CleanPageDropsBreaks(pages[|pages| - 1]);
    }
  }

  /** `extract_text_from_pdf` of the deletion variant. */
  method ExtractPlainText(pdf: Option<seq<string>>) returns (text: string)
    ensures text == PlainText(pdf)
    ensures '\n' !in text
  {
    if pdf.None? {
      return [];
    }
    var pages := pdf.value;
    text := [];
    var i := 0;
    while i < |pages|
      invariant 0 <= i <= |pages|
      invariant text == JoinedPages(pages[..i])
    {
      assert pages[..i + 1][..i] == pages[..i];
      if pages[i] != [] {
        var cleaned := ReplaceLiteral(pages[i], "\n ", " ");
        cleaned := ReplaceLiteral(cleaned, "\n", []);
        cleaned := Strip(cleaned);
        text := text + cleaned;
      }
      i := i + 1;
    }
    assert pages[..i] == pages;
    PlainTextHasNoBreak(pages);
  }
}

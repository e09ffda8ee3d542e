# Resume redaction and mock interviews, modelled in Dafny

The system takes a resume as a PDF, removes the personal information in it, and then runs
a mock job interview against the redacted resume. This project models the core of it and
proves properties of that model.

**The redaction pipeline comes in two variants.**
- The placeholder variant (`FlaskIntegration.py`) replaces each person name, e-mail address,
  phone number and postal address with a numbered token such as `[PERSON_1]` or `[EMAIL_2]`.
  - One dictionary maps each surface form to its token. It is shared by the four passes,
    which run in that order.
  - The upload route counts the tokens per kind. It accepts a file only when its name ends
    in `.pdf`.
- The deletion variant (`redactr.py`) runs the same passes and simply deletes what they
  find.
  - It looks for addresses in a normalised copy of the text.
  - It then relocates each address found in the original text with a fuzzy,
    case-insensitive token search.
- The two variants extract the text from the PDF differently:
  - the placeholder variant collapses line breaks and spaces and joins soft line breaks;
  - the deletion variant drops every line break of a page.

**Three interview components.**
- A session tracker (`interview_handler.py`) keeps one map from session id to the
  conversation so far, its question count and its completion flag. It:
  - opens interviews;
  - rejects requests that lack their inputs;
  - lets the candidate end early;
  - closes the interview at the sixth question.
- A staged interview (`mock_interview_integration.py`) keeps an exchange history and a
  question count. It moves through the stages introduction, technical, behavioral and
  closing.
- A resume-aware helper (`mock-interview-utils.py`) keeps the history of questions and
  answers. It summarises that history as a transcript and reads generated questions out of
  a model reply, either as JSON or from numbered lines.

**Modules.**

| Module | Contents |
|---|---|
| `TextUtil` | Python string operations: `lower`, `strip`, `split`, `join`, `replace`, clamped slicing, `str(int)` |
| `TextCleanup` | The character-level regular-expression rewrites |
| `Patterns` | The word-bounded name pattern and the e-mail pattern, written as backtracking scanners, with `re.finditer` and `re.sub` over them |
| `AddressSearch` | `find_original_address` |
| `Placeholders` | Tokens, the dictionary and the per-kind counts |
| `Detection` | The detectors, which are parameters |
| `Extraction` | The two extractors |
| `ReplaceMode` | The placeholder variant, as functions and as methods on a `ReplacementMap` class |
| `DeleteMode` | The deletion variant, as functions and as methods |
| `InterviewHandler` | The session tracker |
| `MockInterview` | The staged interview |
| `InterviewUtils` | The resume-aware helper |

Each method that loops in the source is a loop proved against a function that states the
result.

## Model

| member | source | states |
|---|---|---|
| TextUtil.Lower | interview_handler.py:127 | `str.lower()` keeps the length, lowers every ASCII capital and leaves every other character alone |
| TextUtil.Strip | redactr.py:322 | `str.strip()` leaves no whitespace (space, tab, line and page breaks, and the separators 0x1C to 0x1F) at either end and never lengthens the text |
| TextUtil.StripSurrounded | redactr.py:322 | a word between two whitespace characters, the separators 0x1C to 0x1F included, is exactly what `strip` keeps |
| TextUtil.StripIsSlice | redactr.py:322 | what `strip` keeps is one contiguous slice, and everything it cuts on either side is whitespace |
| TextUtil.StripChars | mock-interview-utils.py:181 | `strip(chars)` leaves none of the given characters at either end |
| TextUtil.StripCharsIsSlice | mock-interview-utils.py:181 | what `strip(chars)` keeps is one contiguous slice, and everything it cuts on either side is in `chars` |
| TextUtil.PyTake | FlaskIntegration.py:146 | `s[:n]` is a prefix whose length is `n` clamped to the length of `s` |
| TextUtil.PyDrop | FlaskIntegration.py:146 | `s[n:]` is a suffix whose length is the rest of `s`, or empty when `n` is past the end |
| TextUtil.DeleteLiteralShrinks | redactr.py:447-449 | deleting every occurrence of a literal never makes the text longer |
| TextUtil.ReplaceAbsent | FlaskIntegration.py:201-202 | replacing a literal that does not occur leaves the text unchanged |
| TextUtil.Without | redactr.py:321 | removing one character leaves no occurrence of it and never lengthens the text |
| TextUtil.DeleteCharIsWithout | redactr.py:321 | `replace('\n', '')` is exactly the removal of every line break, the rest kept in order |
| TextUtil.IndexOf | mock-interview-utils.py:181 | the first occurrence of a character, or -1 exactly when it is absent |
| TextUtil.LastIndexOf | FlaskIntegration.py:222 | the last occurrence of a character (the `rsplit('.', 1)` cut), or -1 exactly when it is absent |
| TextUtil.Split | mock-interview-utils.py:177 | `split` yields at least one part, and no part holds the separator |
| TextUtil.JoinSplit | mock-interview-utils.py:177 | joining the parts of a split with the separator gives back the original text |
| TextUtil.NatToString | FlaskIntegration.py:116 | `str(n)` is a non-empty run of decimal digits with no leading zero |
| TextUtil.ParsePrinted | FlaskIntegration.py:116 | reading a printed number back gives the number |
| TextUtil.PrintedInjective | FlaskIntegration.py:116 | different numbers print differently |
| TextCleanup.CollapseFirst | FlaskIntegration.py:76 | collapsing runs keeps the first character |
| TextCleanup.CollapseLeavesNoDouble | FlaskIntegration.py:76 | after `\n{2,}` becomes `\n`, no two line breaks are adjacent; the same holds for spaces |
| TextCleanup.CollapseKeepsNoDouble | FlaskIntegration.py:83 | collapsing runs of one character creates no adjacent pair of another |
| TextCleanup.CollapseIdle | FlaskIntegration.py:86 | where no two of the character are adjacent, collapsing changes nothing, whatever the replacement |
| TextCleanup.JoinSoftBreaks | FlaskIntegration.py:80 | keeps the length; a line break becomes a space exactly when it has no `.`, `!`, `?` or `:` before it and a lower-case letter after it; every other character is kept |
| TextCleanup.JoinKeepsNoDouble | FlaskIntegration.py:80 | joining soft breaks cannot create a double line break |
| TextCleanup.NormalizeForAddress | redactr.py:431 | keeps the length, keeps word characters, whitespace (the separators 0x1C to 0x1F included), comma and period, and turns every other character into a space |
| TextCleanup.NormalizeIdempotent | redactr.py:431 | normalising twice is the same as normalising once |
| Extraction.StripKeepsNoDouble | FlaskIntegration.py:89 | stripping cannot create adjacent pairs |
| Extraction.CleanTextShape | FlaskIntegration.py:74-89 | the clean-up leaves no double line break, no double space and no whitespace at either end, and its final `\n{2,}` step finds nothing to do |
| Extraction.ExtractNormalizedText | FlaskIntegration.py:55-95 | the page loop plus clean-up yields exactly the normalised text; a reader that raises yields "" |
| Extraction.BreakSpaceThenBreak | redactr.py:320-321 | replacing `'\n '` by `' '` and then deleting `'\n'` is the same as deleting every `'\n'` |
| Extraction.StripKeepsAbsent | redactr.py:322 | stripping cannot introduce a character that was absent |
| Extraction.CleanPageDropsBreaks | redactr.py:320-322 | one cleaned page is the page without its line breaks, stripped, and holds no line break |
| Extraction.PlainTextHasNoBreak | redactr.py:317-323 | the concatenated cleaned pages hold no line break |
| Extraction.ExtractPlainText | redactr.py:304-327 | the page loop yields exactly the concatenated cleaned pages, with no line break; a reader that raises yields "" |
| Placeholders.KindOfPlaceholder | FlaskIntegration.py:229 | `v.split('_')[0][1:]` reads back, from a token, the kind it was made for |
| Placeholders.PlaceholderInjective | FlaskIntegration.py:116 | two tokens are equal only when their kinds and numbers are |
| Placeholders.NumberedSize | FlaskIntegration.py:116 | a numbered dictionary has one entry per inserted key |
| Placeholders.RegisterNumbered | FlaskIntegration.py:115-116 | registering a surface form keeps the invariant: the `j`-th key inserted maps to number `j + 1`, keys are distinct and are exactly the dictionary's keys |
| Placeholders.RegisterGrows | FlaskIntegration.py:141-142 | registering only adds: existing entries keep their token, a known key changes nothing, and a new key gets number `len + 1` |
| Placeholders.NumberedInjective | FlaskIntegration.py:115-116 | in a numbered dictionary no two surface forms share a token |
| Placeholders.CountKindsPerKind | FlaskIntegration.py:227-230 | each kind's count is the number of tokens of that kind, and a kind is present exactly when that number is positive |
| Placeholders.CountKindsTotal | FlaskIntegration.py:227-230 | the counts add up to the number of tokens counted |
| Placeholders.TypeCounts | FlaskIntegration.py:227-230 | the loop computes the counts, and each kind's count is the number of tokens of that kind |
| Placeholders.TableCountsTotal | FlaskIntegration.py:227-235 | for a run's dictionary, the counts add up to `replacements_count` |
| Placeholders.AllowedFileIff | FlaskIntegration.py:222 | a name is accepted exactly when it ends in a dot and three letters that lower-case to `pdf` |
| Patterns.RunLength | FlaskIntegration.py:136 | a greedy character-class run: all its characters are in the class, and the next one is not |
| Patterns.EmailAtSound | FlaskIntegration.py:136 | every e-mail match has a local part, `@`, a domain, a dot and a top-level domain of two or more letters or vertical bars, with a word boundary at both ends |
| Patterns.EmailAtComplete | FlaskIntegration.py:136 | wherever such a shape starts, the backtracking matcher finds a match |
| Patterns.FindAllFrom | FlaskIntegration.py:139 | `re.finditer` reports spans in increasing, non-overlapping order, inside the text, and each span is a match: the match anchored at its start ends at its end |
| Patterns.SubAllIsSubstitute | FlaskIntegration.py:119-120 | `re.sub` is exactly the atomic rewrite of the matches `re.finditer` reports |
| Patterns.FindAllCovers | FlaskIntegration.py:139 | every position where a non-empty pattern matches lies inside a reported match |
| Patterns.SubstituteDeleteShrinks | redactr.py:348 | rewriting matches with the empty string never lengthens the text |
| Patterns.NoMatchNoChange | FlaskIntegration.py:120 | with no match, `re.sub` returns the text unchanged |
| Patterns.OneMatchSplice | FlaskIntegration.py:120 | with exactly one match, `re.sub` splices the replacement in place of it |
| AddressSearch.Tokens | redactr.py:459 | the non-empty parts of `re.split(r'[\s,]+', ...)`, split at whitespace (the separators 0x1C to 0x1F included) and commas, are all non-empty |
| AddressSearch.TokensSpell | redactr.py:459 | the tokens hold no separator, and in order they spell the address with its separators removed |
| AddressSearch.MatchSound | redactr.py:460-462 | a match of the joined pattern is the tokens in order, case-insensitively, with only non-word characters between them |
| AddressSearch.MatchComplete | redactr.py:460-462 | whatever fits the tokens that way is found by the backtracking search |
| AddressSearch.SearchNone | redactr.py:462 | `re.search` fails only when nothing in the text fits |
| AddressSearch.SearchSome | redactr.py:462 | `re.search` returns a fitting match starting leftmost |
| AddressSearch.FindOriginalNone | redactr.py:453-465 | `None` only when no part of the text fits the address's tokens |
| AddressSearch.FindOriginalFinds | redactr.py:453-465 | whenever some part of the text fits, a match is returned |
| AddressSearch.FindOriginalSome | redactr.py:453-465 | the result is the leftmost part of the original text that fits the tokens |
| AddressSearch.NoTokensEmptyMatch | redactr.py:460-464 | an address with no tokens gives the empty pattern, which returns the empty string |
| ReplaceMode.EmailHits | FlaskIntegration.py:139-140 | the e-mail matches, in order, each with the text it covers |
| ReplaceMode.NamesPassGrows | FlaskIntegration.py:113-120 | the name pass keeps the dictionary numbered and only adds to it |
| ReplaceMode.HitsPassGrows | FlaskIntegration.py:139-146 | the splicing loop keeps the dictionary numbered and only adds to it |
| ReplaceMode.PhonesPassGrows | FlaskIntegration.py:165-173 | the phone pass over all regions keeps the dictionary numbered and only adds to it |
| ReplaceMode.AddressListGrows | FlaskIntegration.py:195-202 | one country's addresses keep the dictionary numbered and only add to it |
| ReplaceMode.AddressesPassGrows | FlaskIntegration.py:192-202 | the address pass over all countries keeps the dictionary numbered and only adds to it |
| ReplaceMode.PassesNumbered | FlaskIntegration.py:46-50 | across the four passes the dictionary stays numbered in first-seen order, and each pass only extends what the earlier ones recorded |
| ReplaceMode.RedactedNumbered | FlaskIntegration.py:17-52 | the returned dictionary is numbered with pairwise distinct tokens; no text gives `("", {})` |
| ReplaceMode.NameReplacesEveryOccurrence | FlaskIntegration.py:113-120 | a PERSON entity has every word-bounded occurrence of its text replaced by its token |
| ReplaceMode.SingleHitSplice | FlaskIntegration.py:145-146 | with one match, the splice replaces exactly that match with its token |
| ReplaceMode.SingleEmail | FlaskIntegration.py:136-146 | with one e-mail address in the text, the pass yields `text[:start] + token + text[end:]` |
| ReplaceMode.StaleOffsets | FlaskIntegration.py:166-173 | later matches keep their original offsets: in `x12y34` the second phone token lands inside the first |
| ReplaceMode.FirstSeenReuse | FlaskIntegration.py:197-202 | a surface form already recorded under another kind keeps its first token, and the dictionary does not change |
| ReplaceMode.NamesBeforeEmails | FlaskIntegration.py:47-48 | names are numbered before e-mails: one name and one e-mail get `[PERSON_1]` and `[EMAIL_2]` |
| ReplaceMode.ReplacementMap.constructor | FlaskIntegration.py:38 | the dictionary starts empty and numbered |
| ReplaceMode.ReplacementMap.PlaceholderFor | FlaskIntegration.py:115-116 | registers the surface form if new and returns its token, keeping the numbering |
| ReplaceMode.RedactNames | FlaskIntegration.py:98-122 | the entity loop computes the name pass, on text and dictionary |
| ReplaceMode.SpliceOne | FlaskIntegration.py:141-146 | one match: register, then `redacted[:start] + token + redacted[end:]` |
| ReplaceMode.SpliceAll | FlaskIntegration.py:139-146 | the loop splices each match in turn at its original offsets |
| ReplaceMode.RedactEmails | FlaskIntegration.py:125-148 | computes the e-mail pass over the matches of the text the pass receives |
| ReplaceMode.RedactPhones | FlaskIntegration.py:151-175 | computes the phone pass, the matcher rerun per region on the text as it then is |
| ReplaceMode.ReplaceAddresses | FlaskIntegration.py:195-202 | each address found for one country is replaced in turn by its token |
| ReplaceMode.RedactAddresses | FlaskIntegration.py:178-204 | computes the address pass, the parser rerun per country on the text as it then is |
| ReplaceMode.RedactPdf | FlaskIntegration.py:17-52 | extraction then the four passes, in order, into one numbered dictionary |
| DeleteMode.SubAllDeleteShrinks | redactr.py:348 | deleting the matches of a pattern never lengthens the text |
| DeleteMode.NamesRemovedShrinks | redactr.py:344-348 | the name pass never lengthens the text |
| DeleteMode.CutAllShrinks | redactr.py:381-386 | cutting matches never lengthens the text |
| DeleteMode.PhonesRemovedShrinks | redactr.py:368-388 | the phone pass never lengthens the text |
| DeleteMode.AddressListShrinks | redactr.py:439-449 | the removals of one parse never lengthen the text |
| DeleteMode.CountryShrinks | redactr.py:436-449 | one country's removals never lengthen the text |
| DeleteMode.CountriesShrink | redactr.py:434-449 | the address pass never lengthens the text |
| DeleteMode.RemovedShrinks | redactr.py:269-301 | the result is never longer than the extracted text; with no text it is `no text` |
| DeleteMode.EmailsRemovedSpec | redactr.py:353-365 | for every text, the e-mail pass deletes exactly the spans `re.finditer` reports, keeping every other character in order, and each deleted span is an e-mail match |
| DeleteMode.EmailsRemovedCovers | redactr.py:363-364 | no e-mail is skipped: every position where the pattern matches lies inside a deleted match |
| DeleteMode.SingleCut | redactr.py:385-386 | with one match, the cut removes exactly that match |
| DeleteMode.StaleCut | redactr.py:381-386 | later matches keep their original offsets: in `x12y34` the second cut falls past the shortened text |
| DeleteMode.AddressRemovalSpec | redactr.py:444-449 | an address not relocated, or relocated to "", removes nothing; one that removes something was relocated to a non-empty fitting part of the pass's input that occurs in the text |
| DeleteMode.RemoveNames | redactr.py:330-350 | the entity loop computes the name pass and never lengthens the text |
| DeleteMode.RemovePhones | redactr.py:368-388 | the region and match loops compute the phone pass and never lengthen the text |
| DeleteMode.RemoveAddresses | redactr.py:415-451 | the country, variant and address loops compute the address pass and never lengthen the text |
| DeleteMode.RedactPdf | redactr.py:269-301 | extraction, then `no text` or the four passes in order |
| InterviewHandler.RejectedIff | interview_handler.py:28-115 | status 400 exactly when a new interview lacks resume or job description, or a running one gets no answer; a rejected request changes nothing; otherwise 200 |
| InterviewHandler.NewSession | interview_handler.py:70-193 | a new interview holds the greeting and the reply, counts the reply if it asks something, is over only if the reply wraps up, and no other session changes |
| InterviewHandler.CompletedUntouched | interview_handler.py:105-111 | a finished interview answers with the fixed notice and stays as it is |
| InterviewHandler.EarlyEnd | interview_handler.py:123-137 | an answer asking to stop adds the answer, the system note and the reply, ends the interview, and counts nothing |
| InterviewHandler.SixthAnswer | interview_handler.py:138-146 | after five questions the answer goes in once with the note appended, and the interview ends |
| InterviewHandler.OrdinaryTurn | interview_handler.py:161-185 | an ordinary exchange adds answer and reply; the count grows exactly when the reply has `?`; it ends exactly when the reply wraps up |
| InterviewHandler.CountStaysBounded | interview_handler.py:138-175 | no session ever counts more than five questions |
| InterviewHandler.CompletionSticks | interview_handler.py:161-193 | sessions are never dropped; only the written one changes; a finished interview is never reopened by continuing it; the reply reports the written session's count and flag |
| InterviewHandler.InterviewSessions.constructor | interview_handler.py:7 | the session store starts empty |
| InterviewHandler.InterviewSessions.HandleInterviewRequest | interview_handler.py:5-193 | the in-place handler produces exactly the new session map and response of `Handle`, and keeps question counts at most five |
| MockInterview.Position | mock_interview_integration.py:89 | `list.index` gives the first position holding the stage |
| MockInterview.StageStep | mock_interview_integration.py:87-91 | a listed stage moves at most one step, only after three answers and outside "closing", always when a later stage exists, and stays listed |
| MockInterview.StandardStages | mock_interview_integration.py:87-91 | on the four standard stages the position rises by exactly one per call with three or more answers, until "closing" |
| MockInterview.EmptyAnswerRaises | mock_interview_integration.py:64-80 | the empty answer is sent to the model, and recording it as written raises |
| MockInterview.RecordedAsWrittenIsSent | mock_interview_integration.py:80 | apart from the empty answer, the recorded entry is the message sent |
| MockInterview.InterviewState.constructor | mock_interview_integration.py:23-29 | a new state: no messages, no answers, stage "introduction", the four standard stages |
| MockInterview.InterviewState.Update | mock_interview_integration.py:79-91 | appends the sent entry and the reply, counts an answer, advances the stage; fails exactly when the stage lookup raises; a valid stage stays valid |
| MockInterview.ConductMockInterview | mock_interview_integration.py:6-97 | starts a state when none is given, records the exchange, and returns the reply; where the stage lookup raises it returns nothing and the stage stays as it was |
| InterviewUtils.TranscriptAppend | mock-interview-utils.py:124-126 | the transcript lists exchanges in order: one more adds its entry at the end after a blank line |
| InterviewUtils.StartsWithNumeralIff | mock-interview-utils.py:179 | the numeral test is exactly `startswith(("1.", ..., "10."))` |
| InterviewUtils.AfterFirstDot | mock-interview-utils.py:181 | `split(".", 1)[1]` is what follows the first dot |
| InterviewUtils.QuestionOf | mock-interview-utils.py:181 | the extracted question has no quote at either end and is shorter than its line |
| InterviewUtils.QuestionOfContent | mock-interview-utils.py:181 | the question is the text after the first '.' of the stripped line, stripped of whitespace, with only quote characters cut from its ends |
| InterviewUtils.CollectConcat | mock-interview-utils.py:176-182 | the questions of consecutive blocks of lines follow each other in line order |
| InterviewUtils.CollectEmpty | mock-interview-utils.py:176-185 | no question is collected exactly when no line is numbered |
| InterviewUtils.Fallback | mock-interview-utils.py:174-188 | the fallback returns the raw reply alone exactly when no line is numbered, otherwise one question per numbered line |
| InterviewUtils.ExtractQuestions | mock-interview-utils.py:176-182 | the loop collects the questions of the numbered lines in order |
| InterviewUtils.MockInterviewSystem.constructor | mock-interview-utils.py:47-53 | no context and an empty history |
| InterviewUtils.MockInterviewSystem.SetResumeContext | mock-interview-utils.py:55-57 | sets the context and keeps the history |
| InterviewUtils.MockInterviewSystem.AskInterviewQuestion | mock-interview-utils.py:95-117 | raises without a context and changes nothing; otherwise appends the exchange and returns the answer |
| InterviewUtils.MockInterviewSystem.GetInterviewSummary | mock-interview-utils.py:119-147 | the fixed notice for an empty history, otherwise the review of the transcript |
| InterviewUtils.MockInterviewSystem.GenerateInterviewQuestions | mock-interview-utils.py:149-188 | raises without a context; otherwise a JSON list as is, the `questions` entry of a JSON object, nothing for other JSON, or the line fallback |
| InterviewUtils.AskThenSummarise | mock-interview-utils.py:115-126 | asking then summarising hands the reviewer the old transcript with the new exchange appended |

## Left out

**Third-party libraries and I/O**
- The detectors are parameters: spaCy's named-entity recogniser, phonenumbers' matcher and pyap's parser. Their own recognition logic is not modelled. A phone match ends at its start plus the length of its raw string, as in the phonenumbers library.
- The PDF reader is a parameter, given as one string per page. Reader errors are `None`.
- Loading and downloading the spaCy model (redactr.py:281-287) is I/O and is left out.
- The model replies are parameters:
  - `client.messages.create` and `response.content`, with the content taken as one string;
  - the summary call, as `review`;
  - the JSON parser `json.loads`, as `parse`, with JSON numbers as integers.
- The prompt texts, `num_questions` and the context-parsing call of `set_resume_context` (mock-interview-utils.py:59-93) only feed the model. They are left out, and so is `update_context`.

**Web routes**
- The Flask routes, rendering and download endpoints are left out. Only the file-name check and the per-kind counts of the upload route are modelled.
- `redact_pdf` of mock-interview-utils.py (lines 191-199) is a stand-in that is never called by the interview code, so it is left out.

**Character semantics**
- `\w`, `\s`, `str.lower()`, `str.strip()` and `re.IGNORECASE` are modelled on ASCII only.
  - ASCII whitespace is space, tab, the line and page breaks, and the separators 0x1C to 0x1F, as Python has it.
  - Non-ASCII letters, digits and whitespace (such as U+00A0 or U+2028) are not covered.
  - Case folding covers ASCII letters only. Python's `re.IGNORECASE` also matches U+212A (Kelvin sign) with `k` and U+017F (long s) with `s`.
- `str.title()` is a parameter of the detectors.

**Interview handler**
- The session id a new interview gets, a time stamp (interview_handler.py:34), is a parameter.
  - An id that collides with an existing session overwrites it, as the source does.
  - The `started_at` time, the system prompt, the context list and `thread_id` are not kept.
- The commented-out export function of interview_handler.py (lines 195-234) is not part of this model.
- The commented-out `remove_addresses` of redactr.py (lines 391-413) is not part of this model.

**Not a weakened contract**
- InterviewHandler.CountStaysBounded proves the question count never exceeds five. This is stronger than the source's `>= 6` test at interview_handler.py:174, which therefore never fires.

**Stale offsets, modelled as written**
- Both variants splice or cut phone and e-mail matches at offsets computed before earlier splices. ReplaceMode.StaleOffsets and DeleteMode.StaleCut exhibit the drift, and the model keeps it as the source has it.

## Findings

| source | as written | input that shows it | evidently intended | confidence | as-written member | corrected member |
|---|---|---|---|---|---|---|
| mock_interview_integration.py:80 | the recorded user entry is `user_response if user_response else interviewer_prompt`, but `interviewer_prompt` is bound only when `user_response is None` | `user_response = ""`: the empty answer is sent to the model, then line 80 raises `UnboundLocalError` | record the message that was actually sent, the empty answer included | not executed | MockInterview.EmptyAnswerRaises | MockInterview.InterviewState.Update |

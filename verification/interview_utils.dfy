/** The resume-aware interview helper of mock-interview-utils.py: the resume context and the
    question/answer history it keeps, the transcript it sends for a summary, and how it reads
    the generated questions out of the model's reply (JSON when it parses, numbered lines
    when it does not). Model replies and the JSON parser are parameters. */
module InterviewUtils {
  import opened Wrappers
  import opened TextUtil

  datatype ResumeContext = ResumeContext(resumeText: string, jobTitle: string)

  /** A value, or the message of the `ValueError` raised instead. */
  datatype Outcome<T> = Ok(value: T) | Raised(error: string)

  const NoContextError := "You must set a resume context first with set_resume_context()"
  const NoInterview := "No interview has been conducted yet."

  /** One history entry as the transcript shows it. */
  function Entry(exchange: (string, string)): string {
    "Q: " + exchange.0 + "\nA: " + exchange.1
  }

  function Entries(history: seq<(string, string)>): (r: seq<string>)
    ensures |r| == |history|
    ensures forall i :: 0 <= i < |history| ==> r[i] == Entry(history[i])
  {
    seq(|history|, i requires 0 <= i < |history| => Entry(history[i]))
  }

  /** The entries joined by blank lines. */
  function Transcript(history: seq<(string, string)>): string {
    Join(Entries(history), "\n\n")
  }

  lemma {:induction false} JoinAppend(parts: seq<string>, last: string, sep: string)
    requires parts != []
    ensures Join(parts + [last], sep) == Join(parts, sep) + sep + last
    decreases |parts|
  {
    if |parts| > 1 {
      JoinAppend(parts[1..], last, sep);
      assert (parts + [last])[1..] == parts[1..] + [last];
    }
  }

  /** The transcript lists the exchanges in the order they happened: one more exchange adds
      its entry at the end, after a blank line. */
  lemma TranscriptAppend(history: seq<(string, string)>, exchange: (string, string))
    ensures Transcript([exchange]) == Entry(exchange)
    ensures history != [] ==> Transcript(history + [exchange]) == Transcript(history) + "\n\n" + Entry(exchange)
  {
    assert Entries([exchange]) == [Entry(exchange)];
    if history != [] {
      assert Entries(history + [exchange]) == Entries(history) + [Entry(exchange)];
      JoinAppend(Entries(history), Entry(exchange), "\n\n");
    }
  }

  /** What `json.loads` may give. Numbers are kept as integers. */
  datatype Json =
    | JNull
    | JBool(b: bool)
    | JNumber(n: int)
    | JString(s: string)
    | JArray(items: seq<Json>)
    | JObject(fields: map<string, Json>)

  /** What `generate_interview_questions` returns: a parsed JSON value, questions read off
      the numbered lines (or the raw reply), or `None`. */
  datatype Questions = FromJson(value: Json) | Extracted(questions: seq<string>) | NoQuestions

  const Quotes: set<char> := {'"', '\''}

  /** The prefixes that mark a numbered line. */
  const Numerals: seq<string> := ["1.", "2.", "3.", "4.", "5.", "6.", "7.", "8.", "9.", "10."]

  /** `t` starts with a digit from 1 to 9 and a '.', or with "10.". */
  predicate StartsWithNumeral(t: string) {
    (|t| >= 2 && '1' <= t[0] <= '9' && t[1] == '.') || (|t| >= 3 && t[0] == '1' && t[1] == '0' && t[2] == '.')
  }

  /** The test above is `t.startswith(("1.", ..., "10."))`. */
  lemma StartsWithNumeralIff(t: string)
    ensures StartsWithNumeral(t) <==> exists k | 0 <= k < |Numerals| :: StartsWith(t, Numerals[k])
  {
    if StartsWithNumeral(t) {
      if t[1] != '.' {
        assert t[..3] == Numerals[9];
      } else {
        var k := t[0] as int - '1' as int;
        assert t[..2] == Numerals[k];
      }
    }
    if k :| 0 <= k < |Numerals| && StartsWith(t, Numerals[k]) {
      assert t[..|Numerals[k]|] == Numerals[k];
    }
  }

  predicate IsNumberedLine(line: string) {
    StartsWithNumeral(Strip(line))
  }

  /** What follows the first '.' of `t`. */
  function AfterFirstDot(t: string): (r: string)
    requires '.' in t
    ensures |r| < |t|
    ensures exists d :: 0 <= d < |t| && t[d] == '.' && '.' !in t[..d] && r == t[d + 1..]
  {
    var d := IndexOf(t, '.');
    t[d + 1..]
  }

  /** The question on a numbered line: what follows the first '.', stripped of whitespace and
      then of the quote characters around it; it has no quote at either end and is shorter
      than its line. */
  function QuestionOf(line: string): (q: string)
    requires IsNumberedLine(line)
    ensures q == [] || (q[0] !in Quotes && q[|q| - 1] !in Quotes)
    ensures |q| < |line|
  {
    var t := Strip(line);
    assert '.' in t by {
      assert t[1] == '.' || t[2] == '.';
    }
    StripChars(Strip(AfterFirstDot(t)), Quotes)
  }

  /** The question is the text after the first '.' of the stripped line, stripped of
      whitespace, with only quote characters cut from its ends. */
  lemma QuestionOfContent(line: string)
    requires IsNumberedLine(line)
    ensures var t := Strip(line);
      exists d :: 0 <= d < |t| && t[d] == '.' && '.' !in t[..d] && TrimmedOf(Strip(t[d + 1..]), QuestionOf(line), Quotes)
  {
    var t := Strip(line);
    assert '.' in t by {
      assert t[1] == '.' || t[2] == '.';
    }
    var d := IndexOf(t, '.');
    var u := Strip(t[d + 1..]);
    assert QuestionOf(line) == StripChars(u, Quotes);
    StripCharsIsSlice(u, Quotes);
  }

  /** The question a line contributes, if it is numbered. */
  function LineQuestion(line: string): Option<string> {
    if IsNumberedLine(line) then Some(QuestionOf(line)) else None
  }

  /** The values `pick` gives for the lines, in line order, skipping the lines it refuses. */
  function Collect(lines: seq<string>, pick: string -> Option<string>): seq<string> {
    if lines == [] then []
    else
      var last := pick(lines[|lines| - 1]);
      Collect(lines[..|lines| - 1], pick) + (if last.Some? then [last.value] else [])
  }

  /** The questions of the numbered lines, in line order. */
  function NumberedQuestions(lines: seq<string>): seq<string> {
    Collect(lines, LineQuestion)
  }

  /** The questions of consecutive blocks of lines follow each other: one question per
      numbered line, in the order of the lines. */
  lemma {:induction false} CollectConcat(a: seq<string>, b: seq<string>, pick: string -> Option<string>)
    ensures Collect(a + b, pick) == Collect(a, pick) + Collect(b, pick)
    decreases |b|
  {
    if b == [] {
      assert a + b == a;
    } else {
      var init := b[..|b| - 1];
      CollectConcat(a, init, pick);
      assert (a + b)[..|a + b| - 1] == a + init;
    }
  }

  /** One more line adds its value, if `pick` gives one, at the end. */
  lemma CollectStep(lines: seq<string>, i: nat, pick: string -> Option<string>)
    requires i < |lines|
    ensures Collect(lines[..i + 1], pick) ==
      Collect(lines[..i], pick) + (if pick(lines[i]).Some? then [pick(lines[i]).value] else [])
  {
    assert lines[..i + 1][..i] == lines[..i];
  }

  /** Nothing is collected exactly when `pick` refuses every line. */
  lemma {:induction false} CollectEmpty(lines: seq<string>, pick: string -> Option<string>)
    ensures Collect(lines, pick) == [] <==> forall i :: 0 <= i < |lines| ==> pick(lines[i]).None?
  {
    if lines != [] {
      var init := lines[..|lines| - 1];
      CollectEmpty(init, pick);
      assert forall i :: 0 <= i < |init| ==> init[i] == lines[i];
    }
  }

  /** The reply read as questions: a JSON array as it is, the "questions" entry of a JSON
      object, nothing for any other JSON value; when the reply is not JSON, the questions of
      its numbered lines, or the whole reply as the only question if there are none. */
  function QuestionsFrom(content: string, parsed: Option<Json>): Questions {
    match parsed
    case Some(JArray(_)) => FromJson(parsed.value)
    case Some(JObject(fields)) => if "questions" in fields then FromJson(fields["questions"]) else NoQuestions
    case Some(_) => NoQuestions
    case None =>
      var questions := NumberedQuestions(Split(content, '\n'));
      if questions != [] then Extracted(questions) else Extracted([content])
  }

  /** The fallback unfolded: the numbered questions, or the raw reply when there are none. */
  lemma FallbackCases(content: string)
    ensures var questions := NumberedQuestions(Split(content, '\n'));
      QuestionsFrom(content, None) == if questions != [] then Extracted(questions) else Extracted([content])
  {
  }

  /** The fallback yields the raw reply alone exactly when none of its lines is numbered,
      and otherwise one question per numbered line. */
  lemma Fallback(content: string)
    ensures var lines := Split(content, '\n');
      ((forall i :: 0 <= i < |lines| ==> LineQuestion(lines[i]).None?) ==> QuestionsFrom(content, None) == Extracted([content])) &&
      ((exists i :: 0 <= i < |lines| && LineQuestion(lines[i]).Some?) ==>
        (QuestionsFrom(content, None) == Extracted(NumberedQuestions(lines)) && NumberedQuestions(lines) != []))
  {
    FallbackCases(content);
    CollectEmpty(Split(content, '\n'), LineQuestion);
  }

  /** The loop over the reply's lines that collects the numbered questions. */
  method ExtractQuestions(content: string) returns (questions: seq<string>)
    ensures questions == NumberedQuestions(Split(content, '\n'))
  {
    var lines := Split(content, '\n');
    questions := [];
    var i := 0;
    while i < |lines|
      invariant 0 <= i <= |lines|
      invariant questions == NumberedQuestions(lines[..i])
    {
      CollectStep(lines, i, LineQuestion);
      var line := lines[i];
      if StartsWithNumeral(Strip(line)) {
        var question := QuestionOf(line);
        questions := questions + [question];
      }
      i := i + 1;
    }
    assert lines[..i] == lines;
  }

  /** `MockInterviewSystem`. */
  class MockInterviewSystem {
    var resumeContext: Option<ResumeContext>
    var interviewHistory: seq<(string, string)>

    constructor ()
      ensures resumeContext == None && interviewHistory == []
    {
      resumeContext := None;
      interviewHistory := [];
    }

    /** Sets the context; the parsing call that enriches it is not part of this model. */
    method SetResumeContext(resumeText: string, jobTitle: string)
      modifies this
      ensures resumeContext == Some(ResumeContext(resumeText, jobTitle))
      ensures interviewHistory == old(interviewHistory)
    {
      resumeContext := Some(ResumeContext(resumeText, jobTitle));
    }

    /** Asks a question, `answer` being the model's reply; raises without a context, and
        otherwise records the exchange at the end of the history. */
    method AskInterviewQuestion(question: string, answer: string) returns (r: Outcome<string>)
      modifies this
      ensures resumeContext == old(resumeContext)
      ensures old(resumeContext).None? ==> r == Raised(NoContextError) && interviewHistory == old(interviewHistory)
      ensures old(resumeContext).Some? ==> r == Ok(answer) && interviewHistory == old(interviewHistory) + [(question, answer)]
    {
      if resumeContext.None? {
        return Raised(NoContextError);
      }
      interviewHistory := interviewHistory + [(question, answer)];
      r := Ok(answer);
    }

    /** The summary: the fixed notice for an empty history, otherwise the review `review`
        gives of the transcript. */
    method GetInterviewSummary(review: string -> string) returns (summary: string)
      ensures interviewHistory == [] ==> summary == NoInterview
      ensures interviewHistory != [] ==> summary == review(Transcript(interviewHistory))
    {
      if interviewHistory == [] {
        return NoInterview;
      }
      var questionsAndAnswers := Join(Entries(interviewHistory), "\n\n");
      summary := review(questionsAndAnswers);
    }

    /** Reads the questions out of the model's reply `content`, `parse` standing for
        `json.loads` (`None` where it raises); raises without a context. */
    method GenerateInterviewQuestions(content: string, parse: string -> Option<Json>) returns (r: Outcome<Questions>)
      ensures resumeContext.None? ==> r == Raised(NoContextError)
      ensures resumeContext.Some? ==> r == Ok(QuestionsFrom(content, parse(content)))
    {
      if resumeContext.None? {
        return Raised(NoContextError);
      }
      var parsed := parse(content);
      if parsed.Some? {
        match parsed.value
        case JArray(_) => return Ok(FromJson(parsed.value));
        case JObject(fields) =>
          if "questions" in fields {
            return Ok(FromJson(fields["questions"]));
          }
          return Ok(NoQuestions);
        case _ => return Ok(NoQuestions);
      }
      var questions := ExtractQuestions(content);
      if questions != [] {
        return Ok(Extracted(questions));
      }
      return Ok(Extracted([content]));
    }
  }

  /** Once a context is set, asking a question and then summarising hands the reviewer the
      old transcript with the new exchange appended. */
  method AskThenSummarise(system: MockInterviewSystem, question: string, answer: string, review: string -> string)
    returns (summary: string)
    requires system.resumeContext.Some?
    modifies system
    ensures system.interviewHistory == old(system.interviewHistory) + [(question, answer)]
    ensures old(system.interviewHistory) == [] ==> summary == review(Entry((question, answer)))
    ensures old(system.interviewHistory) != [] ==>
      summary == review(Transcript(old(system.interviewHistory)) + "\n\n" + Entry((question, answer)))
  {
    var _ := system.AskInterviewQuestion(question, answer);
    TranscriptAppend(old(system.interviewHistory), (question, answer));
    summary := system.GetInterviewSummary(review);
  }
}

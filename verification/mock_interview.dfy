/** The staged interview of mock_interview_integration.py: a state holding the exchange so
    far, the number of answers given and the current stage out of a list of stages, updated
    in place by each call. The model reply is a parameter; the prompt text built from the
    resume and the job description only feeds the model and is not kept. */
module MockInterview {
  import opened Wrappers
  import opened InterviewHandler

  const Stages: seq<string> := ["introduction", "technical", "behavioral", "closing"]
  const OpeningPrompt := "Begin the interview with a professional introduction and your first question."

  /** `stages.index(stage)`: the first position holding `stage`. */
  function Position(stages: seq<string>, stage: string): (r: nat)
    requires stage in stages
    ensures r < |stages| && stages[r] == stage && stage !in stages[..r]
  {
    if stages[0] == stage then 0
    else
      assert stage in stages[1..];
      var k := Position(stages[1..], stage);
      assert stages[..k + 1] == [stages[0]] + stages[1..][..k];
      k + 1
  }

  /** The stage is looked up only once three answers are counted and the stage is not
      "closing"; the lookup raises `ValueError` when the stage is not listed. */
  predicate LookupRaises(stage: string, count: nat, stages: seq<string>) {
    count >= 3 && stage != "closing" && stage !in stages
  }

  /** The stage after a call that leaves `count` answers counted. */
  function NextStage(stage: string, count: nat, stages: seq<string>): string
    requires !LookupRaises(stage, count, stages)
  {
    if count >= 3 && stage != "closing" then
      var i := Position(stages, stage);
      if i < |stages| - 1 then stages[i + 1] else stage
    else stage
  }

  /** A listed stage moves at most one position, only once three answers are counted and
      the stage is not "closing", always when a later stage exists, and never off the list. */
  lemma StageStep(stage: string, count: nat, stages: seq<string>)
    requires stage in stages
    ensures var next := NextStage(stage, count, stages);
      next in stages &&
      (next != stage ==> count >= 3 && stage != "closing" && next == stages[Position(stages, stage) + 1]) &&
      (count >= 3 && stage != "closing" && Position(stages, stage) < |stages| - 1 ==>
        next == stages[Position(stages, stage) + 1])
  {
  }

  /** On the four standard stages the position goes up by exactly one on every call that
      leaves three or more answers counted, until "closing", which is never left. */
  lemma StandardStages(stage: string, count: nat)
    requires stage in Stages
    ensures var next := NextStage(stage, count, Stages);
      next in Stages &&
      Position(Stages, next) == Position(Stages, stage) + (if count >= 3 && stage != "closing" then 1 else 0)
  {
    assert Position(Stages, Stages[0]) == 0;
    assert Position(Stages, Stages[1]) == 1;
    assert Position(Stages, Stages[2]) == 2;
    assert Position(Stages, Stages[3]) == 3;
  }

  /** The user message sent to the model: the opening prompt when there is no answer yet,
      the answer otherwise. */
  function SentEntry(userResponse: Option<string>): string {
    match userResponse
    case None => OpeningPrompt
    case Some(answer) => answer
  }

  /** The user entry that is recorded, as written: an answer that is falsy selects the
      opening prompt, but the prompt is bound only when the answer is `None`, so an empty
      answer raises `UnboundLocalError` (`None` here). */
  function RecordedEntryAsWritten(userResponse: Option<string>): Option<string> {
    match userResponse
    case None => Some(OpeningPrompt)
    case Some(answer) => if answer != [] then Some(answer) else None
  }

  /** The empty answer is sent to the model, and then recording it raises. */
  lemma EmptyAnswerRaises()
    ensures SentEntry(Some("")) == ""
    ensures RecordedEntryAsWritten(Some("")) == None
  {
  }

  /** Apart from the empty answer, the entry recorded as written is the message sent. */
  lemma RecordedAsWrittenIsSent(userResponse: Option<string>)
    ensures RecordedEntryAsWritten(userResponse) == Some(SentEntry(userResponse)) <==> userResponse != Some("")
  {
  }

  /** `interview_state`. */
  class InterviewState {
    var messages: seq<Message>
    var questionCount: nat
    var currentStage: string
    var stages: seq<string>

    /** The current stage is one of the stages, so looking it up never raises. */
    ghost predicate Valid()
      reads this
    {
      currentStage in stages
    }

    /** The state of a new interview. */
    constructor ()
      ensures messages == [] && questionCount == 0 && currentStage == "introduction" && stages == Stages
      ensures Valid()
    {
      messages := [];
      questionCount := 0;
      currentStage := "introduction";
      stages := Stages;
    }

    /** Records one exchange, counts an answer, and advances the stage. Recording uses the
        message that was sent, so an empty answer is recorded as it is. `ok` is false where
        the stage lookup raises, by which point the messages and the count are updated. */
    method Update(userResponse: Option<string>, reply: string) returns (ok: bool)
      modifies this
      ensures messages == old(messages) + [User(SentEntry(userResponse)), Assistant(reply)]
      ensures questionCount == old(questionCount) + (if userResponse.Some? then 1 else 0)
      ensures stages == old(stages)
      ensures ok <==> !LookupRaises(old(currentStage), questionCount, stages)
      ensures ok ==> currentStage == NextStage(old(currentStage), questionCount, stages)
      ensures !ok ==> currentStage == old(currentStage)
      ensures old(Valid()) ==> ok && Valid()
    {
      messages := messages + [User(SentEntry(userResponse))];
      messages := messages + [Assistant(reply)];
      if userResponse.Some? {
        questionCount := questionCount + 1;
      }
      if questionCount >= 3 && currentStage != "closing" {
        if currentStage !in stages {
          return false;
        }
        var currentIndex := Position(stages, currentStage);
        if currentIndex < |stages| - 1 {
          currentStage := stages[currentIndex + 1];
        }
      }
      ok := true;
    }
  }

  /** `conduct_mock_interview`: starts a state when none is given, then records the
      exchange. The interviewer's reply is returned, or `None` where the stage lookup raised. */
  method ConductMockInterview(state: InterviewState?, userResponse: Option<string>, reply: string)
    returns (result: InterviewState, interviewerResponse: Option<string>)
    modifies state
    ensures state != null ==>
      (result == state && result.messages == old(state.messages) + [User(SentEntry(userResponse)), Assistant(reply)] &&
       result.questionCount == old(state.questionCount) + (if userResponse.Some? then 1 else 0) &&
       result.stages == old(state.stages))
    ensures state == null ==>
      (fresh(result) && result.messages == [User(SentEntry(userResponse)), Assistant(reply)] &&
       result.questionCount == (if userResponse.Some? then 1 else 0) &&
       result.currentStage == "introduction" && result.stages == Stages)
    ensures (state == null || old(state.Valid())) ==> result.Valid() && interviewerResponse == Some(reply)
    ensures interviewerResponse.Some? ==> interviewerResponse.value == reply
    ensures state != null ==>
      (interviewerResponse.Some? <==> !LookupRaises(old(state.currentStage), result.questionCount, result.stages))
    ensures state != null && interviewerResponse.Some? ==>
      result.currentStage == NextStage(old(state.currentStage), result.questionCount, result.stages)
    ensures state != null && interviewerResponse.None? ==> result.currentStage == old(state.currentStage)
  {
    if state == null {
      result := new InterviewState();
    } else {
      result := state;
    }
    var ok := result.Update(userResponse, reply);
    interviewerResponse := if ok then Some(reply) else None;
  }
}

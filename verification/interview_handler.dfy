/** The session tracker of the chat interview (interview_handler.py): a map from session id
    to the conversation so far, its question count and its completion flag, updated by one
    request at a time.

    The model reply and the id a new session gets (a time stamp in the program) are
    parameters. `None` and the empty string are alike to the handler's `not x` tests, so the
    optional text fields are plain strings with `[]` standing for both. */
module InterviewHandler {
  import opened Wrappers
  import opened TextUtil

  datatype Message = Message(role: string, content: string)

  /** One interview: the messages exchanged, the questions counted, whether it is over, and
      the resume and job description it was opened with. */
  datatype Session = Session(
    messages: seq<Message>, questionCount: nat, complete: bool, resume: string, jobDescription: string)

  /** The JSON body of the handler's answer. */
  datatype Body =
    | Failure(error: string)
    | AlreadyComplete(response: string, sessionId: string)
    | Turn(response: string, sessionId: string, questionCount: nat, complete: bool)

  datatype Response = Response(body: Body, status: nat)

  const Greeting := "Hi, I'm here for a mock interview. Please introduce yourself and start the interview."
  const MissingContext := "Resume and job description are required for new interviews"
  const AlreadyCompleted := "This interview has already been completed. You can start a new one if you'd like."
  const MissingResponse := "User response is required to continue the interview"
  const EarlyEndNote := "[System note: The candidate has requested to end the interview early. Please provide final feedback now.]"
  const SixthNote := "\n\n[System note: This is the response to the 6th question. Please provide final feedback now.]"

  /** Phrases in the candidate's lower-cased answer that ask to stop. */
  const EndPhrases: seq<string> := ["end interview", "stop interview", "exit", "quit", "let's finish",
    "finish interview", "terminate", "end session", "stop session"]

  /** Phrases in the lower-cased reply that show the interviewer has wrapped up. */
  const ClosingPhrases: seq<string> := ["overall impression", "thank you for participating", "final feedback",
    "interview complete", "strengths and areas for improvement"]

  function User(content: string): Message { Message("user", content) }
  function Assistant(content: string): Message { Message("assistant", content) }

  /** The request opens a new interview: no id, or one the map does not hold. */
  predicate IsNew(sessions: map<string, Session>, sessionId: Option<string>) {
    sessionId.None? || sessionId.value !in sessions
  }

  predicate WantsToEnd(userResponse: string) {
    ContainsAny(Lower(userResponse), EndPhrases)
  }

  predicate WrapsUp(reply: string) {
    ContainsAny(Lower(reply), ClosingPhrases)
  }

  /** A fresh session holding only the greeting. */
  function Opened(resume: string, jobDescription: string): Session {
    Session([User(Greeting)], 0, false, resume, jobDescription)
  }

  /** The candidate's turn on a session still in progress: the answer is appended, then an
      early-end request adds a system note, or else the answer to the sixth question carries
      one in place of the plain answer; either way the interview is over. */
  function UserTurn(s: Session, userResponse: string): Session {
    var answered := s.(messages := s.messages + [User(userResponse)]);
    if WantsToEnd(userResponse) && s.questionCount < 6 then
      answered.(messages := answered.messages + [User(EarlyEndNote)], complete := true)
    else if s.questionCount >= 5 then
      answered.(messages := s.messages + [User(userResponse + SixthNote)], complete := true)
    else answered
  }

  /** The interviewer's turn: the reply is appended; a question mark in it counts one more
      question while the interview is on, and six questions or a closing phrase end it. */
  function AssistantTurn(s: Session, reply: string): Session {
    var replied := s.(messages := s.messages + [Assistant(reply)]);
    var counted := if !s.complete && '?' in reply then replied.(questionCount := s.questionCount + 1) else replied;
    var capped := if !s.complete && '?' in reply && counted.questionCount >= 6 then counted.(complete := true) else counted;
    if capped.complete || WrapsUp(reply) then capped.(complete := true) else capped
  }

  /** Stores the session after the interviewer's turn and reports on it. */
  function Finish(sessions: map<string, Session>, id: string, s: Session, reply: string): (map<string, Session>, Response) {
    var t := AssistantTurn(s, reply);
    (sessions[id := t], Response(Turn(reply, id, t.questionCount, t.complete), 200))
  }

  /** `handle_interview_request`: the new session map and the answer. */
  function Handle(sessions: map<string, Session>, sessionId: Option<string>, userResponse: string,
                  resume: string, jobDescription: string, newId: string, reply: string): (map<string, Session>, Response)
  {
    if IsNew(sessions, sessionId) then
      if resume == [] || jobDescription == [] then (sessions, Response(Failure(MissingContext), 400))
      else Finish(sessions, newId, Opened(resume, jobDescription), reply)
    else
      var id := sessionId.value;
      var s := sessions[id];
      if s.complete then (sessions, Response(AlreadyComplete(AlreadyCompleted, id), 200))
      else if userResponse == [] then (sessions, Response(Failure(MissingResponse), 400))
      else Finish(sessions, id, UserTurn(s, userResponse), reply)
  }

  /** Every session has counted at most five questions. */
  predicate CountsBounded(sessions: map<string, Session>) {
    forall id :: id in sessions ==> sessions[id].questionCount <= 5
  }

  /** A request fails with 400 exactly when a new interview lacks its resume or job
      description, or a running one gets no answer; a failed request changes nothing. */
  lemma RejectedIff(sessions: map<string, Session>, sessionId: Option<string>, userResponse: string,
                    resume: string, jobDescription: string, newId: string, reply: string)
    ensures var (after, response) := Handle(sessions, sessionId, userResponse, resume, jobDescription, newId, reply);
      (response.status == 400 <==>
        (IsNew(sessions, sessionId) && (resume == [] || jobDescription == [])) ||
        (!IsNew(sessions, sessionId) && !sessions[sessionId.value].complete && userResponse == [])) &&
      (response.status == 400 ==> after == sessions && response.body.Failure?) &&
      (response.status != 400 ==> response.status == 200)
  {
  }

  /** A new interview holds the greeting and the first reply, has counted the reply if it
      asks something, and is over only if the reply already wraps up; no other session is
      touched. */
  lemma NewSession(sessions: map<string, Session>, sessionId: Option<string>, userResponse: string,
                   resume: string, jobDescription: string, newId: string, reply: string)
    requires IsNew(sessions, sessionId) && resume != [] && jobDescription != []
    ensures var (after, response) := Handle(sessions, sessionId, userResponse, resume, jobDescription, newId, reply);
      after.Keys == sessions.Keys + {newId} &&
      after[newId].messages == [User(Greeting), Assistant(reply)] &&
      after[newId].questionCount == (if '?' in reply then 1 else 0) &&
      after[newId].complete == WrapsUp(reply) &&
      after[newId].resume == resume && after[newId].jobDescription == jobDescription &&
      (forall id :: id in sessions && id != newId ==> after[id] == sessions[id]) &&
      response == Response(Turn(reply, newId, after[newId].questionCount, after[newId].complete), 200)
  {
  }

  /** A finished interview answers with the fixed notice and stays as it is. */
  lemma CompletedUntouched(sessions: map<string, Session>, id: string, userResponse: string,
                           resume: string, jobDescription: string, newId: string, reply: string)
    requires id in sessions && sessions[id].complete
    ensures Handle(sessions, Some(id), userResponse, resume, jobDescription, newId, reply) ==
      (sessions, Response(AlreadyComplete(AlreadyCompleted, id), 200))
  {
  }

  /** An answer asking to stop before six questions adds the answer, the system note and
      the reply, and ends the interview without counting. */
  lemma EarlyEnd(sessions: map<string, Session>, id: string, userResponse: string,
                 resume: string, jobDescription: string, newId: string, reply: string)
    requires id in sessions && !sessions[id].complete && userResponse != []
    requires WantsToEnd(userResponse) && sessions[id].questionCount < 6
    ensures var (after, response) := Handle(sessions, Some(id), userResponse, resume, jobDescription, newId, reply);
      var s := sessions[id];
      after.Keys == sessions.Keys &&
      after[id].messages == s.messages + [User(userResponse), User(EarlyEndNote), Assistant(reply)] &&
      |after[id].messages| == |s.messages| + 3 &&
      after[id].complete && after[id].questionCount == s.questionCount &&
      response == Response(Turn(reply, id, s.questionCount, true), 200)
  {
  }

  /** The answer after the fifth counted question goes in once, carrying the system note,
      and ends the interview: two messages are added, not three. */
  lemma SixthAnswer(sessions: map<string, Session>, id: string, userResponse: string,
                    resume: string, jobDescription: string, newId: string, reply: string)
    requires id in sessions && !sessions[id].complete && userResponse != []
    requires !(WantsToEnd(userResponse) && sessions[id].questionCount < 6) && sessions[id].questionCount >= 5
    ensures var (after, response) := Handle(sessions, Some(id), userResponse, resume, jobDescription, newId, reply);
      var s := sessions[id];
      after[id].messages == s.messages + [User(userResponse + SixthNote), Assistant(reply)] &&
      |after[id].messages| == |s.messages| + 2 &&
      after[id].complete && after[id].questionCount == s.questionCount
  {
  }

  /** An ordinary exchange adds the answer and the reply; the count grows by one exactly when
      the reply holds a question mark, and the interview ends exactly when that makes six
      questions or the reply wraps up. */
  lemma OrdinaryTurn(sessions: map<string, Session>, id: string, userResponse: string,
                     resume: string, jobDescription: string, newId: string, reply: string)
    requires id in sessions && !sessions[id].complete && userResponse != []
    requires !(WantsToEnd(userResponse) && sessions[id].questionCount < 6) && sessions[id].questionCount < 5
    ensures var (after, response) := Handle(sessions, Some(id), userResponse, resume, jobDescription, newId, reply);
      var s := sessions[id];
      after[id].messages == s.messages + [User(userResponse), Assistant(reply)] &&
      after[id].questionCount == s.questionCount + (if '?' in reply then 1 else 0) &&
      (after[id].complete <==> WrapsUp(reply))
  {
  }

  /** Whatever the request, no session ever counts more than five questions: at five the
      next answer ends the interview, and a finished interview counts nothing more. */
  lemma CountStaysBounded(sessions: map<string, Session>, sessionId: Option<string>, userResponse: string,
                           resume: string, jobDescription: string, newId: string, reply: string)
    requires CountsBounded(sessions)
    ensures CountsBounded(Handle(sessions, sessionId, userResponse, resume, jobDescription, newId, reply).0)
  {
    if !IsNew(sessions, sessionId) {
      var id := sessionId.value;
      var s := sessions[id];
      if !s.complete && userResponse != [] {
        var u := UserTurn(s, userResponse);
        assert u.questionCount == s.questionCount <= 5;
        assert u.questionCount >= 5 ==> u.complete;
        assert AssistantTurn(u, reply).questionCount <= 5;
      }
    }
  }

  /** The session a request writes, if any. */
  function Written(sessions: map<string, Session>, sessionId: Option<string>, userResponse: string,
                   resume: string, jobDescription: string, newId: string): Option<string>
  {
    if IsNew(sessions, sessionId) then
      if resume == [] || jobDescription == [] then None else Some(newId)
    else if sessions[sessionId.value].complete || userResponse == [] then None
    else Some(sessionId.value)
  }

  /** Sessions are never dropped, only the written one changes, and a finished interview is
      never reopened by continuing it; only a new interview given the id of a finished one
      replaces it. A reply that wraps up always finishes the written session. */
  lemma CompletionSticks(sessions: map<string, Session>, sessionId: Option<string>, userResponse: string,
                         resume: string, jobDescription: string, newId: string, reply: string)
    ensures var (after, response) := Handle(sessions, sessionId, userResponse, resume, jobDescription, newId, reply);
      var w := Written(sessions, sessionId, userResponse, resume, jobDescription, newId);
      sessions.Keys <= after.Keys &&
      (forall id :: id in sessions && w != Some(id) ==> after[id] == sessions[id]) &&
      (forall id :: id in sessions && sessions[id].complete && !(IsNew(sessions, sessionId) && id == newId) ==>
        after[id] == sessions[id]) &&
      (w.Some? ==>
        (after.Keys == sessions.Keys + {w.value} && response.body.Turn? &&
         response.body.sessionId == w.value && response.body.complete == after[w.value].complete &&
         response.body.questionCount == after[w.value].questionCount &&
         (WrapsUp(reply) ==> after[w.value].complete)))
  {
  }

  /** The server's session store. */
  class InterviewSessions {
    var sessions: map<string, Session>

    ghost predicate Valid()
      reads this
    {
      CountsBounded(sessions)
    }

    constructor ()
      ensures sessions == map[] && Valid()
    {
      sessions := map[];
    }

    /** `handle_interview_request`, updating the session in place step by step. */
    method HandleInterviewRequest(sessionId: Option<string>, userResponse: string, resume: string,
                                  jobDescription: string, newId: string, reply: string) returns (response: Response)
      modifies this
      ensures (sessions, response) == Handle(old(sessions), sessionId, userResponse, resume, jobDescription, newId, reply)
      ensures old(Valid()) ==> Valid()
    {
      ghost var before := sessions;
      var id: string;
      if sessionId.None? || sessionId.value !in sessions {
        if resume == [] || jobDescription == [] {
          return Response(Failure(MissingContext), 400);
        }
        id := newId;
        sessions := sessions[id := Session([], 0, false, resume, jobDescription)];
        sessions := sessions[id := sessions[id].(messages := sessions[id].messages + [User(Greeting)])];
        assert sessions[id] == Opened(resume, jobDescription);
      } else {
        id := sessionId.value;
        var data := sessions[id];
        ghost var s := data;
        if data.complete {
          return Response(AlreadyComplete(AlreadyCompleted, id), 200);
        }
        if userResponse == [] {
          return Response(Failure(MissingResponse), 400);
        }
        data := data.(messages := data.messages + [User(userResponse)]);
        var forceEnd := WantsToEnd(userResponse);
        if forceEnd && data.questionCount < 6 {
          data := data.(messages := data.messages + [User(EarlyEndNote)], complete := true);
        } else if data.questionCount >= 5 {
          data := data.(messages := data.messages[|data.messages| - 1 := User(userResponse + SixthNote)], complete := true);
          assert data.messages == s.messages + [User(userResponse + SixthNote)];
        }
        assert data == UserTurn(s, userResponse);
        sessions := sessions[id := data];
      }
      var data := sessions[id];
      ghost var entering := data;
      data := data.(messages := data.messages + [Assistant(reply)]);
      if !data.complete && '?' in reply {
        data := data.(questionCount := data.questionCount + 1);
        if data.questionCount >= 6 {
          data := data.(complete := true);
        }
      }
      var isComplete := data.complete || WrapsUp(reply);
      if isComplete {
        data := data.(complete := true);
      }
      assert data == AssistantTurn(entering, reply);
      sessions := sessions[id := data];
      response := Response(Turn(reply, id, data.questionCount, data.complete), 200);
      assert sessions == before[id := data];
      assert (sessions, response) == Finish(before, id, entering, reply);
      if old(Valid()) {
        CountStaysBounded(before, sessionId, userResponse, resume, jobDescription, newId, reply);
      }
    }
  }
}

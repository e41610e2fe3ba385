/**
 * The teacher's dashboard: a form holding the question text, between two and six options each
 * flagged correct or not, and a time limit; the start and end buttons; and the flag that keeps
 * the teacher from starting a question while one is running.
 */
module TeacherDashboardPage {
  import opened Wrappers
  import opened Text
  import opened PollModel
  import opened PollLifecycle
  import opened Protocol
  import opened Store
  import SocketSlice
  import PollSlice

  const MinOptions := 2
  const MaxOptions := 6

  const QuestionRequired := "Please enter a question"
  const TooFewOptions := "Please add at least 2 options"
  const CannotStart := "Cannot start new question. Previous question is still active or not all students have answered."
  const NothingToEnd := "No active question to end."

  /** One row of the option form. */
  datatype FormOption = FormOption(text: string, isCorrect: bool)

  const BlankOption := FormOption("", false)

  /** The options a fresh form shows: two blank rows. */
  const FreshOptions := [BlankOption, BlankOption]

  /** "Add option": one blank row at the end, unless there are six already. */
  function AddOption(options: seq<FormOption>): (r: seq<FormOption>)
    ensures |options| < MaxOptions ==> |r| == |options| + 1 && r[..|options|] == options && r[|options|] == BlankOption
    ensures |options| >= MaxOptions ==> r == options
    ensures |options| <= MaxOptions ==> |r| <= MaxOptions
  {
    if |options| < MaxOptions then options + [BlankOption] else options
  }

  /** `s.filter((_, i) => i !== index)`. */
  function WithoutIndex<T>(s: seq<T>, index: int): (r: seq<T>)
    ensures 0 <= index < |s| ==> r == s[..index] + s[index + 1..]
    ensures !(0 <= index < |s|) ==> r == s
  {
    if s == [] then []
    else
      var rest := WithoutIndex(s[1..], index - 1);
      if index == 0 then rest
      else
        assert 0 < index < |s| ==> rest == s[1..][..index - 1] + s[1..][index..];
        assert 0 < index < |s| ==> [s[0]] + rest == s[..index] + s[index + 1..];
        [s[0]] + rest
  }

  /** "Remove option `index`": only while more than two rows remain; the others keep their order. */
  function RemoveOption(options: seq<FormOption>, index: int): (r: seq<FormOption>)
    ensures |options| <= MinOptions || !(0 <= index < |options|) ==> r == options
    ensures |options| > MinOptions && 0 <= index < |options| ==>
              && |r| == |options| - 1
              && (forall i :: 0 <= i < index ==> r[i] == options[i])
              && (forall i :: index <= i < |r| ==> r[i] == options[i + 1])
    ensures |options| >= MinOptions ==> |r| >= MinOptions
  {
    if |options| > MinOptions then WithoutIndex(options, index) else options
  }

  /** Adding a row and removing it again gives the form back. */
  lemma RemoveUndoesAdd(options: seq<FormOption>)
    requires MinOptions <= |options| < MaxOptions
    ensures RemoveOption(AddOption(options), |options|) == options
  {
    var added := AddOption(options);
    assert added[..|options|] == options;
  }

  /** Editing keeps the number of rows between two and six. */
  lemma EditsKeepBounds(options: seq<FormOption>, index: int)
    requires MinOptions <= |options| <= MaxOptions
    ensures MinOptions <= |AddOption(options)| <= MaxOptions
    ensures MinOptions <= |RemoveOption(options, index)| <= MaxOptions
  {
  }

  /** `options.filter(opt => opt.text.trim())`: the rows with visible text, in their order. */
  function ValidOptions(options: seq<FormOption>): (r: seq<FormOption>)
    ensures |r| <= |options|
    ensures forall i :: 0 <= i < |r| ==> !IsBlank(r[i].text)
  {
    if options == [] then []
    else (if IsBlank(options[0].text) then [] else [options[0]]) + ValidOptions(options[1..])
  }

  /** The filter keeps exactly the rows with visible text: nothing else, and none of those is lost. */
  lemma {:induction false} ValidOptionsMembers(options: seq<FormOption>)
    ensures forall o :: o in ValidOptions(options) ==> o in options
    ensures forall o :: o in options && !IsBlank(o.text) ==> o in ValidOptions(options)
    decreases |options|
  {
    if options != [] {
      ValidOptionsMembers(options[1..]);
      var head := if IsBlank(options[0].text) then [] else [options[0]];
      assert ValidOptions(options) == head + ValidOptions(options[1..]);
      forall o | o in options && !IsBlank(o.text) ensures o in ValidOptions(options) {
        if o != options[0] {
          assert o in options[1..];
        }
      }
    }
  }

  /** Filtering a form is filtering its parts: the kept rows stay in order. */
  lemma {:induction false} ValidOptionsAppend(a: seq<FormOption>, b: seq<FormOption>)
    ensures ValidOptions(a + b) == ValidOptions(a) + ValidOptions(b)
    decreases |a|
  {
    if a == [] {
      assert a + b == b;
    } else {
      var head := if IsBlank(a[0].text) then [] else [a[0]];
      assert (a + b)[0] == a[0];
      assert (a + b)[1..] == a[1..] + b;
      assert ValidOptions(a + b) == head + ValidOptions(a[1..] + b);
      ValidOptionsAppend(a[1..], b);
      assert head + (ValidOptions(a[1..]) + ValidOptions(b)) == (head + ValidOptions(a[1..])) + ValidOptions(b);
    }
  }

  /** The options as the start request carries them: text as typed, and a definite correctness flag. */
  function RequestOptions(options: seq<FormOption>): (r: seq<OptionSpec>)
    ensures |r| == |options|
    ensures forall i :: 0 <= i < |r| ==> r[i] == OptionSpec(options[i].text, Some(options[i].isCorrect))
  {
    seq(|options|, i requires 0 <= i < |options| => OptionSpec(options[i].text, Some(options[i].isCorrect)))
  }

  datatype StartRequest = StartRequest(pollId: string, question: QuestionSpec)

  /** What a button press gives: an alert, a request sent, or nothing sent for want of a socket. */
  datatype Outcome<R> = Alert(message: string) | Sent(request: R) | NoSocket

  /** What the form only ever sends: a poll, a visible question and at least two visible options, each flagged. */
  predicate RequestWellFormed(req: StartRequest) {
    && req.pollId != ""
    && !IsBlank(req.question.text)
    && |req.question.options| >= MinOptions
    && req.question.timeLimit.Some?
    && forall i :: 0 <= i < |req.question.options| ==>
         !IsBlank(req.question.options[i].text) && req.question.options[i].isCorrect.Some?
  }

  /**
   * A request from the form passes the server's start checks whenever no question is running
   * there, and the question it opens can be stored.
   */
  lemma WellFormedRequestAccepted(polls: map<string, Poll>, req: StartRequest, questionId: string, now: Time)
    requires RequestWellFormed(req) && req.pollId in polls
    requires !polls[req.pollId].isQuestionActive
    requires Savable(polls[req.pollId]) && questionId != ""
    ensures StartCheck(polls, TeacherToken, req.pollId, Some(req.question)) == Proceed
    ensures Savable(WithStartedQuestion(polls[req.pollId], OpenQuestion(req.question, questionId, now)))
  {
    StartSavable(polls[req.pollId], req.question, questionId, now);
  }

  /**
   * The question a restored dashboard treats as running, as written: the poll's current
   * question, whether or not it has ended.
   */
  function RestoredQuestionAsWritten(p: Poll): (r: Option<nat>)
    ensures r.Some? <==> IsSet(p.currentQuestionId) && FindQuestion(p.questions, p.currentQuestionId.value).Some?
    ensures r.Some? ==> r.value < |p.questions| && Some(p.questions[r.value].questionId) == p.currentQuestionId
  {
    if IsSet(p.currentQuestionId) then FindQuestion(p.questions, p.currentQuestionId.value) else None
  }

  /**
   * As written, a dashboard restored after a question has ended still takes that question for a
   * running one, and so refuses to start another, though the server would accept it.
   */
  lemma RestoreAsWrittenBlocksAfterEnd(polls: map<string, Poll>, pollId: string, spec: QuestionSpec, now: Time)
    requires pollId != "" && pollId in polls
    requires PollInvariant(polls[pollId]) && polls[pollId].isQuestionActive
    ensures var ended := Finalised(polls[pollId], CurrentIndex(polls[pollId]), now);
            && RestoredQuestionAsWritten(ended).Some?
            && StartCheck(polls[pollId := ended], TeacherToken, pollId, Some(spec)) == Proceed
  {
    var p := polls[pollId];
    FinaliseKeepsInvariant(p, CurrentIndex(p), now);
  }

  /** The question a restored dashboard treats as running: the current question of an active poll. */
  function RestoredQuestion(p: Poll): (r: Option<nat>)
    ensures r.Some? ==> p.isQuestionActive && r == RestoredQuestionAsWritten(p)
    ensures !p.isQuestionActive ==> r.None?
  {
    if p.isQuestionActive then RestoredQuestionAsWritten(p) else None
  }

  /**
   * The corrected restore blocks a start exactly when the server would refuse one with "Cannot
   * start a new question until the current one is ended."
   */
  lemma RestoreBlocksExactlyWhenServerRefuses(polls: map<string, Poll>, pollId: string, spec: QuestionSpec)
    requires pollId != "" && pollId in polls && PollInvariant(polls[pollId])
    ensures RestoredQuestion(polls[pollId]).Some?
            <==> StartCheck(polls, TeacherToken, pollId, Some(spec)) == Reject("Cannot start a new question until the current one is ended.")
  {
  }

  class TeacherDashboard {
    var pollId: string
    var questionText: string
    var options: seq<FormOption>
    var timeLimit: int
    var canStartQuestion: bool
    const socketState: SocketSlice.SocketState
    const pollState: PollSlice.PollState

    /** The form always has between two and six option rows. */
    ghost predicate Valid()
      reads this
    {
      MinOptions <= |options| <= MaxOptions
    }

    /** A fresh dashboard: empty question, two blank options, a 60-second limit, starting allowed. */
    constructor(pollId: string, socketState: SocketSlice.SocketState, pollState: PollSlice.PollState)
      ensures this.pollId == pollId && this.socketState == socketState && this.pollState == pollState
      ensures questionText == "" && options == FreshOptions && timeLimit == DefaultTimeLimit && canStartQuestion
      ensures Valid()
    {
      this.pollId := pollId;
      this.socketState := socketState;
      this.pollState := pollState;
      questionText := "";
      options := FreshOptions;
      timeLimit := DefaultTimeLimit;
      canStartQuestion := true;
    }

    method SetQuestionText(text: string)
      modifies this`questionText
      ensures questionText == text
    {
      questionText := text;
    }

    method SetTimeLimit(seconds: int)
      modifies this`timeLimit
      ensures timeLimit == seconds
    {
      timeLimit := seconds;
    }

    method HandleAddOption()
      modifies this`options
      ensures options == AddOption(old(options))
      ensures old(Valid()) ==> Valid()
    {
      if |options| < MaxOptions {
        options := options + [BlankOption];
      }
    }

    method HandleRemoveOption(index: int)
      modifies this`options
      ensures options == RemoveOption(old(options), index)
      ensures old(Valid()) ==> Valid()
    {
      if |options| > MinOptions {
        options := WithoutIndex(options, index);
      }
    }

    /** Typing in row `index` replaces its text; every other row and its flag stay as they were. */
    method EditOptionText(index: nat, text: string)
      requires index < |options|
      modifies this`options
      ensures options == old(options)[index := FormOption(text, old(options)[index].isCorrect)]
      ensures old(Valid()) ==> Valid()
    {
      options := options[index := options[index].(text := text)];
    }

    /** The "Yes"/"No" radio of row `index` sets its flag; the rest stays as it was. */
    method SetOptionCorrect(index: nat, isCorrect: bool)
      requires index < |options|
      modifies this`options
      ensures options == old(options)[index := FormOption(old(options)[index].text, isCorrect)]
      ensures old(Valid()) ==> Valid()
    {
      options := options[index := options[index].(isCorrect := isCorrect)];
    }

    /**
     * "Start question": refused with an alert, form untouched, for a missing poll or question,
     * fewer than two visible options, or while a question runs; otherwise the visible options are
     * sent, the form is reset and further starts are held back.
     */
    method HandleStartQuestion() returns (outcome: Outcome<StartRequest>)
      modifies this`questionText, this`options, this`canStartQuestion
      ensures pollId == "" || IsBlank(old(questionText)) ==> outcome == Alert(QuestionRequired)
      ensures pollId != "" && !IsBlank(old(questionText)) && |ValidOptions(old(options))| < MinOptions
              ==> outcome == Alert(TooFewOptions)
      ensures pollId != "" && !IsBlank(old(questionText)) && |ValidOptions(old(options))| >= MinOptions && !old(canStartQuestion)
              ==> outcome == Alert(CannotStart)
      ensures outcome.Alert? ==> questionText == old(questionText) && options == old(options) && canStartQuestion == old(canStartQuestion)
      ensures !outcome.Alert? ==>
                && questionText == "" && options == FreshOptions && !canStartQuestion
                && (outcome.Sent? <==> socketState.socket.Some?)
      ensures outcome.Sent? ==>
                && outcome.request == StartRequest(pollId, QuestionSpec(old(questionText), RequestOptions(ValidOptions(old(options))), Some(timeLimit)))
                && RequestWellFormed(outcome.request)
      ensures !outcome.Alert? ==> old(canStartQuestion)
    {
      if pollId == "" || Trim(questionText) == [] {
        return Alert(QuestionRequired);
      }
      var validOptions := ValidOptions(options);
      if |validOptions| < MinOptions {
        return Alert(TooFewOptions);
      }
      if !canStartQuestion {
        return Alert(CannotStart);
      }
      outcome := NoSocket;
      if socketState.socket.Some? {
        outcome := Sent(StartRequest(pollId, QuestionSpec(questionText, RequestOptions(validOptions), Some(timeLimit))));
      }
      questionText := "";
      options := FreshOptions;
      canStartQuestion := false;
    }

    /** "End question": an alert without a poll or a question on screen, else the end request. */
    method HandleEndQuestion() returns (outcome: Outcome<string>)
      ensures pollId == "" || pollState.currentQuestion.None? ==> outcome == Alert(NothingToEnd)
      ensures pollId != "" && pollState.currentQuestion.Some? ==>
                outcome == if socketState.socket.Some? then Sent(pollId) else NoSocket
    {
      if pollId == "" || pollState.currentQuestion.None? {
        return Alert(NothingToEnd);
      }
      outcome := if socketState.socket.Some? then Sent(pollId) else NoSocket;
    }

    /**
     * Reopening the dashboard on a poll: when the poll can be fetched it is shown, a running
     * question is put back on screen and holds back starts, and the teacher rejoins the room.
     * Without a poll id, a login or a socket nothing happens; a failed fetch changes nothing.
     */
    method RestorePoll(signedIn: bool, fetched: Option<Poll>) returns (teacherJoin: Option<string>)
      modifies this`canStartQuestion, pollState
      ensures pollId == "" || !signedIn || socketState.socket.None? || fetched.None? ==>
                teacherJoin.None? && pollState.View() == old(pollState.View()) && canStartQuestion == old(canStartQuestion)
      ensures pollId != "" && signedIn && socketState.socket.Some? && fetched.Some? ==>
                && teacherJoin == Some(pollId)
                && var p := fetched.value;
                   match RestoredQuestion(p) {
                     case None =>
                       pollState.View() == old(pollState.View()).(currentPoll := Some(p))
                       && canStartQuestion == old(canStartQuestion)
                     case Some(k) =>
                       pollState.View() == old(pollState.View()).(currentPoll := Some(p), currentQuestion :=
                         Some(PollSlice.QuestionView(p.questions[k].questionId, p.questions[k].text,
                                                     OptionTexts(p.questions[k].options), p.questions[k].timeLimit)))
                       && !canStartQuestion
                   }
    {
      if pollId == "" || !signedIn || socketState.socket.None? || fetched.None? {
        return None;
      }
      var p := fetched.value;
      pollState.SetCurrentPoll(Some(p));
      match RestoredQuestion(p) {
        case None =>
        case Some(k) =>
          var q := p.questions[k];
          pollState.SetCurrentQuestion(Some(PollSlice.QuestionView(q.questionId, q.text, OptionTexts(q.options), q.timeLimit)));
          canStartQuestion := false;
      }
      teacherJoin := Some(pollId);
    }

    /** The connection is up. */
    method OnConnect()
      modifies socketState
      ensures socketState.View() == old(socketState.View()).(isConnected := true)
    {
      socketState.SetConnected(true);
    }

    /** The connection dropped. */
    method OnDisconnect()
      modifies socketState
      ensures socketState.View() == old(socketState.View()).(isConnected := false)
    {
      socketState.SetConnected(false);
    }

    /** A chat message for the poll joins the end of the conversation. */
    method OnChatMessage(data: Payload)
      requires data.ChatBroadcast?
      modifies socketState
      ensures socketState.View() == old(socketState.View()).(chatMessages :=
                old(socketState.chatMessages) + [ChatMessage(data.message, data.sender, data.role, data.timestamp)])
    {
      socketState.AddChatMessage(ChatMessage(data.message, data.sender, data.role, data.timestamp));
    }

    /** The roster changed. */
    method OnParticipantsUpdate(data: Payload)
      requires data.ParticipantsUpdate?
      modifies pollState
      ensures pollState.View() == old(pollState.View()).(participants := data.participants)
    {
      pollState.SetParticipants(data.participants);
    }

    /** Live results after an answer. */
    method OnResultUpdate(data: Payload)
      requires data.ResultUpdate?
      modifies pollState
      ensures pollState.View() == old(pollState.View()).(results := Some(data.results))
    {
      pollState.SetResults(Some(data.results));
    }

    /** A question started: show it, drop the previous results, and hold back further starts. */
    method OnQuestionStarted(data: Payload)
      requires data.QuestionStarted?
      modifies this`canStartQuestion, pollState
      ensures pollState.View() == old(pollState.View()).(currentQuestion :=
                Some(PollSlice.QuestionView(data.questionId, data.questionText, data.options, data.timeLimit)),
                results := None)
      ensures !canStartQuestion
    {
      pollState.SetCurrentQuestion(Some(PollSlice.QuestionView(data.questionId, data.questionText, data.options, data.timeLimit)));
      pollState.SetResults(None);
      canStartQuestion := false;
    }

    /** A question ended: show the final results and allow the next start. */
    method OnQuestionEnded(data: Payload)
      requires data.QuestionEnded?
      modifies this`canStartQuestion, pollState
      ensures pollState.View() == old(pollState.View()).(results := Some(data.results))
      ensures canStartQuestion
    {
      pollState.SetResults(Some(data.results));
      canStartQuestion := true;
    }
  }
}

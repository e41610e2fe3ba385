/**
 * The student's poll page: it shows the running question with its countdown, sends the chosen
 * option once, and keeps a score from the private feedback the server sends after each answer,
 * counting every question at most once.
 */
module StudentPollPage {
  import opened Wrappers
  import opened Decimal
  import opened Tally
  import opened Protocol
  import opened PollLifecycle
  import PollModel
  import SocketSlice
  import PollSlice

  /** `seconds % 60` as JavaScript computes it: the remainder takes the sign of the dividend. */
  function JsRemainder60(seconds: int): (r: int)
    ensures seconds >= 0 ==> 0 <= r < 60 && r == seconds % 60
    ensures seconds < 0 ==> -60 < r <= 0
  {
    if seconds >= 0 then seconds % 60 else -((-seconds) % 60)
  }

  /**
   * `t` is "mm:ss" for `n` seconds: digits, a colon, two digits of seconds below 60, and the
   * minutes and seconds together make `n`.
   */
  predicate ReadsBackAs(t: string, n: int) {
    && |t| >= 5 && t[|t| - 3] == ':'
    && IsDigits(t[..|t| - 3]) && IsDigits(t[|t| - 2..])
    && ValueOf(t[|t| - 2..]) < 60
    && 60 * ValueOf(t[..|t| - 3]) + ValueOf(t[|t| - 2..]) == n
  }

  /**
   * The countdown as "mm:ss": floored minutes and the remainder, each padded to two digits. For a
   * countdown that is not negative it reads back as the seconds it shows: two digits of seconds
   * below 60 after the colon, and the whole minutes before it.
   */
  function FormatTime(seconds: int): (r: string)
    ensures |r| >= 5
    ensures seconds >= 0 ==> ReadsBackAs(r, seconds)
  {
    var mins := PadStart2(IntToString(seconds / 60));
    var secs := PadStart2(IntToString(JsRemainder60(seconds)));
    if seconds < 0 then mins + ":" + secs
    else
      ClockReadsBack(seconds, mins, secs);
      mins + ":" + secs
  }

  /** A number below 100 has at most two digits. */
  lemma TwoDigitsAtMost(n: nat)
    requires n < 100
    ensures |NatToString(n)| <= 2
  {
    if n >= 10 {
      assert NatToString(n) == NatToString(n / 10) + [DigitChar(n % 10)];
    }
  }

  /** Minutes and seconds of a countdown that is not negative, padded and joined, read back as the countdown. */
  lemma ClockReadsBack(seconds: nat, mins: string, secs: string)
    requires mins == PadStart2(NatToString(seconds / 60)) && secs == PadStart2(NatToString(seconds % 60))
    ensures ReadsBackAs(mins + ":" + secs, seconds)
  {
    assert |secs| == 2 by {
      TwoDigitsAtMost(seconds % 60);
    }
    assert IsDigits(mins) && ValueOf(mins) == seconds / 60 by {
      ValueOfPadded(seconds / 60);
    }
    assert IsDigits(secs) && ValueOf(secs) == seconds % 60 by {
      ValueOfPadded(seconds % 60);
    }
    ClockParts(mins, secs);
  }

  /** "mm:ss" splits back into its two parts around the colon third from the end. */
  lemma ClockParts(mins: string, secs: string)
    requires |mins| >= 2 && |secs| == 2
    requires IsDigits(mins) && IsDigits(secs)
    ensures var t := mins + ":" + secs;
            && |t| >= 5 && t[|t| - 3] == ':'
            && IsDigits(t[..|t| - 3]) && IsDigits(t[|t| - 2..])
            && ValueOf(t[..|t| - 3]) == ValueOf(mins) && ValueOf(t[|t| - 2..]) == ValueOf(secs)
  {
    var t := mins + ":" + secs;
    assert t[..|t| - 3] == mins;
    assert t[|t| - 2..] == secs;
  }

  /** `data.timeLeft || data.timeLimit`: a missing or zero count shows the whole limit. */
  function StartingTimeLeft(timeLeft: Option<int>, timeLimit: int): (r: int)
    ensures timeLeft.Some? && timeLeft.value != 0 ==> r == timeLeft.value
    ensures timeLeft.None? || timeLeft.value == 0 ==> r == timeLimit
  {
    if timeLeft.Some? && timeLeft.value != 0 then timeLeft.value else timeLimit
  }

  /**
   * What a late joiner's page shows against what the server computed: the same count while time
   * remains, but the whole limit again once the server's count has reached zero.
   */
  lemma LateJoinCountdownShown(timeLimit: int, startedAt: int, now: int)
    requires now >= startedAt && timeLimit >= 0
    ensures var shown := StartingTimeLeft(Some(LateJoinTimeLeft(timeLimit, startedAt, now)), timeLimit);
            && 0 <= shown <= timeLimit
            && (LateJoinTimeLeft(timeLimit, startedAt, now) > 0 ==> shown == LateJoinTimeLeft(timeLimit, startedAt, now))
            && (LateJoinTimeLeft(timeLimit, startedAt, now) == 0 ==> shown == timeLimit)
  {
  }

  /** The counters kept from feedback, and the questions already counted. */
  datatype Score = Score(correct: nat, attempted: nat, answered: set<string>)

  const NoScore := Score(0, 0, {})

  /** No more correct than attempted answers, and no more counted questions than attempts. */
  predicate ScoreValid(s: Score) {
    s.correct <= s.attempted && |s.answered| <= s.attempted && "" !in s.answered
  }

  /** Feedback about a question already counted is dropped; feedback without an id never is. */
  predicate Ignored(s: Score, questionId: string) {
    questionId != "" && questionId in s.answered
  }

  /** The score after one piece of feedback. */
  function AfterFeedback(s: Score, questionId: string, isCorrect: bool): (r: Score)
    ensures Ignored(s, questionId) ==> r == s
    ensures !Ignored(s, questionId) ==> r.attempted == s.attempted + 1
    ensures !Ignored(s, questionId) ==> r.correct == if isCorrect then s.correct + 1 else s.correct
    ensures questionId != "" ==> questionId in r.answered
    ensures r.answered - {questionId} == s.answered - {questionId}
  {
    if Ignored(s, questionId) then s
    else
      Score(if isCorrect then s.correct + 1 else s.correct,
            s.attempted + 1,
            if questionId != "" then s.answered + {questionId} else s.answered)
  }

  /** Feedback keeps the counters consistent. */
  lemma AfterFeedbackKeepsValid(s: Score, questionId: string, isCorrect: bool)
    requires ScoreValid(s)
    ensures ScoreValid(AfterFeedback(s, questionId, isCorrect))
  {
    if !Ignored(s, questionId) && questionId != "" {
      assert |s.answered + {questionId}| <= |s.answered| + 1;
    }
  }

  /** A question is counted at most once: repeated feedback about it changes nothing. */
  lemma FeedbackCountedOnce(s: Score, questionId: string, first: bool, again: bool)
    requires questionId != ""
    ensures AfterFeedback(AfterFeedback(s, questionId, first), questionId, again)
            == AfterFeedback(s, questionId, first)
  {
  }

  datatype Feedback = Feedback(questionId: string, isCorrect: bool)

  /** The score after a whole run of feedback, starting from nothing. */
  function ScoreAfter(fs: seq<Feedback>): Score {
    if fs == [] then NoScore
    else AfterFeedback(ScoreAfter(fs[..|fs| - 1]), fs[|fs| - 1].questionId, fs[|fs| - 1].isCorrect)
  }

  /**
   * With every feedback naming its question, the page counts exactly the distinct questions it
   * heard about, and no more of them correct.
   */
  lemma {:induction false} ScoreCountsQuestions(fs: seq<Feedback>)
    requires forall i :: 0 <= i < |fs| ==> fs[i].questionId != ""
    ensures ScoreAfter(fs).answered == set i | 0 <= i < |fs| :: fs[i].questionId
    ensures ScoreAfter(fs).attempted == |ScoreAfter(fs).answered|
    ensures ScoreAfter(fs).correct <= ScoreAfter(fs).attempted
    decreases |fs|
  {
    if fs != [] {
      var init, last := fs[..|fs| - 1], fs[|fs| - 1];
      assert fs == init + [last];
      ScoreCountsQuestions(init);
      var s := ScoreAfter(init);
      assert ScoreAfter(fs).answered == s.answered + {last.questionId};
      assert (set i | 0 <= i < |fs| :: fs[i].questionId) == s.answered + {last.questionId} by {
        QuestionIdsSnoc(init, last);
      }
      if last.questionId !in s.answered {
        assert |s.answered + {last.questionId}| == |s.answered| + 1;
      }
    }
  }

  /** The questions fed back in a run extended by one step are those before it plus that step's. */
  lemma QuestionIdsSnoc(init: seq<Feedback>, last: Feedback)
    ensures (set i | 0 <= i < |init + [last]| :: (init + [last])[i].questionId)
            == (set i | 0 <= i < |init| :: init[i].questionId) + {last.questionId}
  {
    var fs := init + [last];
    var before := set i | 0 <= i < |init| :: init[i].questionId;
    forall x | x in (set i | 0 <= i < |fs| :: fs[i].questionId) ensures x in before + {last.questionId} {
      var i :| 0 <= i < |fs| && fs[i].questionId == x;
      if i < |init| {
        assert init[i] == fs[i];
      }
    }
    assert fs[|init|] == last;
    forall x | x in before ensures x in (set i | 0 <= i < |fs| :: fs[i].questionId) {
      var i :| 0 <= i < |init| && init[i].questionId == x;
      assert fs[i] == init[i];
    }
  }

  /** A pop-up message. */
  datatype Toast = Success(text: string) | Failure(text: string)

  /** The success message, as the page's source stores it: the emoji's bytes read as four characters. */
  const CorrectToast := "Correct answer! \U{00F0}\U{0178}\U{017D}\U{2030}"

  /** The pop-up for counted feedback: success when right, else the right answer when one is named. */
  function FeedbackToast(isCorrect: bool, correctAnswer: Option<string>): (t: Toast)
    ensures isCorrect <==> t.Success?
    ensures isCorrect ==> t.text == CorrectToast
    ensures !isCorrect && correctAnswer.Some? && correctAnswer.value != "" ==> t.text == "Correct answer: " + correctAnswer.value
    ensures !isCorrect && (correctAnswer.None? || correctAnswer.value == "") ==> t.text == "That was incorrect."
  {
    if isCorrect then Success(CorrectToast)
    else if correctAnswer.Some? && correctAnswer.value != "" then Failure("Correct answer: " + correctAnswer.value)
    else Failure("That was incorrect.")
  }

  /** What the page sends to answer. */
  datatype SubmitRequest = SubmitRequest(pollId: string, questionId: string, optionIndex: int, studentName: string,
                                         socketId: string, tabId: string)

  /** What the page sends once connected, to join its poll. */
  datatype JoinRequest = JoinRequest(pollId: string, name: string, tabId: string)

  class StudentPage {
    const pollId: string
    const studentName: string
    const tabId: string
    const socketState: SocketSlice.SocketState
    const pollState: PollSlice.PollState
    var selectedOption: Option<int>
    var waitingForQuestion: bool
    var correctCount: nat
    var attemptedCount: nat
    var answeredQuestionIds: set<string>

    function Scoreboard(): Score
      reads this
    {
      Score(correctCount, attemptedCount, answeredQuestionIds)
    }

    ghost predicate Valid()
      reads this
    {
      ScoreValid(Scoreboard())
    }

    /** The page for `pollId`; the student is called "Student" when the address names nobody. */
    constructor(pollId: string, nameParam: Option<string>, tabId: string,
                socketState: SocketSlice.SocketState, pollState: PollSlice.PollState)
      ensures this.pollId == pollId && this.tabId == tabId
      ensures studentName == if nameParam.Some? && nameParam.value != "" then nameParam.value else "Student"
      ensures this.socketState == socketState && this.pollState == pollState
      ensures selectedOption.None? && waitingForQuestion
      ensures Scoreboard() == NoScore && Valid()
    {
      this.pollId := pollId;
      this.studentName := if nameParam.Some? && nameParam.value != "" then nameParam.value else "Student";
      this.tabId := tabId;
      this.socketState := socketState;
      this.pollState := pollState;
      selectedOption := None;
      waitingForQuestion := true;
      correctCount := 0;
      attemptedCount := 0;
      answeredQuestionIds := {};
    }

    /** The connection is up: mark it connected and ask to join the poll under this tab. */
    method OnConnect() returns (request: JoinRequest)
      modifies socketState
      ensures socketState.View() == old(socketState.View()).(isConnected := true)
      ensures request.pollId == pollId && request.name == studentName && request.tabId == tabId
    {
      socketState.SetConnected(true);
      request := JoinRequest(pollId, studentName, tabId);
    }

    /** The connection dropped. */
    method OnDisconnect()
      modifies socketState
      ensures socketState.View() == old(socketState.View()).(isConnected := false)
    {
      socketState.SetConnected(false);
    }

    /** A chat message for the poll joins the end of the conversation. */
    method OnChatMessage(data: Payload)
      requires data.ChatBroadcast?
      modifies socketState
      ensures socketState.View() == old(socketState.View()).(chatMessages :=
                old(socketState.chatMessages) + [PollModel.ChatMessage(data.message, data.sender, data.role, data.timestamp)])
    {
      socketState.AddChatMessage(PollModel.ChatMessage(data.message, data.sender, data.role, data.timestamp));
    }

    /** The teacher removed this student: the page records it before leaving for the notice. */
    method OnKickedOut()
      modifies socketState
      ensures socketState.View() == old(socketState.View()).(kickedOut := true)
    {
      socketState.SetKickedOut(true);
    }

    /** A question starts: show it with its countdown, and clear the answer and the selection. */
    method OnQuestionStarted(data: Payload)
      requires data.QuestionStarted?
      modifies this`selectedOption, this`waitingForQuestion, socketState, pollState
      ensures pollState.View() == old(pollState.View()).(currentQuestion :=
                Some(PollSlice.QuestionView(data.questionId, data.questionText, data.options, data.timeLimit)))
      ensures socketState.View() == old(socketState.View()).(timeLeft := Some(StartingTimeLeft(data.timeLeft, data.timeLimit)),
                                                             hasAnswered := false)
      ensures selectedOption.None? && !waitingForQuestion
    {
      pollState.SetCurrentQuestion(Some(PollSlice.QuestionView(data.questionId, data.questionText, data.options, data.timeLimit)));
      socketState.SetTimeLeft(Some(StartingTimeLeft(data.timeLeft, data.timeLimit)));
      socketState.SetHasAnswered(false);
      selectedOption := None;
      waitingForQuestion := false;
    }

    /** Clicking option `index`: it becomes the selection unless the question was already answered. */
    method SelectOption(index: nat)
      modifies this`selectedOption
      ensures !socketState.hasAnswered ==> selectedOption == Some(index)
      ensures socketState.hasAnswered ==> selectedOption == old(selectedOption)
    {
      if !socketState.hasAnswered {
        selectedOption := Some(index);
      }
    }

    /** A countdown tick from the server. */
    method OnTimeLeft(data: Payload)
      requires data.TimeLeft?
      modifies socketState
      ensures socketState.View() == old(socketState.View()).(timeLeft := Some(data.secondsLeft))
    {
      socketState.SetTimeLeft(Some(data.secondsLeft));
    }

    /** Live results after an answer. */
    method OnResultUpdate(data: Payload)
      requires data.ResultUpdate?
      modifies pollState
      ensures pollState.View() == old(pollState.View()).(results := Some(data.results))
    {
      pollState.SetResults(Some(data.results));
    }

    /** Private feedback on this student's answer: counted once per question, with a pop-up. */
    method OnAnswerFeedback(data: Payload) returns (toast: Option<Toast>)
      requires data.AnswerFeedback?
      requires Valid()
      modifies this`correctCount, this`attemptedCount, this`answeredQuestionIds
      ensures Scoreboard() == AfterFeedback(old(Scoreboard()), data.questionId, data.isCorrect)
      ensures Valid()
      ensures Ignored(old(Scoreboard()), data.questionId) ==> toast.None?
      ensures !Ignored(old(Scoreboard()), data.questionId) ==> toast == Some(FeedbackToast(data.isCorrect, data.correctAnswer))
    {
      AfterFeedbackKeepsValid(Scoreboard(), data.questionId, data.isCorrect);
      if data.questionId != "" && data.questionId in answeredQuestionIds {
        return None;
      }
      toast := Some(FeedbackToast(data.isCorrect, data.correctAnswer));
      if data.isCorrect {
        correctCount := correctCount + 1;
      }
      attemptedCount := attemptedCount + 1;
      if data.questionId != "" {
        answeredQuestionIds := answeredQuestionIds + {data.questionId};
      }
    }

    /** The question ended: show the final results and stop the countdown at zero. */
    method OnQuestionEnded(data: Payload)
      requires data.QuestionEnded?
      modifies socketState, pollState
      ensures pollState.View() == old(pollState.View()).(results := Some(data.results))
      ensures socketState.View() == old(socketState.View()).(timeLeft := Some(0))
    {
      pollState.SetResults(Some(data.results));
      socketState.SetTimeLeft(Some(0));
    }

    /**
     * Send the selected option: nothing happens without a selection, after an answer, or with no
     * question on screen; otherwise the page counts the question as answered, and the request
     * goes out when there is a socket to carry it.
     */
    method HandleSubmitAnswer() returns (request: Option<SubmitRequest>)
      modifies socketState
      ensures selectedOption.None? || old(socketState.hasAnswered) || pollState.currentQuestion.None? ==>
                request.None? && socketState.View() == old(socketState.View())
      ensures selectedOption.Some? && !old(socketState.hasAnswered) && pollState.currentQuestion.Some? ==>
                && socketState.View() == old(socketState.View()).(hasAnswered := true)
                && (request.Some? <==> socketState.socket.Some?)
                && (request.Some? ==> request.value == SubmitRequest(pollId, pollState.currentQuestion.value.questionId,
                                                                     selectedOption.value, studentName,
                                                                     socketState.socket.value, tabId))
    {
      if selectedOption.None? || socketState.hasAnswered || pollState.currentQuestion.None? {
        return None;
      }
      request := None;
      if socketState.socket.Some? {
        request := Some(SubmitRequest(pollId, pollState.currentQuestion.value.questionId, selectedOption.value,
                                      studentName, socketState.socket.value, tabId));
      }
      socketState.SetHasAnswered(true);
    }
  }
}

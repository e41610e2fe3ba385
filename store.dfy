/**
 * The server-side state the session coordinator keeps besides the poll documents — running
 * countdowns keyed by question id, what it remembers about each connection — the checks each
 * request goes through before it changes anything, and the invariants tying polls and
 * countdowns together.
 */
module Store {
  import opened Wrappers
  import opened PollModel
  import opened Tally
  import opened Roster
  import opened PollLifecycle

  /** A running countdown: the poll whose question it times, and the seconds left before the next tick. */
  datatype Countdown = Countdown(pollId: string, secondsLeft: int)

  /** What the server remembers about a connection: the poll it joined, its display name, its tab token. */
  datatype SocketData = SocketData(pollId: Option<string>, name: Option<string>, tabId: Option<string>)

  /** Nothing is known about a connection that has just opened. */
  const NoData := SocketData(None, None, None)

  /** The outcome of checking the token a connection presented when it opened. */
  datatype Credential = NoToken | InvalidToken | NotTeacher | TeacherToken

  /** The error a teacher-only request is refused with, if any. */
  function AuthError(c: Credential): (r: Option<string>)
    ensures r.None? <==> c == TeacherToken
  {
    match c
    case NoToken => Some("No token provided")
    case NotTeacher => Some("Not authorized")
    case InvalidToken => Some("Invalid token")
    case TeacherToken => None
  }

  /** What a check decides: go ahead, refuse with an error to the sender, or drop the request silently. */
  datatype Verdict = Proceed | Reject(message: string) | Ignore

  // ---------------------------------------------------------------------------------------
  // Invariants over all polls and countdowns

  /** Every countdown belongs to an active poll and times that poll's current question. */
  ghost predicate TimersOwned(polls: map<string, Poll>, timers: map<string, Countdown>) {
    forall qid :: qid in timers ==>
      && timers[qid].pollId in polls
      && polls[timers[qid].pollId].isQuestionActive
      && polls[timers[qid].pollId].currentQuestionId == Some(qid)
  }

  /** Every active poll has a countdown running for its current question. */
  ghost predicate ActivePollsTimed(polls: map<string, Poll>, timers: map<string, Countdown>) {
    forall pid :: pid in polls && polls[pid].isQuestionActive ==>
      && polls[pid].currentQuestionId.Some?
      && polls[pid].currentQuestionId.value in timers
      && timers[polls[pid].currentQuestionId.value].pollId == pid
  }

  /** Every question id of every poll was issued for that poll (ids are never reused across polls). */
  ghost predicate IdsIssued(polls: map<string, Poll>, issued: map<string, string>) {
    forall pid, k :: pid in polls && 0 <= k < |polls[pid].questions| ==>
      polls[pid].questions[k].questionId in issued && issued[polls[pid].questions[k].questionId] == pid
  }

  ghost predicate StoreInv(polls: map<string, Poll>, timers: map<string, Countdown>, issued: map<string, string>) {
    && (forall pid :: pid in polls ==> PollInvariant(polls[pid]) && Savable(polls[pid]))
    && IdsIssued(polls, issued)
    && TimersOwned(polls, timers)
    && ActivePollsTimed(polls, timers)
  }

  /** Nothing stored, nothing running. */
  lemma EmptyStoreInv()
    ensures StoreInv(map[], map[], map[])
  {
  }

  /** A countdown is only ever running for an id that was issued. */
  lemma TimerKeysIssued(polls: map<string, Poll>, timers: map<string, Countdown>, issued: map<string, string>, qid: string)
    requires StoreInv(polls, timers, issued) && qid in timers
    ensures qid in issued && issued[qid] == timers[qid].pollId
  {
    var pid := timers[qid].pollId;
    var k := CurrentIndex(polls[pid]);
  }

  /** Two active polls never time the same question, and each runs one countdown. */
  lemma ActiveQuestionsDistinct(polls: map<string, Poll>, timers: map<string, Countdown>, issued: map<string, string>, p1: string, p2: string)
    requires StoreInv(polls, timers, issued)
    requires p1 in polls && p2 in polls && polls[p1].isQuestionActive && polls[p2].isQuestionActive
    requires polls[p1].currentQuestionId == polls[p2].currentQuestionId
    ensures p1 == p2
  {
  }

  /**
   * A poll with nothing active has no countdown running for its current question, so clearing
   * that "stale" countdown before a start changes nothing.
   */
  lemma NoStaleTimer(polls: map<string, Poll>, timers: map<string, Countdown>, issued: map<string, string>, pid: string)
    requires StoreInv(polls, timers, issued) && pid in polls && !polls[pid].isQuestionActive
    requires polls[pid].currentQuestionId.Some?
    ensures polls[pid].currentQuestionId.value !in timers
  {
    var c := polls[pid].currentQuestionId.value;
    var k := FindQuestion(polls[pid].questions, c).value;
    assert issued[c] == pid;
    if c in timers {
      TimerKeysIssued(polls, timers, issued, c);
    }
  }

  /** A new poll joins the store without disturbing it. */
  lemma AddPollKeepsStore(polls: map<string, Poll>, timers: map<string, Countdown>, issued: map<string, string>,
                          pid: string, title: string, now: Time)
    requires StoreInv(polls, timers, issued) && pid !in polls && title != ""
    ensures StoreInv(polls[pid := NewPoll(title, now)], timers, issued)
  {
    var p := NewPoll(title, now);
    var polls' := polls[pid := p];
    NewPollInvariant(title, now);
    NewPollSavable(title, now);
    forall pid2 | pid2 in polls' ensures PollInvariant(polls'[pid2]) && Savable(polls'[pid2]) {
    }
    forall pid2, k | pid2 in polls' && 0 <= k < |polls'[pid2].questions|
      ensures polls'[pid2].questions[k].questionId in issued
      ensures issued[polls'[pid2].questions[k].questionId] == pid2
    {
      assert pid2 != pid;
    }
    forall qid | qid in timers
      ensures timers[qid].pollId in polls' && polls'[timers[qid].pollId] == polls[timers[qid].pollId]
    {
      assert timers[qid].pollId != pid;
    }
    forall pid2 | pid2 in polls' && polls'[pid2].isQuestionActive
      ensures polls'[pid2] == polls[pid2]
    {
      assert pid2 != pid;
    }
  }

  /** Replacing a poll by one with the same question ids keeps every id issued for its poll. */
  lemma SameIdsKeepIssued(polls: map<string, Poll>, issued: map<string, string>, pid: string, p': Poll)
    requires IdsIssued(polls, issued) && pid in polls
    requires |p'.questions| == |polls[pid].questions|
    requires forall k :: 0 <= k < |p'.questions| ==> p'.questions[k].questionId == polls[pid].questions[k].questionId
    ensures IdsIssued(polls[pid := p'], issued)
  {
    var polls' := polls[pid := p'];
    forall pid2, k | pid2 in polls' && 0 <= k < |polls'[pid2].questions|
      ensures polls'[pid2].questions[k].questionId in issued && issued[polls'[pid2].questions[k].questionId] == pid2
    {
      assert polls'[pid2].questions[k].questionId == polls[pid2].questions[k].questionId;
    }
  }

  /** Replacing a poll by one with the same current question and active flag keeps the countdowns in step. */
  lemma SameActivityKeepsTimers(polls: map<string, Poll>, timers: map<string, Countdown>, pid: string, p': Poll)
    requires TimersOwned(polls, timers) && ActivePollsTimed(polls, timers) && pid in polls
    requires p'.isQuestionActive == polls[pid].isQuestionActive && p'.currentQuestionId == polls[pid].currentQuestionId
    ensures TimersOwned(polls[pid := p'], timers) && ActivePollsTimed(polls[pid := p'], timers)
  {
  }

  /**
   * Replacing a poll by one with the same question ids, the same current question and the same
   * active flag (a roster edit, a chat message, an answer) keeps the store's invariant.
   */
  lemma QuietUpdateKeepsStore(polls: map<string, Poll>, timers: map<string, Countdown>, issued: map<string, string>,
                              pid: string, p': Poll)
    requires StoreInv(polls, timers, issued) && pid in polls
    requires PollInvariant(p') && Savable(p')
    requires |p'.questions| == |polls[pid].questions|
    requires forall k :: 0 <= k < |p'.questions| ==> p'.questions[k].questionId == polls[pid].questions[k].questionId
    requires p'.isQuestionActive == polls[pid].isQuestionActive && p'.currentQuestionId == polls[pid].currentQuestionId
    ensures StoreInv(polls[pid := p'], timers, issued)
  {
    SameIdsKeepIssued(polls, issued, pid, p');
    SameActivityKeepsTimers(polls, timers, pid, p');
  }

  /**
   * Starting a question under a never-issued id on a poll with nothing active keeps the store's
   * invariant, with a countdown from the question's time limit registered for it.
   */
  lemma StartKeepsStore(polls: map<string, Poll>, timers: map<string, Countdown>, issued: map<string, string>,
                        pid: string, spec: QuestionSpec, qid: string, now: Time)
    requires StoreInv(polls, timers, issued) && pid in polls && !polls[pid].isQuestionActive
    requires qid != "" && qid !in issued
    requires Savable(WithStartedQuestion(polls[pid], OpenQuestion(spec, qid, now)))
    ensures qid !in timers
    ensures StoreInv(polls[pid := WithStartedQuestion(polls[pid], OpenQuestion(spec, qid, now))],
                     timers[qid := Countdown(pid, EffectiveTimeLimit(spec.timeLimit))],
                     issued[qid := pid])
  {
    var p := polls[pid];
    var q := OpenQuestion(spec, qid, now);
    var p' := WithStartedQuestion(p, q);
    if qid in timers {
      TimerKeysIssued(polls, timers, issued, qid);
    }
    assert FindQuestion(p.questions, qid).None?;
    StartKeepsInvariant(p, spec, qid, now);
    var polls' := polls[pid := p'];
    StartKeepsIssued(polls, issued, pid, p', q);
    StartKeepsTimers(polls, timers, pid, p', qid, Countdown(pid, EffectiveTimeLimit(spec.timeLimit)));
    forall pid2 | pid2 in polls' ensures PollInvariant(polls'[pid2]) && Savable(polls'[pid2]) {
    }
  }

  /** Appending a question under a newly issued id keeps every question id owned by its poll. */
  lemma StartKeepsIssued(polls: map<string, Poll>, issued: map<string, string>, pid: string, p': Poll, q: Question)
    requires IdsIssued(polls, issued) && pid in polls && q.questionId !in issued
    requires p'.questions == polls[pid].questions + [q]
    ensures IdsIssued(polls[pid := p'], issued[q.questionId := pid])
  {
    var polls', issued' := polls[pid := p'], issued[q.questionId := pid];
    forall pid2, k | pid2 in polls' && 0 <= k < |polls'[pid2].questions|
      ensures polls'[pid2].questions[k].questionId in issued'
      ensures issued'[polls'[pid2].questions[k].questionId] == pid2
    {
      if pid2 == pid && k < |polls[pid].questions| {
        assert polls'[pid2].questions[k] == polls[pid].questions[k];
      }
    }
  }

  /** Activating a poll on a question with no countdown yet, and registering one for it, keeps the countdowns consistent. */
  lemma StartKeepsTimers(polls: map<string, Poll>, timers: map<string, Countdown>, pid: string, p': Poll, qid: string, c: Countdown)
    requires TimersOwned(polls, timers) && ActivePollsTimed(polls, timers)
    requires pid in polls && !polls[pid].isQuestionActive && qid !in timers
    requires p'.isQuestionActive && p'.currentQuestionId == Some(qid) && c.pollId == pid
    ensures TimersOwned(polls[pid := p'], timers[qid := c]) && ActivePollsTimed(polls[pid := p'], timers[qid := c])
  {
    var polls', timers' := polls[pid := p'], timers[qid := c];
    forall t | t in timers'
      ensures timers'[t].pollId in polls' && polls'[timers'[t].pollId].isQuestionActive
      ensures polls'[timers'[t].pollId].currentQuestionId == Some(t)
    {
      if t != qid {
        assert timers[t].pollId != pid;
      }
    }
  }

  /**
   * Everything a start request relies on when it passes its check: the poll is not active, no
   * countdown is left to clear, issuing the fresh id disturbs nothing, and a savable start keeps
   * the store's invariant.
   */
  lemma StartStep(polls: map<string, Poll>, timers: map<string, Countdown>, issued: map<string, string>,
                  pid: string, spec: QuestionSpec, qid: string, now: Time)
    requires StoreInv(polls, timers, issued) && pid in polls
    requires !(polls[pid].isQuestionActive && IsSet(polls[pid].currentQuestionId))
    requires qid != "" && qid !in issued
    ensures !polls[pid].isQuestionActive
    ensures polls[pid].currentQuestionId.Some? ==> timers - {polls[pid].currentQuestionId.value} == timers
    ensures StoreInv(polls, timers, issued[qid := pid])
    ensures Savable(WithStartedQuestion(polls[pid], OpenQuestion(spec, qid, now))) ==>
              StoreInv(polls[pid := WithStartedQuestion(polls[pid], OpenQuestion(spec, qid, now))],
                       timers[qid := Countdown(pid, EffectiveTimeLimit(spec.timeLimit))],
                       issued[qid := pid])
  {
    if polls[pid].currentQuestionId.Some? {
      NoStaleTimer(polls, timers, issued, pid);
      assert timers - {polls[pid].currentQuestionId.value} == timers;
    }
    if Savable(WithStartedQuestion(polls[pid], OpenQuestion(spec, qid, now))) {
      StartKeepsStore(polls, timers, issued, pid, spec, qid, now);
    }
  }

  /** A join, whichever way its save goes, leaves polls that keep the invariant. */
  lemma JoinStepInto(polls: map<string, Poll>, timers: map<string, Countdown>, issued: map<string, string>,
                     pid: string, session: Session, polls': map<string, Poll>)
    requires StoreInv(polls, timers, issued) && pid in polls
    requires if Savable(WithSession(polls[pid], session)) then polls' == polls[pid := WithSession(polls[pid], session)]
             else polls' == polls
    ensures StoreInv(polls', timers, issued)
  {
    var p' := WithSession(polls[pid], session);
    if Savable(p') {
      RosterEditsKeepInvariant(polls[pid], session, session.socketId, NewChatMessage("", "", "", 0));
      QuietUpdateKeepsStore(polls, timers, issued, pid, p');
    }
  }

  /** `StartStep` stated over the maps a start request leaves behind, whichever way the save goes. */
  lemma StartStepInto(polls: map<string, Poll>, timers: map<string, Countdown>, issued: map<string, string>,
                      pid: string, spec: QuestionSpec, qid: string, now: Time,
                      polls': map<string, Poll>, timers': map<string, Countdown>, issued': map<string, string>)
    requires StoreInv(polls, timers, issued) && pid in polls
    requires !(polls[pid].isQuestionActive && IsSet(polls[pid].currentQuestionId))
    requires qid != "" && qid !in issued
    requires issued' == issued[qid := pid]
    requires var p' := WithStartedQuestion(polls[pid], OpenQuestion(spec, qid, now));
             var cur := polls[pid].currentQuestionId;
             var cleared := if IsSet(cur) then timers - {cur.value} else timers;
             if Savable(p') then polls' == polls[pid := p'] && timers' == cleared[qid := Countdown(pid, EffectiveTimeLimit(spec.timeLimit))]
             else polls' == polls && timers' == cleared
    ensures StoreInv(polls', timers', issued')
  {
    StartStep(polls, timers, issued, pid, spec, qid, now);
  }

  /**
   * Finalising the current question of an active poll, and stopping its countdown, keeps the
   * store's invariant.
   */
  lemma FinaliseKeepsStore(polls: map<string, Poll>, timers: map<string, Countdown>, issued: map<string, string>,
                           pid: string, k: nat, now: Time)
    requires StoreInv(polls, timers, issued) && pid in polls && polls[pid].isQuestionActive
    requires k < |polls[pid].questions| && Some(polls[pid].questions[k].questionId) == polls[pid].currentQuestionId
    ensures StoreInv(polls[pid := Finalised(polls[pid], k, now)], timers - {polls[pid].questions[k].questionId}, issued)
  {
    var p := polls[pid];
    var p' := Finalised(p, k, now);
    FinaliseKeepsInvariant(p, k, now);
    FinaliseKeepsSavable(p, k, now);
    SameIdsKeepIssued(polls, issued, pid, p');
    FinaliseKeepsTimers(polls, timers, pid, p', p.questions[k].questionId);
    var polls' := polls[pid := p'];
    forall pid2 | pid2 in polls' ensures PollInvariant(polls'[pid2]) && Savable(polls'[pid2]) {
    }
  }

  /** Deactivating a poll while dropping its current question's countdown keeps the countdowns consistent. */
  lemma FinaliseKeepsTimers(polls: map<string, Poll>, timers: map<string, Countdown>, pid: string, p': Poll, qid: string)
    requires TimersOwned(polls, timers) && ActivePollsTimed(polls, timers)
    requires pid in polls && polls[pid].isQuestionActive && polls[pid].currentQuestionId == Some(qid)
    requires !p'.isQuestionActive
    ensures TimersOwned(polls[pid := p'], timers - {qid}) && ActivePollsTimed(polls[pid := p'], timers - {qid})
  {
    var polls', timers' := polls[pid := p'], timers - {qid};
    forall t | t in timers'
      ensures timers'[t].pollId in polls' && polls'[timers'[t].pollId].isQuestionActive
      ensures polls'[timers'[t].pollId].currentQuestionId == Some(t)
    {
      assert timers[t].pollId != pid;
    }
    forall pid2 | pid2 in polls' && polls'[pid2].isQuestionActive
      ensures polls'[pid2].currentQuestionId.Some? && polls'[pid2].currentQuestionId.value in timers'
      ensures timers'[polls'[pid2].currentQuestionId.value].pollId == pid2
    {
      assert pid2 != pid;
      assert timers[qid].pollId == pid;
      assert polls[pid2].currentQuestionId.value != qid;
    }
  }

  /** A tick that leaves time on the clock only changes the seconds left. */
  lemma TickKeepsStore(polls: map<string, Poll>, timers: map<string, Countdown>, issued: map<string, string>,
                       qid: string, secondsLeft: int)
    requires StoreInv(polls, timers, issued) && qid in timers
    ensures StoreInv(polls, timers[qid := timers[qid].(secondsLeft := secondsLeft)], issued)
  {
  }

  /**
   * A countdown running out keeps the invariant: its question is the current, open question of
   * an active poll, so the expiry closes it, and the countdown is dropped.
   */
  lemma ExpireStepInto(polls: map<string, Poll>, timers: map<string, Countdown>, issued: map<string, string>,
                       qid: string, now: Time, polls': map<string, Poll>)
    requires StoreInv(polls, timers, issued) && qid in timers
    requires var pid := timers[qid].pollId;
             if pid in polls && FindQuestion(polls[pid].questions, qid).Some?
                && polls[pid].questions[FindQuestion(polls[pid].questions, qid).value].endedAt.None?
                && Savable(Finalised(polls[pid], FindQuestion(polls[pid].questions, qid).value, now))
             then polls' == polls[pid := Finalised(polls[pid], FindQuestion(polls[pid].questions, qid).value, now)]
             else polls' == polls
    ensures StoreInv(polls', timers - {qid}, issued)
  {
    var pid := timers[qid].pollId;
    var p := polls[pid];
    var k := FindQuestion(p.questions, qid).value;
    FinaliseKeepsSavable(p, k, now);
    FinaliseKeepsStore(polls, timers, issued, pid, k, now);
  }

  // ---------------------------------------------------------------------------------------
  // The checks each request passes before it changes anything

  /** A student's join: both fields are needed, then the poll must exist. */
  function JoinCheck(polls: map<string, Poll>, pollId: string, name: string): (v: Verdict)
    ensures v == Proceed <==> pollId != "" && name != "" && pollId in polls
    ensures v != Ignore
  {
    if pollId == "" || name == "" then Reject("PollId and name are required")
    else if pollId !in polls then Reject("Poll not found")
    else Proceed
  }

  /** A teacher's room join: a teacher, a poll id, and an existing poll. */
  function TeacherJoinCheck(polls: map<string, Poll>, credential: Credential, pollId: string): (v: Verdict)
    ensures v == Proceed <==> credential == TeacherToken && pollId != "" && pollId in polls
    ensures v != Ignore
  {
    if AuthError(credential).Some? then Reject(AuthError(credential).value)
    else if pollId == "" then Reject("PollId is required")
    else if pollId !in polls then Reject("Poll not found")
    else Proceed
  }

  /**
   * A start request: a teacher, then (silently) a poll id and a question, then an existing poll
   * with no question both active and current.
   */
  function StartCheck(polls: map<string, Poll>, credential: Credential, pollId: string, question: Option<QuestionSpec>): (v: Verdict)
    ensures v == Proceed <==>
              && credential == TeacherToken && pollId != "" && question.Some? && pollId in polls
              && !(polls[pollId].isQuestionActive && IsSet(polls[pollId].currentQuestionId))
    ensures v == Ignore <==> credential == TeacherToken && (pollId == "" || question.None?)
  {
    if AuthError(credential).Some? then Reject(AuthError(credential).value)
    else if pollId == "" || question.None? then Ignore
    else if pollId !in polls then Reject("Poll not found")
    else if polls[pollId].isQuestionActive && IsSet(polls[pollId].currentQuestionId) then
      Reject("Cannot start a new question until the current one is ended.")
    else Proceed
  }

  /**
   * An explicit end: a teacher, a poll id, an active poll with a current question, that
   * question found, and not yet ended.
   */
  function EndCheck(polls: map<string, Poll>, credential: Credential, pollId: string): (v: Verdict)
    ensures v == Proceed <==>
              && credential == TeacherToken && pollId != "" && pollId in polls
              && polls[pollId].isQuestionActive && IsSet(polls[pollId].currentQuestionId)
              && FindQuestion(polls[pollId].questions, polls[pollId].currentQuestionId.value).Some?
              && polls[pollId].questions[FindQuestion(polls[pollId].questions, polls[pollId].currentQuestionId.value).value].endedAt.None?
    ensures v != Ignore
  {
    if AuthError(credential).Some? then Reject(AuthError(credential).value)
    else if pollId == "" then Reject("PollId is required")
    else if pollId !in polls || !polls[pollId].isQuestionActive || !IsSet(polls[pollId].currentQuestionId) then
      Reject("No active question to end")
    else
      var p := polls[pollId];
      match FindQuestion(p.questions, p.currentQuestionId.value) {
        case None => Reject("Question not found")
        case Some(k) => if p.questions[k].endedAt.Some? then Reject("Question already ended") else Proceed
      }
  }

  /**
   * The tab an answer is attributed to: the connection's remembered tab, else its session's
   * tab, else the tab the request names, else the connection id itself.
   */
  function AnswerTab(data: SocketData, sessions: seq<Session>, socketId: string, requestTab: Option<string>): (t: string)
    ensures IsSet(data.tabId) ==> t == data.tabId.value
    ensures !IsSet(data.tabId) && FindSession(sessions, socketId).Some? && IsSet(sessions[FindSession(sessions, socketId).value].tabId)
            ==> t == sessions[FindSession(sessions, socketId).value].tabId.value
    ensures !IsSet(data.tabId) && IsSet(requestTab)
            && (FindSession(sessions, socketId).None? || !IsSet(sessions[FindSession(sessions, socketId).value].tabId))
            ==> t == requestTab.value
    ensures !IsSet(data.tabId) && !IsSet(requestTab) && (FindSession(sessions, socketId).None? || !IsSet(sessions[FindSession(sessions, socketId).value].tabId)) ==> t == socketId
  {
    var sessionTab := match FindSession(sessions, socketId) {
      case None => None
      case Some(i) => sessions[i].tabId
    };
    var t := OrElse(OrElse(data.tabId, sessionTab), requestTab);
    if IsSet(t) then t.value else socketId
  }

  /** Whether connection `socketId` or tab `tabId` already answered. */
  predicate AlreadyAnswered(answers: seq<StudentAnswer>, socketId: string, tabId: string): (b: bool)
    ensures b <==> exists a :: a in answers && (a.socketId == socketId || a.tabId == tabId)
  {
    exists k :: 0 <= k < |answers| && (answers[k].socketId == socketId || answers[k].tabId == tabId)
  }

  /** Once an answer is stored, that connection and that tab count as having answered, whatever else is asked. */
  lemma StoredAnswerBlocks(answers: seq<StudentAnswer>, ans: StudentAnswer, socketId: string, tabId: string)
    ensures AlreadyAnswered(answers + [ans], ans.socketId, tabId)
    ensures AlreadyAnswered(answers + [ans], socketId, ans.tabId)
    ensures AlreadyAnswered(answers, socketId, tabId) ==> AlreadyAnswered(answers + [ans], socketId, tabId)
  {
    assert ans in answers + [ans];
  }

  /** Not having answered is what makes an answer from that connection and tab new. */
  lemma AlreadyAnsweredIsNotNew(answers: seq<StudentAnswer>, ans: StudentAnswer)
    ensures !AlreadyAnswered(answers, ans.socketId, ans.tabId) <==> IsNewAnswer(answers, ans)
  {
  }

  /**
   * A submission, checked in order: the fields, the poll, the question, that it is the active
   * current question, that neither this connection nor this tab answered it, and the option index.
   */
  function SubmitCheck(polls: map<string, Poll>, pollId: string, questionId: string, optionIndex: Option<int>,
                       socketId: string, tabId: string): (v: Verdict)
    ensures v != Ignore
    ensures v == Proceed <==>
              && pollId != "" && questionId != "" && optionIndex.Some? && pollId in polls
              && FindQuestion(polls[pollId].questions, questionId).Some?
              && polls[pollId].isQuestionActive && polls[pollId].currentQuestionId == Some(questionId)
              && !AlreadyAnswered(polls[pollId].questions[FindQuestion(polls[pollId].questions, questionId).value].studentAnswers, socketId, tabId)
              && 0 <= optionIndex.value < |polls[pollId].questions[FindQuestion(polls[pollId].questions, questionId).value].options|
  {
    if pollId == "" || questionId == "" || optionIndex.None? then Reject("Missing required fields")
    else if pollId !in polls then Reject("Poll not found")
    else
      var p := polls[pollId];
      match FindQuestion(p.questions, questionId) {
        case None => Reject("Question not found")
        case Some(k) =>
          if !p.isQuestionActive || p.currentQuestionId != Some(questionId) then Reject("Question is not active")
          else if AlreadyAnswered(p.questions[k].studentAnswers, socketId, tabId) then Reject("You have already submitted an answer")
          else if optionIndex.value < 0 || optionIndex.value >= |p.questions[k].options| then Reject("Invalid option index")
          else Proceed
      }
  }

  /** A repeated submission for the active question is refused as such, whatever option it names. */
  lemma DuplicateRefusedBeforeIndex(polls: map<string, Poll>, pollId: string, questionId: string, optionIndex: int,
                                    socketId: string, tabId: string)
    requires pollId != "" && questionId != "" && pollId in polls
    requires polls[pollId].isQuestionActive && polls[pollId].currentQuestionId == Some(questionId)
    requires FindQuestion(polls[pollId].questions, questionId).Some?
    requires AlreadyAnswered(polls[pollId].questions[FindQuestion(polls[pollId].questions, questionId).value].studentAnswers, socketId, tabId)
    ensures SubmitCheck(polls, pollId, questionId, Some(optionIndex), socketId, tabId) == Reject("You have already submitted an answer")
  {
  }

  /**
   * Once a question is finalised it cannot be ended again: an explicit end is refused because
   * nothing is active any more, and no countdown is left to expire it.
   */
  lemma FinalisedOnce(polls: map<string, Poll>, timers: map<string, Countdown>, issued: map<string, string>,
                      pid: string, k: nat, now: Time)
    requires StoreInv(polls, timers, issued) && pid in polls && polls[pid].isQuestionActive
    requires k < |polls[pid].questions| && Some(polls[pid].questions[k].questionId) == polls[pid].currentQuestionId
    ensures EndCheck(polls[pid := Finalised(polls[pid], k, now)], TeacherToken, pid).Reject?
    ensures pid != "" ==> EndCheck(polls[pid := Finalised(polls[pid], k, now)], TeacherToken, pid) == Reject("No active question to end")
    ensures forall qid :: qid in timers - {polls[pid].questions[k].questionId} ==> timers[qid].pollId != pid
  {
  }

  /** A kick: a teacher, then (silently) a poll id and a target, then an existing poll. */
  function KickCheck(polls: map<string, Poll>, credential: Credential, pollId: string, target: string): (v: Verdict)
    ensures v == Proceed <==> credential == TeacherToken && pollId != "" && target != "" && pollId in polls
    ensures v == Ignore <==> credential == TeacherToken && (pollId == "" || target == "")
  {
    if AuthError(credential).Some? then Reject(AuthError(credential).value)
    else if pollId == "" || target == "" then Ignore
    else if pollId !in polls then Reject("Poll not found")
    else Proceed
  }
}

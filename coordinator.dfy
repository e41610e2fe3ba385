/**
 * The live session coordinator: one object holding the poll documents, the running
 * countdowns, what is known about each open connection, and the events sent so far. Each
 * request a connection makes is one method, run as a single step.
 */
module SessionCoordinator {
  import opened Wrappers
  import opened PollModel
  import opened Tally
  import opened Roster
  import opened PollLifecycle
  import opened Protocol
  import opened Store

  /**
   * What a student who joins while a question is running is sent: that question, with the
   * seconds left by the clock.
   */
  function CatchUp(socketId: string, pollId: string, p: Poll, now: Time): (r: seq<Event>)
    ensures |r| <= 1
    ensures forall i :: 0 <= i < |r| ==> r[i].to == Socket(socketId) && r[i].payload.QuestionStarted?
    ensures r != [] <==> p.isQuestionActive && IsSet(p.currentQuestionId) && FindQuestion(p.questions, p.currentQuestionId.value).Some?
  {
    if p.isQuestionActive && IsSet(p.currentQuestionId) then
      match FindQuestion(p.questions, p.currentQuestionId.value) {
        case None => []
        case Some(k) =>
          var q := p.questions[k];
          [Event(Socket(socketId), QuestionStarted(q.questionId, pollId, q.text, OptionTexts(q.options), q.timeLimit,
                                                   q.startedAt, Some(LateJoinTimeLeft(q.timeLimit, q.startedAt, now))))]
      }
    else []
  }

  /** A late joiner of an active poll is sent exactly the current question, with a countdown never below zero. */
  lemma CatchUpSendsCurrentQuestion(socketId: string, pollId: string, p: Poll, now: Time)
    requires PollInvariant(p)
    ensures !p.isQuestionActive ==> CatchUp(socketId, pollId, p, now) == []
    ensures p.isQuestionActive ==>
              && |CatchUp(socketId, pollId, p, now)| == 1
              && CatchUp(socketId, pollId, p, now)[0].to == Socket(socketId)
              && CatchUp(socketId, pollId, p, now)[0].payload.QuestionStarted?
              && Some(CatchUp(socketId, pollId, p, now)[0].payload.questionId) == p.currentQuestionId
              && CatchUp(socketId, pollId, p, now)[0].payload.timeLeft.value >= 0
  {
  }

  /**
   * What a successful join sends: the new name to the student if it had to change, the roster to
   * the room, then the running question to the student if there is one.
   */
  function JoinEvents(socketId: string, pollId: string, name: string, finalName: string, p: Poll, now: Time): (r: seq<Event>)
    ensures var n := if finalName != name then 1 else 0;
            && |r| == n + 1 + |CatchUp(socketId, pollId, p, now)|
            && (finalName != name ==> r[0] == Event(Socket(socketId), NameAssigned(finalName)))
            && r[n] == RosterBroadcast(pollId, p)
            && r[n + 1..] == CatchUp(socketId, pollId, p, now)
  {
    (if finalName != name then [Event(Socket(socketId), NameAssigned(finalName))] else [])
    + [RosterBroadcast(pollId, p)]
    + CatchUp(socketId, pollId, p, now)
  }

  /** The tab a submission is attributed to, once the poll is known. */
  function SubmitTab(polls: map<string, Poll>, data: SocketData, socketId: string, pollId: string, requestTab: Option<string>): string {
    if pollId in polls then AnswerTab(data, polls[pollId].sessions, socketId, requestTab) else socketId
  }

  class Coordinator {
    /** The poll documents, by poll id. */
    var polls: map<string, Poll>
    /** The running countdowns, by the id of the question they time. */
    var timers: map<string, Countdown>
    /** The connections that answered, by question id: registered empty when a question starts. */
    var answerRegistry: map<string, set<string>>
    /** The open connections and what is remembered about each. */
    var sockets: map<string, SocketData>
    /** Every event sent so far, oldest first. */
    var outbox: seq<Event>
    /** The poll each question id was issued for. */
    ghost var issued: map<string, string>

    ghost predicate Inv()
      reads this
    {
      StoreInv(polls, timers, issued) && (forall sid :: sid in sockets ==> sid != "")
    }

    constructor()
      ensures Inv()
      ensures polls == map[] && timers == map[] && answerRegistry == map[] && sockets == map[] && outbox == []
    {
      polls := map[];
      timers := map[];
      answerRegistry := map[];
      sockets := map[];
      outbox := [];
      issued := map[];
      EmptyStoreInv();
    }

    /** A connection opens; nothing is known about it yet. */
    method Connect(socketId: string)
      requires socketId != "" && socketId !in sockets
      modifies this`sockets
      ensures sockets == old(sockets)[socketId := NoData]
      ensures old(Inv()) ==> Inv()
    {
      sockets := sockets[socketId := NoData];
    }

    /**
     * A poll is created under a new id. A request without a title, or without an option list of
     * at least two entries (`optionCount` is `None` when the list is missing or not a list), is
     * refused and stores nothing.
     */
    method CreatePoll(pollId: string, title: string, optionCount: Option<nat>, now: Time)
      requires pollId !in polls
      modifies this`polls
      ensures title != "" && optionCount.Some? && optionCount.value >= 2 ==> polls == old(polls)[pollId := NewPoll(title, now)]
      ensures title == "" || optionCount.None? || optionCount.value < 2 ==> polls == old(polls)
      ensures old(Inv()) ==> Inv()
    {
      if title != "" && optionCount.Some? && optionCount.value >= 2 {
        if Inv() {
          AddPollKeepsStore(polls, timers, issued, pollId, title, now);
        }
        polls := polls[pollId := NewPoll(title, now)];
      }
    }

    /**
     * A student asks to join a poll under `name`: the name is made unique on the roster, the
     * connection remembers the poll, the name and the tab, a session is appended, and the
     * room is sent the new roster.
     */
    method StudentJoin(socketId: string, pollId: string, name: string, tabId: Option<string>, now: Time)
      requires socketId in sockets
      modifies this`polls, this`sockets, this`outbox
      ensures JoinCheck(old(polls), pollId, name).Reject? ==>
                && polls == old(polls) && sockets == old(sockets)
                && outbox == old(outbox) + [Error(socketId, JoinCheck(old(polls), pollId, name).message)]
      ensures JoinCheck(old(polls), pollId, name) == Proceed ==>
                var p := old(polls)[pollId];
                var finalName := AssignedName(Names(p.sessions), name);
                var tab := if IsSet(tabId) then tabId.value else socketId;
                var p' := WithSession(p, NewSession(socketId, finalName, now, Some(tab)));
                && sockets == old(sockets)[socketId := SocketData(Some(pollId), Some(finalName), Some(tab))]
                && (Savable(p') ==> polls == old(polls)[pollId := p']
                                    && outbox == old(outbox) + JoinEvents(socketId, pollId, name, finalName, p', now))
                && (!Savable(p') ==> polls == old(polls) && outbox == old(outbox) + [Error(socketId, "Failed to join poll")])
      ensures old(Inv()) ==> Inv()
    {
      ghost var wasInv := Inv();
      var verdict := JoinCheck(polls, pollId, name);
      if verdict.Reject? {
        outbox := outbox + [Error(socketId, verdict.message)];
        return;
      }
      ghost var polls0 := polls;
      JoinPoll(socketId, pollId, name, tabId, now);
      if wasInv {
        var finalName := AssignedName(Names(polls0[pollId].sessions), name);
        var tab := if IsSet(tabId) then tabId.value else socketId;
        JoinStepInto(polls0, timers, issued, pollId, NewSession(socketId, finalName, now, Some(tab)), polls);
      }
    }

    /** The accepted half of `StudentJoin`: the poll exists and both fields are given. */
    method JoinPoll(socketId: string, pollId: string, name: string, tabId: Option<string>, now: Time)
      requires pollId in polls
      modifies this`polls, this`sockets, this`outbox
      ensures var p := old(polls)[pollId];
              var finalName := AssignedName(Names(p.sessions), name);
              var tab := if IsSet(tabId) then tabId.value else socketId;
              var p' := WithSession(p, NewSession(socketId, finalName, now, Some(tab)));
              && sockets == old(sockets)[socketId := SocketData(Some(pollId), Some(finalName), Some(tab))]
              && (Savable(p') ==> polls == old(polls)[pollId := p']
                                  && outbox == old(outbox) + JoinEvents(socketId, pollId, name, finalName, p', now))
              && (!Savable(p') ==> polls == old(polls) && outbox == old(outbox) + [Error(socketId, "Failed to join poll")])
    {
      var p := polls[pollId];
      var finalName := AssignDisplayName(Names(p.sessions), name);
      var tab := if IsSet(tabId) then tabId.value else socketId;
      sockets := sockets[socketId := SocketData(Some(pollId), Some(finalName), Some(tab))];
      var p' := WithSession(p, NewSession(socketId, finalName, now, Some(tab)));
      if !Savable(p') {
        outbox := outbox + [Error(socketId, "Failed to join poll")];
        return;
      }
      polls := polls[pollId := p'];
      outbox := outbox + JoinEvents(socketId, pollId, name, finalName, p', now);
    }

    /** A teacher's connection joins a poll's room and is sent the roster. */
    method TeacherJoin(socketId: string, credential: Credential, pollId: string)
      requires socketId in sockets
      modifies this`sockets, this`outbox
      ensures TeacherJoinCheck(polls, credential, pollId).Reject? ==>
                sockets == old(sockets) && outbox == old(outbox) + [Error(socketId, TeacherJoinCheck(polls, credential, pollId).message)]
      ensures TeacherJoinCheck(polls, credential, pollId) == Proceed ==>
                && sockets == old(sockets)[socketId := old(sockets)[socketId].(pollId := Some(pollId))]
                && outbox == old(outbox) + [Event(Socket(socketId), ParticipantsUpdate(Participants(polls[pollId].sessions)))]
      ensures old(Inv()) ==> Inv()
    {
      var verdict := TeacherJoinCheck(polls, credential, pollId);
      if verdict.Reject? {
        outbox := outbox + [Error(socketId, verdict.message)];
        return;
      }
      sockets := sockets[socketId := sockets[socketId].(pollId := Some(pollId))];
      outbox := outbox + [Event(Socket(socketId), ParticipantsUpdate(Participants(polls[pollId].sessions)))];
    }

    /**
     * A teacher starts a question under the fresh id `freshId`: any countdown left for the
     * previous question is cleared, the question is appended and made current and active, the
     * room is sent it, and its countdown starts.
     */
    method StartQuestion(socketId: string, credential: Credential, pollId: string, question: Option<QuestionSpec>,
                         freshId: string, now: Time)
      requires freshId != "" && freshId !in issued
      modifies this`polls, this`timers, this`answerRegistry, this`outbox, this`issued
      ensures StartCheck(old(polls), credential, pollId, question).Reject? ==>
                && polls == old(polls) && timers == old(timers) && answerRegistry == old(answerRegistry)
                && outbox == old(outbox) + [Error(socketId, StartCheck(old(polls), credential, pollId, question).message)]
      ensures StartCheck(old(polls), credential, pollId, question) == Ignore ==>
                polls == old(polls) && timers == old(timers) && answerRegistry == old(answerRegistry) && outbox == old(outbox)
      ensures StartCheck(old(polls), credential, pollId, question) == Proceed ==>
                var p := old(polls)[pollId];
                var q := OpenQuestion(question.value, freshId, now);
                var p' := WithStartedQuestion(p, q);
                var cleared := if IsSet(p.currentQuestionId) then old(timers) - {p.currentQuestionId.value} else old(timers);
                && (Savable(p') ==>
                      && polls == old(polls)[pollId := p']
                      && timers == cleared[freshId := Countdown(pollId, q.timeLimit)]
                      && answerRegistry == old(answerRegistry)[freshId := {}]
                      && outbox == old(outbox) + [Event(Room(pollId), QuestionStarted(freshId, pollId, q.text, OptionTexts(q.options),
                                                                                      q.timeLimit, now, None))])
                && (!Savable(p') ==>
                      && polls == old(polls) && timers == cleared && answerRegistry == old(answerRegistry)
                      && outbox == old(outbox) + [Error(socketId, "Failed to start question")])
      ensures old(Inv()) ==> Inv()
    {
      ghost var wasInv := Inv();
      var verdict := StartCheck(polls, credential, pollId, question);
      if verdict.Reject? {
        outbox := outbox + [Error(socketId, verdict.message)];
        return;
      } else if verdict == Ignore {
        return;
      }
      ghost var polls0, timers0, issued0 := polls, timers, issued;
      BeginQuestion(socketId, pollId, question.value, freshId, now);
      if wasInv {
        StartStepInto(polls0, timers0, issued0, pollId, question.value, freshId, now, polls, timers, issued);
      }
    }

    /** The accepted half of `StartQuestion`: the poll exists and has no question both active and current. */
    method BeginQuestion(socketId: string, pollId: string, spec: QuestionSpec, freshId: string, now: Time)
      requires freshId != "" && freshId !in issued
      requires pollId in polls && !(polls[pollId].isQuestionActive && IsSet(polls[pollId].currentQuestionId))
      modifies this`polls, this`timers, this`answerRegistry, this`outbox, this`issued
      ensures issued == old(issued)[freshId := pollId]
      ensures var p := old(polls)[pollId];
              var q := OpenQuestion(spec, freshId, now);
              var p' := WithStartedQuestion(p, q);
              var cleared := if IsSet(p.currentQuestionId) then old(timers) - {p.currentQuestionId.value} else old(timers);
              && (Savable(p') ==>
                    && polls == old(polls)[pollId := p']
                    && timers == cleared[freshId := Countdown(pollId, q.timeLimit)]
                    && answerRegistry == old(answerRegistry)[freshId := {}]
                    && outbox == old(outbox) + [Event(Room(pollId), QuestionStarted(freshId, pollId, q.text, OptionTexts(q.options),
                                                                                    q.timeLimit, now, None))])
              && (!Savable(p') ==>
                    && polls == old(polls) && timers == cleared && answerRegistry == old(answerRegistry)
                    && outbox == old(outbox) + [Error(socketId, "Failed to start question")])
    {
      var p := polls[pollId];
      if IsSet(p.currentQuestionId) {
        timers := timers - {p.currentQuestionId.value};
      }
      issued := issued[freshId := pollId];
      var q := OpenQuestion(spec, freshId, now);
      var p' := WithStartedQuestion(p, q);
      if !Savable(p') {
        outbox := outbox + [Error(socketId, "Failed to start question")];
      } else {
        polls := polls[pollId := p'];
        answerRegistry := answerRegistry[freshId := {}];
        outbox := outbox + [Event(Room(pollId), QuestionStarted(freshId, pollId, q.text, OptionTexts(q.options), q.timeLimit, now, None))];
        timers := timers[freshId := Countdown(pollId, q.timeLimit)];
      }
    }

    /**
     * A teacher ends the current question: it is closed, the poll stops being active (the
     * current question id stays), its countdown is stopped, and the room is sent the final tally.
     */
    method EndQuestion(socketId: string, credential: Credential, pollId: string, now: Time)
      modifies this`polls, this`timers, this`outbox
      ensures EndCheck(old(polls), credential, pollId).Reject? ==>
                && polls == old(polls) && timers == old(timers)
                && outbox == old(outbox) + [Error(socketId, EndCheck(old(polls), credential, pollId).message)]
      ensures EndCheck(old(polls), credential, pollId) == Proceed ==>
                var p := old(polls)[pollId];
                var qid := p.currentQuestionId.value;
                var k := FindQuestion(p.questions, qid).value;
                var p' := Finalised(p, k, now);
                && (Savable(p') ==>
                      && polls == old(polls)[pollId := p'] && timers == old(timers) - {qid}
                      && outbox == old(outbox) + [Event(Room(pollId), QuestionEnded(TallyOf(p'.questions[k])))])
                && (!Savable(p') ==>
                      polls == old(polls) && timers == old(timers) && outbox == old(outbox) + [Error(socketId, "Failed to end question")])
      ensures EndCheck(old(polls), credential, pollId) != Ignore
      ensures old(Inv()) ==> Inv()
    {
      ghost var wasInv := Inv();
      var verdict := EndCheck(polls, credential, pollId);
      if verdict.Reject? {
        outbox := outbox + [Error(socketId, verdict.message)];
        return;
      }
      var p := polls[pollId];
      var qid := p.currentQuestionId.value;
      var k := FindQuestion(p.questions, qid).value;
      var p' := Finalised(p, k, now);
      if !Savable(p') {
        outbox := outbox + [Error(socketId, "Failed to end question")];
        return;
      }
      if wasInv {
        FinaliseKeepsStore(polls, timers, issued, pollId, k, now);
      }
      polls := polls[pollId := p'];
      timers := timers - {qid};
      outbox := outbox + [Event(Room(pollId), QuestionEnded(TallyOf(p'.questions[k])))];
    }

    /**
     * A student answers: after the ordered checks, the chosen option gains one vote, the answer
     * is recorded, the room is sent the new tally and the student privately learns whether the
     * answer was right and which option was.
     */
    method SubmitAnswer(socketId: string, pollId: string, questionId: string, optionIndex: Option<int>,
                        studentName: Option<string>, requestTab: Option<string>, now: Time)
      requires socketId in sockets
      modifies this`polls, this`outbox
      ensures var tab := SubmitTab(old(polls), sockets[socketId], socketId, pollId, requestTab);
              var verdict := SubmitCheck(old(polls), pollId, questionId, optionIndex, socketId, tab);
              && (verdict.Reject? ==> polls == old(polls) && outbox == old(outbox) + [Error(socketId, verdict.message)])
              && (verdict == Proceed ==>
                    var p := old(polls)[pollId];
                    var k := FindQuestion(p.questions, questionId).value;
                    var idx := optionIndex.value as nat;
                    var ans := StudentAnswer(socketId, OrElse(sockets[socketId].name, studentName), tab, idx, now);
                    var p' := Answered(p, k, idx, ans);
                    && (Savable(p') ==>
                          && polls == old(polls)[pollId := p']
                          && outbox == old(outbox) + [Event(Room(pollId), ResultUpdate(TallyOf(p'.questions[k]))),
                                                      Event(Socket(socketId), AnswerFeedback(questionId, p.questions[k].options[idx].isCorrect,
                                                                                             CorrectAnswer(p.questions[k].options)))])
                    && (!Savable(p') ==>
                          polls == old(polls) && outbox == old(outbox) + [Error(socketId, "Failed to submit answer")]))
      ensures old(Inv()) ==> Inv()
    {
      ghost var wasInv := Inv();
      var tab := SubmitTab(polls, sockets[socketId], socketId, pollId, requestTab);
      var verdict := SubmitCheck(polls, pollId, questionId, optionIndex, socketId, tab);
      if verdict.Reject? {
        outbox := outbox + [Error(socketId, verdict.message)];
        return;
      }
      var p := polls[pollId];
      var k := FindQuestion(p.questions, questionId).value;
      var idx := optionIndex.value as nat;
      var ans := StudentAnswer(socketId, OrElse(sockets[socketId].name, studentName), tab, idx, now);
      var p' := Answered(p, k, idx, ans);
      if !Savable(p') {
        outbox := outbox + [Error(socketId, "Failed to submit answer")];
        return;
      }
      if wasInv {
        AlreadyAnsweredIsNotNew(p.questions[k].studentAnswers, ans);
        AnswerKeepsInvariant(p, k, idx, ans);
        QuietUpdateKeepsStore(polls, timers, issued, pollId, p');
      }
      polls := polls[pollId := p'];
      var q' := p'.questions[k];
      outbox := outbox + [Event(Room(pollId), ResultUpdate(TallyOf(q'))),
                          Event(Socket(socketId), AnswerFeedback(questionId, p.questions[k].options[idx].isCorrect,
                                                                 CorrectAnswer(p.questions[k].options)))];
    }

    /** A chat message is stored with the poll when the poll exists, and broadcast to the room. */
    method Chat(pollId: string, message: string, sender: string, role: string, now: Time)
      modifies this`polls, this`outbox
      ensures pollId !in old(polls) ==>
                polls == old(polls) && outbox == old(outbox) + [Event(Room(pollId), ChatBroadcast(message, sender, role, now))]
      ensures pollId in old(polls) ==>
                var p' := WithChatMessage(old(polls)[pollId], NewChatMessage(message, sender, role, now));
                && (Savable(p') ==> polls == old(polls)[pollId := p']
                                    && outbox == old(outbox) + [Event(Room(pollId), ChatBroadcast(message, sender, role, now))])
                && (!Savable(p') ==> polls == old(polls) && outbox == old(outbox))
      ensures old(Inv()) ==> Inv()
    {
      ghost var wasInv := Inv();
      if pollId in polls {
        var p := polls[pollId];
        var m := NewChatMessage(message, sender, role, now);
        var p' := WithChatMessage(p, m);
        if !Savable(p') {
          return;
        }
        if wasInv {
          RosterEditsKeepInvariant(p, Session("", "", now, None), "", m);
          QuietUpdateKeepsStore(polls, timers, issued, pollId, p');
        }
        polls := polls[pollId := p'];
      }
      outbox := outbox + [Event(Room(pollId), ChatBroadcast(message, sender, role, now))];
    }

    /**
     * A teacher removes a connection from a poll's roster: every session of `target` goes, the
     * target (if still connected) is told and disconnected, and the room is sent the new roster.
     */
    method KickStudent(socketId: string, credential: Credential, pollId: string, target: string)
      modifies this`polls, this`outbox
      ensures KickCheck(old(polls), credential, pollId, target).Reject? ==>
                polls == old(polls) && outbox == old(outbox) + [Error(socketId, KickCheck(old(polls), credential, pollId, target).message)]
      ensures KickCheck(old(polls), credential, pollId, target) == Ignore ==>
                polls == old(polls) && outbox == old(outbox)
      ensures KickCheck(old(polls), credential, pollId, target) == Proceed ==>
                var p' := WithoutSessionsOf(old(polls)[pollId], target);
                && (Savable(p') ==>
                      && polls == old(polls)[pollId := p']
                      && outbox == old(outbox)
                                   + (if target in sockets
                                      then [Event(Socket(target), KickedOut("You have been removed from the poll")),
                                            Event(Socket(target), ForcedDisconnect)]
                                      else [])
                                   + [RosterBroadcast(pollId, p')])
                && (!Savable(p') ==> polls == old(polls) && outbox == old(outbox) + [Error(socketId, "Failed to kick student")])
      ensures old(Inv()) ==> Inv()
    {
      ghost var wasInv := Inv();
      var verdict := KickCheck(polls, credential, pollId, target);
      if verdict.Reject? {
        outbox := outbox + [Error(socketId, verdict.message)];
        return;
      } else if verdict == Ignore {
        return;
      }
      var p := polls[pollId];
      var p' := WithoutSessionsOf(p, target);
      if !Savable(p') {
        outbox := outbox + [Error(socketId, "Failed to kick student")];
        return;
      }
      if wasInv {
        RosterEditsKeepInvariant(p, Session("", "", 0, None), target, ChatMessage("", "", "", 0));
        QuietUpdateKeepsStore(polls, timers, issued, pollId, p');
      }
      polls := polls[pollId := p'];
      if target in sockets {
        outbox := outbox + [Event(Socket(target), KickedOut("You have been removed from the poll")),
                            Event(Socket(target), ForcedDisconnect)];
      }
      outbox := outbox + [RosterBroadcast(pollId, p')];
    }

    /**
     * A connection closes: it is forgotten, and when it had joined an existing poll its sessions
     * leave that poll's roster and the room is sent the new roster.
     */
    method Disconnect(socketId: string)
      requires socketId in sockets
      modifies this`polls, this`sockets, this`outbox
      ensures sockets == old(sockets) - {socketId}
      ensures var joined := old(sockets)[socketId].pollId;
              && (!IsSet(joined) || joined.value !in old(polls) ==> polls == old(polls) && outbox == old(outbox))
              && (IsSet(joined) && joined.value in old(polls) ==>
                    var p' := WithoutSessionsOf(old(polls)[joined.value], socketId);
                    && (Savable(p') ==> polls == old(polls)[joined.value := p']
                                        && outbox == old(outbox) + [RosterBroadcast(joined.value, p')])
                    && (!Savable(p') ==> polls == old(polls) && outbox == old(outbox)))
      ensures old(Inv()) ==> Inv()
    {
      ghost var wasInv := Inv();
      var joined := sockets[socketId].pollId;
      sockets := sockets - {socketId};
      if IsSet(joined) && joined.value in polls {
        var pollId := joined.value;
        var p := polls[pollId];
        var p' := WithoutSessionsOf(p, socketId);
        if !Savable(p') {
          return;
        }
        if wasInv {
          RosterEditsKeepInvariant(p, Session("", "", 0, None), socketId, ChatMessage("", "", "", 0));
          QuietUpdateKeepsStore(polls, timers, issued, pollId, p');
        }
        polls := polls[pollId := p'];
        outbox := outbox + [RosterBroadcast(pollId, p')];
      }
    }

    /**
     * One second of the countdown timing `questionId`: the seconds left drop by one and are sent
     * to the room; at zero the countdown stops and, unless the question was already closed, it
     * is finalised and the room is sent the final tally.
     */
    method Tick(questionId: string, now: Time)
      requires questionId in timers
      modifies this`polls, this`timers, this`outbox
      ensures var c := old(timers)[questionId];
              var left := c.secondsLeft - 1;
              && |outbox| >= |old(outbox)| + 1
              && outbox[..|old(outbox)| + 1] == old(outbox) + [Event(Room(c.pollId), TimeLeft(left))]
              && (left > 0 ==> timers == old(timers)[questionId := Countdown(c.pollId, left)]
                               && polls == old(polls) && |outbox| == |old(outbox)| + 1)
              && (left <= 0 ==> timers == old(timers) - {questionId})
      ensures var c := old(timers)[questionId];
              var left := c.secondsLeft - 1;
              left <= 0 ==>
                if c.pollId in old(polls) && FindQuestion(old(polls)[c.pollId].questions, questionId).Some?
                   && old(polls)[c.pollId].questions[FindQuestion(old(polls)[c.pollId].questions, questionId).value].endedAt.None?
                   && Savable(Finalised(old(polls)[c.pollId], FindQuestion(old(polls)[c.pollId].questions, questionId).value, now))
                then
                  var k := FindQuestion(old(polls)[c.pollId].questions, questionId).value;
                  var p' := Finalised(old(polls)[c.pollId], k, now);
                  && polls == old(polls)[c.pollId := p']
                  && outbox == old(outbox) + [Event(Room(c.pollId), TimeLeft(left)), Event(Room(c.pollId), QuestionEnded(TallyOf(p'.questions[k])))]
                else
                  polls == old(polls) && outbox == old(outbox) + [Event(Room(c.pollId), TimeLeft(left))]
      ensures old(Inv()) ==> Inv()
    {
      ghost var wasInv := Inv();
      var c := timers[questionId];
      var left := c.secondsLeft - 1;
      outbox := outbox + [Event(Room(c.pollId), TimeLeft(left))];
      if left > 0 {
        if wasInv {
          TickKeepsStore(polls, timers, issued, questionId, left);
        }
        timers := timers[questionId := Countdown(c.pollId, left)];
        return;
      }
      ghost var polls0, timers0 := polls, timers;
      timers := timers - {questionId};
      ExpireQuestion(c.pollId, questionId, now);
      if wasInv {
        ExpireStepInto(polls0, timers0, issued, questionId, now, polls);
      }
    }

    /**
     * What a countdown does once it reaches zero, after it is dropped: a question that is still
     * open is closed and saved, and the room is sent its final tally; otherwise nothing happens.
     */
    method ExpireQuestion(pollId: string, questionId: string, now: Time)
      modifies this`polls, this`outbox
      ensures if pollId in old(polls) && FindQuestion(old(polls)[pollId].questions, questionId).Some?
                 && old(polls)[pollId].questions[FindQuestion(old(polls)[pollId].questions, questionId).value].endedAt.None?
                 && Savable(Finalised(old(polls)[pollId], FindQuestion(old(polls)[pollId].questions, questionId).value, now))
              then
                var k := FindQuestion(old(polls)[pollId].questions, questionId).value;
                var p' := Finalised(old(polls)[pollId], k, now);
                && polls == old(polls)[pollId := p']
                && outbox == old(outbox) + [Event(Room(pollId), QuestionEnded(TallyOf(p'.questions[k])))]
              else
                polls == old(polls) && outbox == old(outbox)
    {
      if pollId !in polls {
        return;
      }
      var p := polls[pollId];
      var found := FindQuestion(p.questions, questionId);
      if found.None? {
        return;
      }
      var k := found.value;
      if p.questions[k].endedAt.Some? {
        return;
      }
      var p' := Finalised(p, k, now);
      if !Savable(p') {
        return;
      }
      polls := polls[pollId := p'];
      outbox := outbox + [Event(Room(pollId), QuestionEnded(TallyOf(p'.questions[k])))];
    }
  }
}

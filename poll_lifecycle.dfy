/**
 * The edits the session coordinator makes to one poll document — opening a question,
 * recording an answer, finalising a question, adding and removing sessions — and the
 * invariants they keep: votes agree with the recorded answers, one answer per connection and
 * per tab, question ids unique, and at most one question open, which is then the current one.
 */
module PollLifecycle {
  import opened Wrappers
  import opened PollModel
  import opened Tally
  import opened Roster

  /** JavaScript truthiness of a nullable string: present and not empty. */
  predicate IsSet(s: Option<string>) {
    s.Some? && s.value != ""
  }

  /** `a || b` on nullable strings. */
  function OrElse(a: Option<string>, b: Option<string>): (r: Option<string>)
    ensures IsSet(a) ==> r == a
    ensures !IsSet(a) ==> r == b
  {
    if IsSet(a) then a else b
  }

  /** `questions.find(q => q.questionId === id)`, as the index of the first match. */
  function FindQuestion(questions: seq<Question>, id: string): (r: Option<nat>)
    ensures r.None? <==> forall i :: 0 <= i < |questions| ==> questions[i].questionId != id
    ensures r.Some? ==> r.value < |questions| && questions[r.value].questionId == id
    ensures r.Some? ==> forall j :: 0 <= j < r.value ==> questions[j].questionId != id
  {
    if questions == [] then None
    else if questions[0].questionId == id then Some(0)
    else match FindQuestion(questions[1..], id) {
      case None => None
      case Some(k) => Some(k + 1)
    }
  }

  // ---------------------------------------------------------------------------------------
  // Invariants of one question

  /** How many of `answers` chose option `i`. */
  function CountChoosing(answers: seq<StudentAnswer>, i: int): (n: nat)
    ensures n <= |answers|
  {
    if answers == [] then 0
    else CountChoosing(answers[..|answers| - 1], i) + (if answers[|answers| - 1].optionIndex == i then 1 else 0)
  }

  /** Each option's vote count is the number of answers that chose it. */
  predicate VotesMatchAnswers(q: Question) {
    forall i :: 0 <= i < |q.options| ==> q.options[i].votes == CountChoosing(q.studentAnswers, i)
  }

  /** Every answer chose one of the question's options. */
  predicate AnswerIndicesValid(q: Question) {
    forall k :: 0 <= k < |q.studentAnswers| ==> 0 <= q.studentAnswers[k].optionIndex < |q.options|
  }

  /** No two answers came from the same connection or from the same tab. */
  predicate AnswersDistinct(answers: seq<StudentAnswer>) {
    forall j, k :: 0 <= j < k < |answers| ==>
      answers[j].socketId != answers[k].socketId && answers[j].tabId != answers[k].tabId
  }

  predicate QuestionInvariant(q: Question) {
    VotesMatchAnswers(q) && AnswerIndicesValid(q) && AnswersDistinct(q.studentAnswers)
  }

  /** `SumCounts(answers, lo, hi)` adds up the answers choosing each option index in `[lo, hi)`. */
  function SumCounts(answers: seq<StudentAnswer>, lo: int, hi: int): nat
    decreases hi - lo
  {
    if lo >= hi then 0 else CountChoosing(answers, lo) + SumCounts(answers, lo + 1, hi)
  }

  /** Adding one answer adds one to the range's count exactly when it chose an index in the range. */
  lemma {:induction false} SumCountsSnoc(answers: seq<StudentAnswer>, x: StudentAnswer, lo: int, hi: int)
    ensures SumCounts(answers + [x], lo, hi)
            == SumCounts(answers, lo, hi) + (if lo <= x.optionIndex < hi then 1 else 0)
    decreases hi - lo
  {
    assert (answers + [x])[..|answers + [x]| - 1] == answers;
    if lo < hi {
      SumCountsSnoc(answers, x, lo + 1, hi);
    }
  }

  /** When every answer chose an index in `[lo, hi)`, the per-index counts add up to all answers. */
  lemma {:induction false} SumCountsAll(answers: seq<StudentAnswer>, lo: int, hi: int)
    requires forall k :: 0 <= k < |answers| ==> lo <= answers[k].optionIndex < hi
    ensures SumCounts(answers, lo, hi) == |answers|
    decreases |answers|
  {
    if answers == [] {
      SumCountsEmpty(lo, hi);
    } else {
      var init, x := answers[..|answers| - 1], answers[|answers| - 1];
      assert answers == init + [x];
      SumCountsAll(init, lo, hi);
      SumCountsSnoc(init, x, lo, hi);
    }
  }

  lemma {:induction false} SumCountsEmpty(lo: int, hi: int)
    ensures SumCounts([], lo, hi) == 0
    decreases hi - lo
  {
    if lo < hi {
      SumCountsEmpty(lo + 1, hi);
    }
  }

  /** The votes of the options from `lo` on add up to the answers choosing those options. */
  lemma {:induction false} SumVotesFrom(q: Question, lo: int)
    requires VotesMatchAnswers(q) && 0 <= lo <= |q.options|
    ensures SumVotes(q.options[lo..]) == SumCounts(q.studentAnswers, lo, |q.options|)
    decreases |q.options| - lo
  {
    if lo < |q.options| {
      assert q.options[lo..][1..] == q.options[lo + 1..];
      SumVotesFrom(q, lo + 1);
    }
  }

  /** The total of a question's votes is its number of answers. */
  lemma TotalVotesEqualsAnswers(q: Question)
    requires QuestionInvariant(q)
    ensures SumVotes(q.options) == |q.studentAnswers|
  {
    SumVotesFrom(q, 0);
    assert q.options[0..] == q.options;
    SumCountsAll(q.studentAnswers, 0, |q.options|);
  }

  /** What a teacher's start request describes: the question text, each option's text and flag, a time limit. */
  datatype OptionSpec = OptionSpec(text: string, isCorrect: Option<bool>)
  datatype QuestionSpec = QuestionSpec(text: string, options: seq<OptionSpec>, timeLimit: Option<int>)

  /** `timeLimit || 60`: a missing or zero limit becomes the default. */
  function EffectiveTimeLimit(timeLimit: Option<int>): (t: int)
    ensures t != 0
    ensures timeLimit.Some? && timeLimit.value != 0 ==> t == timeLimit.value
    ensures timeLimit.None? || timeLimit.value == 0 ==> t == DefaultTimeLimit
  {
    if timeLimit.Some? && timeLimit.value != 0 then timeLimit.value else DefaultTimeLimit
  }

  /** The option stored for a requested one: no votes yet, `!!isCorrect`. */
  function OpenOption(o: OptionSpec): (r: AnswerOption)
    ensures r.text == o.text && r.votes == 0
    ensures r.isCorrect <==> o.isCorrect == Some(true)
  {
    AnswerOption(o.text, 0, o.isCorrect.Some? && o.isCorrect.value)
  }

  /** The question stored when one is started at `now` under the fresh id `questionId`. */
  function OpenQuestion(spec: QuestionSpec, questionId: string, now: Time): (q: Question)
    ensures q.questionId == questionId && q.text == spec.text && q.startedAt == now
    ensures q.timeLimit == EffectiveTimeLimit(spec.timeLimit)
    ensures q.endedAt.None? && !q.resultsSaved && q.studentAnswers == []
    ensures |q.options| == |spec.options|
    ensures forall i :: 0 <= i < |q.options| ==> q.options[i] == OpenOption(spec.options[i])
  {
    Question(questionId, spec.text,
             seq(|spec.options|, i requires 0 <= i < |spec.options| => OpenOption(spec.options[i])),
             EffectiveTimeLimit(spec.timeLimit), now, None, false, [])
  }

  /** A freshly opened question has no votes at all and keeps the invariant. */
  lemma OpenQuestionFresh(spec: QuestionSpec, questionId: string, now: Time)
    ensures QuestionInvariant(OpenQuestion(spec, questionId, now))
    ensures SumVotes(OpenQuestion(spec, questionId, now).options) == 0
  {
    TotalVotesEqualsAnswers(OpenQuestion(spec, questionId, now));
  }

  /** The question after the answer `ans` for option `idx` is recorded. */
  function WithAnswer(q: Question, idx: nat, ans: StudentAnswer): (r: Question)
    requires idx < |q.options|
    ensures r.questionId == q.questionId && r.text == q.text && r.timeLimit == q.timeLimit
    ensures r.startedAt == q.startedAt && r.endedAt == q.endedAt
    ensures r.studentAnswers == q.studentAnswers + [ans]
    ensures |r.options| == |q.options|
    ensures r.options == q.options[idx := q.options[idx].(votes := q.options[idx].votes + 1)]
    ensures r.resultsSaved == (q.resultsSaved || q.studentAnswers == [])
  {
    var opt := q.options[idx];
    var answers := q.studentAnswers + [ans];
    q.(options := q.options[idx := opt.(votes := opt.votes + 1)],
       studentAnswers := answers,
       resultsSaved := if |answers| == 1 then true else q.resultsSaved)
  }

  /** An answer is new when neither its connection nor its tab has answered before. */
  predicate IsNewAnswer(answers: seq<StudentAnswer>, ans: StudentAnswer) {
    forall k :: 0 <= k < |answers| ==> answers[k].socketId != ans.socketId && answers[k].tabId != ans.tabId
  }

  /**
   * Recording a new answer raises exactly the chosen option's votes by one and appends the
   * answer, so the question's invariant is kept.
   */
  lemma WithAnswerKeepsInvariant(q: Question, idx: nat, ans: StudentAnswer)
    requires QuestionInvariant(q) && idx < |q.options| && ans.optionIndex == idx
    requires IsNewAnswer(q.studentAnswers, ans)
    ensures QuestionInvariant(WithAnswer(q, idx, ans))
    ensures WithAnswer(q, idx, ans).options[idx].votes == q.options[idx].votes + 1
    ensures forall i :: 0 <= i < |q.options| && i != idx ==>
              WithAnswer(q, idx, ans).options[i] == q.options[i]
    ensures SumVotes(WithAnswer(q, idx, ans).options) == SumVotes(q.options) + 1
  {
    var r := WithAnswer(q, idx, ans);
    assert r.studentAnswers[..|r.studentAnswers| - 1] == q.studentAnswers;
    assert VotesMatchAnswers(r);
    TotalVotesEqualsAnswers(q);
    TotalVotesEqualsAnswers(r);
  }

  /** The question as it stands once it is over: closed at `now`, results marked saved. */
  function Closed(q: Question, now: Time): (r: Question)
    ensures r.endedAt == Some(now) && r.resultsSaved
    ensures r.questionId == q.questionId && r.options == q.options && r.studentAnswers == q.studentAnswers
  {
    q.(endedAt := Some(now), resultsSaved := true)
  }

  /** Closing a question does not change its tally. */
  lemma ClosedKeepsTally(q: Question, now: Time)
    ensures TallyOf(Closed(q, now)) == TallyOf(q)
  {
  }

  // ---------------------------------------------------------------------------------------
  // Invariants of one poll

  predicate UniqueQuestionIds(questions: seq<Question>) {
    forall j, k :: 0 <= j < k < |questions| ==> questions[j].questionId != questions[k].questionId
  }

  /**
   * The current-question id and the active flag agree with the questions: a current id names
   * a stored question, an active poll has a current question and it is open, and every open
   * question is the current question of an active poll.
   */
  predicate ActivityConsistent(p: Poll) {
    && (p.currentQuestionId.Some? ==>
          p.currentQuestionId.value != "" && FindQuestion(p.questions, p.currentQuestionId.value).Some?)
    && (p.isQuestionActive ==>
          p.currentQuestionId.Some?
          && FindQuestion(p.questions, p.currentQuestionId.value).Some?
          && p.questions[FindQuestion(p.questions, p.currentQuestionId.value).value].endedAt.None?)
    && (forall k :: 0 <= k < |p.questions| && p.questions[k].endedAt.None? ==>
          p.isQuestionActive && p.currentQuestionId == Some(p.questions[k].questionId))
  }

  predicate PollInvariant(p: Poll) {
    && UniqueQuestionIds(p.questions)
    && (forall k :: 0 <= k < |p.questions| ==> QuestionInvariant(p.questions[k]))
    && ActivityConsistent(p)
  }

  /** A new poll satisfies the invariant. */
  lemma NewPollInvariant(title: string, now: Time)
    ensures PollInvariant(NewPoll(title, now))
  {
  }

  /** At most one question of a poll is open at a time. */
  lemma AtMostOneOpen(p: Poll, j: int, k: int)
    requires PollInvariant(p)
    requires 0 <= j < |p.questions| && 0 <= k < |p.questions|
    requires p.questions[j].endedAt.None? && p.questions[k].endedAt.None?
    ensures j == k
  {
  }

  /** An open question means the poll is active; an inactive poll has every question closed. */
  lemma InactiveAllClosed(p: Poll)
    requires PollInvariant(p) && !p.isQuestionActive
    ensures forall k :: 0 <= k < |p.questions| ==> p.questions[k].endedAt.Some?
  {
  }

  /** The index of the current question of an active poll. */
  function CurrentIndex(p: Poll): (k: nat)
    requires PollInvariant(p) && p.isQuestionActive
    ensures k < |p.questions| && Some(p.questions[k].questionId) == p.currentQuestionId
    ensures p.questions[k].endedAt.None?
  {
    FindQuestion(p.questions, p.currentQuestionId.value).value
  }

  /** The poll once question `q` is started: appended, made current, poll active. */
  function WithStartedQuestion(p: Poll, q: Question): (r: Poll)
    ensures r.questions == p.questions + [q]
    ensures r.currentQuestionId == Some(q.questionId) && r.isQuestionActive
    ensures r.sessions == p.sessions && r.chatMessages == p.chatMessages && r.title == p.title
  {
    p.(questions := p.questions + [q], currentQuestionId := Some(q.questionId), isQuestionActive := true)
  }

  /**
   * Starting a question on a poll with nothing active, under an id no question of the poll
   * has, keeps the invariant; the new question is the only open one.
   */
  lemma StartKeepsInvariant(p: Poll, spec: QuestionSpec, questionId: string, now: Time)
    requires PollInvariant(p) && !p.isQuestionActive && questionId != ""
    requires FindQuestion(p.questions, questionId).None?
    ensures PollInvariant(WithStartedQuestion(p, OpenQuestion(spec, questionId, now)))
  {
    var q := OpenQuestion(spec, questionId, now);
    var r := WithStartedQuestion(p, q);
    OpenQuestionFresh(spec, questionId, now);
    assert r.questions[|p.questions|] == q;
    assert FindQuestion(r.questions, questionId) == Some(|p.questions|);
  }

  /** The poll once its question at index `k` is finalised at `now`: closed, poll no longer active. */
  function Finalised(p: Poll, k: nat, now: Time): (r: Poll)
    requires k < |p.questions|
    ensures |r.questions| == |p.questions| && r.questions[k] == Closed(p.questions[k], now)
    ensures forall i :: 0 <= i < |p.questions| && i != k ==> r.questions[i] == p.questions[i]
    ensures !r.isQuestionActive && r.currentQuestionId == p.currentQuestionId
    ensures r.sessions == p.sessions && r.chatMessages == p.chatMessages && r.title == p.title
  {
    p.(questions := p.questions[k := Closed(p.questions[k], now)], isQuestionActive := false)
  }

  /** Finalising the current question of an active poll keeps the invariant. */
  lemma FinaliseKeepsInvariant(p: Poll, k: nat, now: Time)
    requires PollInvariant(p) && p.isQuestionActive && k < |p.questions|
    requires Some(p.questions[k].questionId) == p.currentQuestionId
    ensures PollInvariant(Finalised(p, k, now))
    ensures forall i :: 0 <= i < |p.questions| ==> Finalised(p, k, now).questions[i].endedAt.Some?
  {
    var r := Finalised(p, k, now);
    forall i | 0 <= i < |p.questions| && i != k ensures p.questions[i].endedAt.Some? {
      assert p.questions[i].questionId != p.questions[k].questionId;
    }
  }

  /** The poll once the answer `ans` for option `idx` of question `k` is recorded. */
  function Answered(p: Poll, k: nat, idx: nat, ans: StudentAnswer): (r: Poll)
    requires k < |p.questions| && idx < |p.questions[k].options|
    ensures |r.questions| == |p.questions| && r.questions[k] == WithAnswer(p.questions[k], idx, ans)
    ensures forall i :: 0 <= i < |p.questions| && i != k ==> r.questions[i] == p.questions[i]
    ensures r.isQuestionActive == p.isQuestionActive && r.currentQuestionId == p.currentQuestionId
    ensures r.sessions == p.sessions && r.chatMessages == p.chatMessages && r.title == p.title
  {
    p.(questions := p.questions[k := WithAnswer(p.questions[k], idx, ans)])
  }

  /** Recording a new answer for a valid option keeps the invariant. */
  lemma AnswerKeepsInvariant(p: Poll, k: nat, idx: nat, ans: StudentAnswer)
    requires PollInvariant(p) && k < |p.questions| && idx < |p.questions[k].options|
    requires ans.optionIndex == idx && IsNewAnswer(p.questions[k].studentAnswers, ans)
    ensures PollInvariant(Answered(p, k, idx, ans))
  {
    WithAnswerKeepsInvariant(p.questions[k], idx, ans);
    var r := Answered(p, k, idx, ans);
    assert forall i :: 0 <= i < |r.questions| ==> r.questions[i].questionId == p.questions[i].questionId
                                                  && r.questions[i].endedAt == p.questions[i].endedAt;
    if p.isQuestionActive {
      var c := CurrentIndex(p);
      assert FindQuestion(r.questions, p.currentQuestionId.value) == Some(c);
    }
  }

  /** The poll with session `s` appended to the roster. */
  function WithSession(p: Poll, s: Session): (r: Poll)
    ensures r.sessions == p.sessions + [s]
    ensures r.questions == p.questions && r.isQuestionActive == p.isQuestionActive
    ensures r.currentQuestionId == p.currentQuestionId && r.chatMessages == p.chatMessages
  {
    p.(sessions := p.sessions + [s])
  }

  /** The poll with every session of connection `socketId` removed from the roster. */
  function WithoutSessionsOf(p: Poll, socketId: string): (r: Poll)
    ensures r.sessions == WithoutSocket(p.sessions, socketId)
    ensures r.questions == p.questions && r.isQuestionActive == p.isQuestionActive
    ensures r.currentQuestionId == p.currentQuestionId && r.chatMessages == p.chatMessages
  {
    p.(sessions := WithoutSocket(p.sessions, socketId))
  }

  /** The poll with a chat message appended. */
  function WithChatMessage(p: Poll, m: ChatMessage): (r: Poll)
    ensures r.chatMessages == p.chatMessages + [m]
    ensures r.questions == p.questions && r.sessions == p.sessions
    ensures r.isQuestionActive == p.isQuestionActive && r.currentQuestionId == p.currentQuestionId
  {
    p.(chatMessages := p.chatMessages + [m])
  }

  /** Roster and chat edits leave the question state, and so the invariant, alone. */
  lemma RosterEditsKeepInvariant(p: Poll, s: Session, socketId: string, m: ChatMessage)
    requires PollInvariant(p)
    ensures PollInvariant(WithSession(p, s))
    ensures PollInvariant(WithoutSessionsOf(p, socketId))
    ensures PollInvariant(WithChatMessage(p, m))
  {
  }

  // ---------------------------------------------------------------------------------------
  // Which edits pass the schema's validation on save

  /** Closing never touches a required string, so a valid poll stays valid. */
  lemma FinaliseKeepsSavable(p: Poll, k: nat, now: Time)
    requires Savable(p) && k < |p.questions|
    ensures Savable(Finalised(p, k, now))
  {
  }

  /** Recording an answer never touches a required string, so a valid poll stays valid. */
  lemma AnswerKeepsSavable(p: Poll, k: nat, idx: nat, ans: StudentAnswer)
    requires Savable(p) && k < |p.questions| && idx < |p.questions[k].options|
    ensures Savable(Answered(p, k, idx, ans))
  {
    var a := Answered(p, k, idx, ans);
    assert forall i :: 0 <= i < |a.questions[k].options| ==> a.questions[k].options[i].text == p.questions[k].options[i].text;
  }

  /** A started question can be saved exactly when it and every option have text, and the id is not empty. */
  lemma StartSavable(p: Poll, spec: QuestionSpec, questionId: string, now: Time)
    requires Savable(p)
    ensures Savable(WithStartedQuestion(p, OpenQuestion(spec, questionId, now)))
            <==> questionId != "" && spec.text != "" && forall i :: 0 <= i < |spec.options| ==> spec.options[i].text != ""
  {
    var q := OpenQuestion(spec, questionId, now);
    var r := WithStartedQuestion(p, q);
    assert r.questions[|p.questions|] == q;
    if Savable(r) {
      assert QuestionSavable(q);
      forall i | 0 <= i < |spec.options| ensures spec.options[i].text != "" {
        assert OptionSavable(q.options[i]);
      }
    }
  }

  /** Roster edits keep a poll savable as long as the joining session has a connection id and a name. */
  lemma RosterEditsKeepSavable(p: Poll, s: Session, socketId: string)
    requires Savable(p)
    ensures Savable(WithSession(p, s)) <==> SessionSavable(s)
    ensures Savable(WithoutSessionsOf(p, socketId))
  {
    var r := WithSession(p, s);
    assert r.sessions[|p.sessions|] == s;
    var w := WithoutSocket(p.sessions, socketId);
    forall i | 0 <= i < |w| ensures SessionSavable(w[i]) {
      var j :| 0 <= j < |p.sessions| && p.sessions[j] == w[i];
    }
  }

  // ---------------------------------------------------------------------------------------
  // The countdown a late joiner is shown

  /** `max(0, timeLimit - floor((now - startedAt) / 1000))`, times in milliseconds. */
  function LateJoinTimeLeft(timeLimit: int, startedAt: Time, now: Time): (r: int)
    ensures r >= 0
    ensures now >= startedAt && timeLimit >= 0 ==> r <= timeLimit
  {
    var elapsed := (now - startedAt) / 1000;
    if timeLimit - elapsed > 0 then timeLimit - elapsed else 0
  }

  /** The later one joins, the less time is left. */
  lemma LateJoinTimeLeftMonotone(timeLimit: int, startedAt: Time, t1: Time, t2: Time)
    requires t1 <= t2
    ensures LateJoinTimeLeft(timeLimit, startedAt, t2) <= LateJoinTimeLeft(timeLimit, startedAt, t1)
  {
    assert (t1 - startedAt) / 1000 <= (t2 - startedAt) / 1000;
  }

  /**
   * A student joining `n` whole seconds (and `extra` milliseconds) after the start sees what
   * the room's countdown shows after `n` ticks, down to zero.
   */
  lemma LateJoinMatchesTicks(timeLimit: int, startedAt: Time, n: nat, extra: int)
    requires 0 <= extra < 1000
    ensures LateJoinTimeLeft(timeLimit, startedAt, startedAt + 1000 * n + extra)
            == if timeLimit - n > 0 then timeLimit - n else 0
  {
    assert (1000 * n + extra) / 1000 == n;
  }
}

/**
 * The poll document and its sub-documents (options, questions, answers, sessions, chat
 * messages), with the defaults the schema fills in and the "required" checks it runs when a
 * document is saved.
 */
module PollModel {
  import opened Wrappers

  /** A clock reading in milliseconds, as `Date.now()` returns it. */
  type Time = int

  /** The time limit, in seconds, a question gets when none is given. */
  const DefaultTimeLimit: int := 60

  /** One choice of a question, with its running vote count and whether it is the right one. */
  datatype AnswerOption = AnswerOption(text: string, votes: nat, isCorrect: bool)

  /** One recorded submission. `tabId` is the durable per-tab token, or the socket id when there is none. */
  datatype StudentAnswer = StudentAnswer(
    socketId: string,
    studentName: Option<string>,
    tabId: string,
    optionIndex: int,
    submittedAt: Time)

  datatype Question = Question(
    questionId: string,
    text: string,
    options: seq<AnswerOption>,
    timeLimit: int,
    startedAt: Time,
    endedAt: Option<Time>,
    resultsSaved: bool,
    studentAnswers: seq<StudentAnswer>)

  /** A participant on the roster: one live connection, with the name shown for it. */
  datatype Session = Session(socketId: string, name: string, joinedAt: Time, tabId: Option<string>)

  datatype ChatMessage = ChatMessage(message: string, sender: string, role: string, timestamp: Time)

  datatype Poll = Poll(
    title: string,
    createdAt: Time,
    questions: seq<Question>,
    sessions: seq<Session>,
    currentQuestionId: Option<string>,
    isQuestionActive: bool,
    chatMessages: seq<ChatMessage>)

  /** An option as the schema creates it when only its text is given. */
  function NewOption(text: string): (o: AnswerOption)
    ensures o.text == text && o.votes == 0 && !o.isCorrect
  {
    AnswerOption(text, 0, false)
  }

  /** A question as the schema creates it: default time limit, not ended, results not saved, no answers. */
  function NewQuestion(questionId: string, text: string, options: seq<AnswerOption>, startedAt: Time): (q: Question)
    ensures q.questionId == questionId && q.text == text && q.options == options && q.startedAt == startedAt
    ensures q.timeLimit == DefaultTimeLimit && !q.resultsSaved && q.endedAt.None? && q.studentAnswers == []
  {
    Question(questionId, text, options, DefaultTimeLimit, startedAt, None, false, [])
  }

  /** A session stamped with its join time; the tab token is optional. */
  function NewSession(socketId: string, name: string, now: Time, tabId: Option<string>): (s: Session)
    ensures s.socketId == socketId && s.name == name && s.tabId == tabId
    ensures s.joinedAt == now
  {
    Session(socketId, name, now, tabId)
  }

  /** A chat message stamped with the time it arrived. */
  function NewChatMessage(message: string, sender: string, role: string, now: Time): (m: ChatMessage)
    ensures m.message == message && m.sender == sender && m.role == role
    ensures m.timestamp == now
  {
    ChatMessage(message, sender, role, now)
  }

  /** A poll as created: no questions, nobody joined, no current question, nothing active, no chat. */
  function NewPoll(title: string, now: Time): (p: Poll)
    ensures p.currentQuestionId.None? && !p.isQuestionActive
    ensures p.questions == [] && p.sessions == [] && p.chatMessages == []
  {
    Poll(title, now, [], [], None, false, [])
  }

  // The schema's `required: true` on a string field rejects a missing or empty string when the
  // document is saved; the predicates below say which documents pass that validation.

  predicate OptionSavable(o: AnswerOption) {
    o.text != ""
  }

  predicate QuestionSavable(q: Question) {
    q.questionId != "" && q.text != "" && forall i :: 0 <= i < |q.options| ==> OptionSavable(q.options[i])
  }

  predicate SessionSavable(s: Session) {
    s.socketId != "" && s.name != ""
  }

  predicate ChatMessageSavable(m: ChatMessage) {
    m.message != "" && m.sender != "" && m.role != ""
  }

  /** True when saving `p` passes the schema's validation. */
  predicate Savable(p: Poll) {
    && p.title != ""
    && (forall i :: 0 <= i < |p.questions| ==> QuestionSavable(p.questions[i]))
    && (forall i :: 0 <= i < |p.sessions| ==> SessionSavable(p.sessions[i]))
    && (forall i :: 0 <= i < |p.chatMessages| ==> ChatMessageSavable(p.chatMessages[i]))
  }

  /** A freshly created poll passes validation exactly when it has a title. */
  lemma NewPollSavable(title: string, now: Time)
    ensures Savable(NewPoll(title, now)) <==> title != ""
  {
  }
}

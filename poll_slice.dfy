/**
 * The client's poll state: the poll being run or taken, the question on screen, the latest
 * results, the participant list and the teacher's poll history. Each reducer assigns one field
 * in place; `clearPoll` empties everything but the history.
 */
module PollSlice {
  import opened Wrappers
  import opened PollModel
  import opened Tally
  import opened Roster

  /** The question as the client keeps it: id, text, option texts and time limit. */
  datatype QuestionView = QuestionView(questionId: string, text: string, options: seq<string>, timeLimit: int)

  /** The whole state at one moment, for stating what a reducer leaves alone. */
  datatype PollView = PollView(
    currentPoll: Option<Poll>,
    currentQuestion: Option<QuestionView>,
    results: Option<Tally>,
    participants: seq<Participant>,
    pollHistory: seq<Poll>)

  /** The state before any action: no poll, no question, no results, no participants, no history. */
  const InitialView := PollView(None, None, None, [], [])

  /** What `clearPoll` leaves: the initial state, except that the history is kept. */
  function Cleared(v: PollView): (r: PollView)
    ensures r == InitialView.(pollHistory := v.pollHistory)
  {
    v.(currentPoll := None, currentQuestion := None, results := None, participants := [])
  }

  /** Clearing twice is clearing once. */
  lemma ClearedIdempotent(v: PollView)
    ensures Cleared(Cleared(v)) == Cleared(v)
  {
  }

  /** Clearing keeps the history and nothing else of the state it was given. */
  lemma ClearedDependsOnHistoryOnly(v: PollView, w: PollView)
    ensures Cleared(v) == Cleared(w) <==> v.pollHistory == w.pollHistory
  {
  }

  class PollState {
    var currentPoll: Option<Poll>
    var currentQuestion: Option<QuestionView>
    var results: Option<Tally>
    var participants: seq<Participant>
    var pollHistory: seq<Poll>

    function View(): PollView
      reads this
    {
      PollView(currentPoll, currentQuestion, results, participants, pollHistory)
    }

    constructor()
      ensures View() == InitialView
    {
      currentPoll := None;
      currentQuestion := None;
      results := None;
      participants := [];
      pollHistory := [];
    }

    method SetCurrentPoll(p: Option<Poll>)
      modifies this
      ensures View() == old(View()).(currentPoll := p)
    {
      currentPoll := p;
    }

    method SetCurrentQuestion(q: Option<QuestionView>)
      modifies this
      ensures View() == old(View()).(currentQuestion := q)
    {
      currentQuestion := q;
    }

    method SetResults(t: Option<Tally>)
      modifies this
      ensures View() == old(View()).(results := t)
    {
      results := t;
    }

    method SetParticipants(ps: seq<Participant>)
      modifies this
      ensures View() == old(View()).(participants := ps)
    {
      participants := ps;
    }

    method SetPollHistory(history: seq<Poll>)
      modifies this
      ensures View() == old(View()).(pollHistory := history)
    {
      pollHistory := history;
    }

    method ClearPoll()
      modifies this
      ensures View() == Cleared(old(View()))
      ensures pollHistory == old(pollHistory)
    {
      currentPoll := None;
      currentQuestion := None;
      results := None;
      participants := [];
    }
  }
}

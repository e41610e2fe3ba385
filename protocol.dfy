/**
 * The events the server sends: each is addressed either to a poll's room (everyone who joined
 * that poll) or to a single connection, and carries one of the payloads below.
 */
module Protocol {
  import opened Wrappers
  import opened PollModel
  import opened Tally
  import opened Roster

  /** A poll's room, or one connection. */
  datatype Target = Room(pollId: string) | Socket(socketId: string)

  datatype Payload =
    | ErrorMessage(message: string)
    | NameAssigned(name: string)
    | ParticipantsUpdate(participants: seq<Participant>)
    | QuestionStarted(questionId: string, pollId: string, questionText: string, options: seq<string>,
                      timeLimit: int, startAt: Time, timeLeft: Option<int>)
    | TimeLeft(secondsLeft: int)
    | ResultUpdate(results: Tally)
    | QuestionEnded(results: Tally)
    | AnswerFeedback(questionId: string, isCorrect: bool, correctAnswer: Option<string>)
    | ChatBroadcast(message: string, sender: string, role: string, timestamp: Time)
    | KickedOut(message: string)
      /** Not a message: the server closing the target connection. */
    | ForcedDisconnect

  datatype Event = Event(to: Target, payload: Payload)

  /** The texts of a question's options, in order, as they are broadcast. */
  function OptionTexts(options: seq<AnswerOption>): (ts: seq<string>)
    ensures |ts| == |options|
    ensures forall i :: 0 <= i < |ts| ==> ts[i] == options[i].text
  {
    seq(|options|, i requires 0 <= i < |options| => options[i].text)
  }

  /** An error reported to one connection. */
  function Error(socketId: string, message: string): Event {
    Event(Socket(socketId), ErrorMessage(message))
  }

  /** The participant list of `p`, broadcast to the room of `pollId`. */
  function RosterBroadcast(pollId: string, p: Poll): (e: Event)
    ensures e.to == Room(pollId) && e.payload.ParticipantsUpdate?
    ensures |e.payload.participants| == |p.sessions|
    ensures forall i :: 0 <= i < |p.sessions| ==>
              e.payload.participants[i].socketId == p.sessions[i].socketId && e.payload.participants[i].name == p.sessions[i].name
  {
    Event(Room(pollId), ParticipantsUpdate(Participants(p.sessions)))
  }
}

/**
 * The client's connection state: the socket, whether it is connected, the countdown shown to a
 * student, the student's name, whether the current question was answered, whether the student
 * was kicked, and the chat. Each reducer assigns its own part of the state in place.
 */
module SocketSlice {
  import opened Wrappers
  import opened PollModel

  /** The whole state at one moment, for stating what a reducer leaves alone. */
  datatype SocketView = SocketView(
    socket: Option<string>,
    isConnected: bool,
    timeLeft: Option<int>,
    studentName: Option<string>,
    hasAnswered: bool,
    kickedOut: bool,
    chatMessages: seq<ChatMessage>)

  /** The state before any action: nothing connected, no countdown, no name, an empty chat. */
  const InitialView := SocketView(None, false, None, None, false, false, [])

  /** What leaving a poll restores: the initial state, except that the student keeps the name. */
  function Reset(v: SocketView): (r: SocketView)
    ensures r == InitialView.(studentName := v.studentName)
  {
    v.(socket := None, isConnected := false, timeLeft := None, hasAnswered := false, kickedOut := false,
       chatMessages := [])
  }

  /** Resetting twice is resetting once. */
  lemma ResetIdempotent(v: SocketView)
    ensures Reset(Reset(v)) == Reset(v)
  {
  }

  /** Two states differing only in what a reset clears reset to the same state. */
  lemma ResetForgetsSession(v: SocketView, w: SocketView)
    requires v.studentName == w.studentName
    ensures Reset(v) == Reset(w)
  {
  }

  /** The chat a `setChatMessages` payload installs: a missing list stands for an empty one. */
  function ChatOrEmpty(payload: Option<seq<ChatMessage>>): (r: seq<ChatMessage>)
    ensures payload.None? ==> r == []
    ensures payload.Some? ==> r == payload.value
  {
    match payload {
      case None => []
      case Some(messages) => messages
    }
  }

  class SocketState {
    var socket: Option<string>
    var isConnected: bool
    var timeLeft: Option<int>
    var studentName: Option<string>
    var hasAnswered: bool
    var kickedOut: bool
    var chatMessages: seq<ChatMessage>

    function View(): SocketView
      reads this
    {
      SocketView(socket, isConnected, timeLeft, studentName, hasAnswered, kickedOut, chatMessages)
    }

    constructor()
      ensures View() == InitialView
    {
      socket := None;
      isConnected := false;
      timeLeft := None;
      studentName := None;
      hasAnswered := false;
      kickedOut := false;
      chatMessages := [];
    }

    method SetSocket(s: Option<string>)
      modifies this
      ensures View() == old(View()).(socket := s)
    {
      socket := s;
    }

    method SetConnected(connected: bool)
      modifies this
      ensures View() == old(View()).(isConnected := connected)
    {
      isConnected := connected;
    }

    method SetTimeLeft(t: Option<int>)
      modifies this
      ensures View() == old(View()).(timeLeft := t)
    {
      timeLeft := t;
    }

    method SetStudentName(name: Option<string>)
      modifies this
      ensures View() == old(View()).(studentName := name)
    {
      studentName := name;
    }

    method SetHasAnswered(answered: bool)
      modifies this
      ensures View() == old(View()).(hasAnswered := answered)
    {
      hasAnswered := answered;
    }

    method SetKickedOut(kicked: bool)
      modifies this
      ensures View() == old(View()).(kickedOut := kicked)
    {
      kickedOut := kicked;
    }

    method SetChatMessages(payload: Option<seq<ChatMessage>>)
      modifies this
      ensures View() == old(View()).(chatMessages := ChatOrEmpty(payload))
    {
      chatMessages := ChatOrEmpty(payload);
    }

    /** A new message goes at the end; the earlier ones stay as they were. */
    method AddChatMessage(m: ChatMessage)
      modifies this
      ensures View() == old(View()).(chatMessages := old(chatMessages) + [m])
      ensures |chatMessages| == |old(chatMessages)| + 1 && chatMessages[..|old(chatMessages)|] == old(chatMessages)
      ensures chatMessages[|chatMessages| - 1] == m
    {
      chatMessages := chatMessages + [m];
    }

    method ClearChatMessages()
      modifies this
      ensures View() == old(View()).(chatMessages := [])
    {
      chatMessages := [];
    }

    method ResetSocket()
      modifies this
      ensures View() == Reset(old(View()))
      ensures studentName == old(studentName)
    {
      socket := None;
      isConnected := false;
      timeLeft := None;
      hasAnswered := false;
      kickedOut := false;
      chatMessages := [];
    }
  }
}

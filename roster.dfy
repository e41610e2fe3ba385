/**
 * The roster of a poll: how a joining student's display name is made unique among the names
 * already on the roster, the participant list broadcast to the room, and the removal of a
 * connection's sessions when it is kicked or disconnects.
 */
module Roster {
  import opened Wrappers
  import opened PollModel
  import Decimal

  /** The name tried at step `k`: the requested name itself, then "name (1)", "name (2)", ... */
  function Candidate(name: string, k: nat): (c: string)
    ensures k == 0 ==> c == name
    ensures k > 0 ==> |c| >= |name| + 4 && c[..|name|] == name
  {
    if k == 0 then name else name + " (" + Decimal.NatToString(k) + ")"
  }

  /** Different steps try different names. */
  lemma CandidateInjective(name: string, a: nat, b: nat)
    ensures Candidate(name, a) == Candidate(name, b) ==> a == b
  {
    var ca, cb := Candidate(name, a), Candidate(name, b);
    if a > 0 && b > 0 && ca == cb {
      assert ca[|name| + 2..|ca| - 1] == Decimal.NatToString(a);
      assert cb[|name| + 2..|cb| - 1] == Decimal.NatToString(b);
      Decimal.NatToStringInjective(a, b);
    }
  }

  /** The names tried in the first `k` steps. */
  function Tried(name: string, k: nat): (t: set<string>)
    ensures forall j :: 0 <= j < k ==> Candidate(name, j) in t
    ensures forall x :: x in t ==> exists j :: 0 <= j < k && x == Candidate(name, j)
  {
    if k == 0 then {} else Tried(name, k - 1) + {Candidate(name, k - 1)}
  }

  /** The first `k` steps try `k` distinct names. */
  lemma {:induction false} TriedSize(name: string, k: nat)
    ensures |Tried(name, k)| == k
  {
    if k > 0 {
      TriedSize(name, k - 1);
      forall j | 0 <= j < k - 1
        ensures Candidate(name, j) != Candidate(name, k - 1)
      {
        CandidateInjective(name, j, k - 1);
      }
      assert Candidate(name, k - 1) !in Tried(name, k - 1);
    }
  }

  /** A subset is no larger than the set holding it. */
  lemma {:induction false} SubsetSize<T>(a: set<T>, b: set<T>)
    requires a <= b
    ensures |a| <= |b|
    decreases |a|
  {
    if a != {} {
      var x :| x in a;
      SubsetSize(a - {x}, b - {x});
    }
  }

  /** The distinct names among `existing`. */
  function NameSet(existing: seq<string>): set<string> {
    set x | x in existing
  }

  /**
   * The step at which the search for a free name stops, searching from step `k` when every
   * earlier step hit a taken name.
   */
  function FreeStep(existing: seq<string>, name: string, k: nat): (n: nat)
    requires forall j :: 0 <= j < k ==> Candidate(name, j) in existing
    ensures k <= n && Candidate(name, n) !in existing
    ensures forall j :: 0 <= j < n ==> Candidate(name, j) in existing
    decreases |NameSet(existing)| - k
  {
    if Candidate(name, k) !in existing then k
    else
      TriedSize(name, k + 1);
      SubsetSize(Tried(name, k + 1), NameSet(existing));
      FreeStep(existing, name, k + 1)
  }

  /** The display name a student asking for `name` gets, given the names already on the roster. */
  function AssignedName(existing: seq<string>, name: string): string {
    Candidate(name, FreeStep(existing, name, 0))
  }

  /**
   * `finalName` is what the renaming rule yields: it is not on the roster, and it is the
   * requested name decorated with the smallest suffix that is not on the roster.
   */
  ghost predicate IsFirstFreeName(existing: seq<string>, name: string, finalName: string) {
    && finalName !in existing
    && exists n: nat :: finalName == Candidate(name, n)
                     && forall j :: 0 <= j < n ==> Candidate(name, j) in existing
  }

  /** The assigned name is never one already on the roster, and no smaller suffix was free. */
  lemma AssignedNameIsFirstFree(existing: seq<string>, name: string)
    ensures IsFirstFreeName(existing, name, AssignedName(existing, name))
  {
    var n := FreeStep(existing, name, 0);
    assert AssignedName(existing, name) == Candidate(name, n);
  }

  /** Only one name satisfies the renaming rule. */
  lemma FirstFreeNameUnique(existing: seq<string>, name: string, f1: string, f2: string)
    requires IsFirstFreeName(existing, name, f1) && IsFirstFreeName(existing, name, f2)
    ensures f1 == f2
  {
    var n1: nat :| f1 == Candidate(name, n1) && forall j :: 0 <= j < n1 ==> Candidate(name, j) in existing;
    var n2: nat :| f2 == Candidate(name, n2) && forall j :: 0 <= j < n2 ==> Candidate(name, j) in existing;
    assert !(n1 < n2) && !(n2 < n1);
  }

  /** A free name is kept as it was asked for. */
  lemma FreeNameKept(existing: seq<string>, name: string)
    requires name !in existing
    ensures AssignedName(existing, name) == name
  {
  }

  /** A taken name gets a " (n)" suffix. */
  lemma TakenNameDecorated(existing: seq<string>, name: string)
    requires name in existing
    ensures AssignedName(existing, name) != name
    ensures exists n: nat :: n >= 1 && AssignedName(existing, name) == name + " (" + Decimal.NatToString(n) + ")"
  {
    var n := FreeStep(existing, name, 0);
    assert n >= 1;
  }

  /** With "Alice" and "Alice (1)" already taken, the next Alice becomes "Alice (2)". */
  lemma ThirdAlice()
    ensures AssignedName(["Alice", "Alice (1)", "Bob"], "Alice") == "Alice (2)"
  {
    var existing := ["Alice", "Alice (1)", "Bob"];
    assert Decimal.NatToString(1) == "1";
    assert Decimal.NatToString(2) == "2";
    assert Candidate("Alice", 0) in existing;
    assert Candidate("Alice", 1) == existing[1];
    assert Candidate("Alice", 2) == "Alice (2)";
    assert "Alice (2)" !in existing;
    assert FreeStep(existing, "Alice", 2) == 2;
  }

  /**
   * The renaming loop run when a student joins: try the requested name, then "name (1)",
   * "name (2)", ... until one is not among `existingNames`.
   */
  method AssignDisplayName(existingNames: seq<string>, name: string) returns (finalName: string)
    ensures finalName == AssignedName(existingNames, name)
    ensures finalName !in existingNames
  {
    finalName := name;
    var nameCount := 1;
    while finalName in existingNames
      invariant nameCount >= 1
      invariant finalName == Candidate(name, nameCount - 1)
      invariant forall j :: 0 <= j < nameCount - 1 ==> Candidate(name, j) in existingNames
      invariant FreeStep(existingNames, name, nameCount - 1) == FreeStep(existingNames, name, 0)
      decreases |NameSet(existingNames)| - (nameCount - 1)
    {
      TriedSize(name, nameCount);
      SubsetSize(Tried(name, nameCount), NameSet(existingNames));
      finalName := name + " (" + Decimal.NatToString(nameCount) + ")";
      nameCount := nameCount + 1;
    }
  }

  /** One entry of the participant list broadcast to the room. */
  datatype Participant = Participant(socketId: string, name: string)

  /** The participant list: every session's socket id and name, in roster order. */
  function Participants(sessions: seq<Session>): (ps: seq<Participant>)
    ensures |ps| == |sessions|
    ensures forall i :: 0 <= i < |ps| ==> ps[i] == Participant(sessions[i].socketId, sessions[i].name)
  {
    seq(|sessions|, i requires 0 <= i < |sessions| => Participant(sessions[i].socketId, sessions[i].name))
  }

  /** The names on the roster, in roster order. */
  function Names(sessions: seq<Session>): (ns: seq<string>)
    ensures |ns| == |sessions|
    ensures forall i :: 0 <= i < |ns| ==> ns[i] == sessions[i].name
  {
    seq(|sessions|, i requires 0 <= i < |sessions| => sessions[i].name)
  }

  /** `sessions.find(s => s.socketId === socketId)`, as the index of the first match. */
  function FindSession(sessions: seq<Session>, socketId: string): (r: Option<nat>)
    ensures r.None? <==> forall i :: 0 <= i < |sessions| ==> sessions[i].socketId != socketId
    ensures r.Some? ==> r.value < |sessions| && sessions[r.value].socketId == socketId
    ensures r.Some? ==> forall j :: 0 <= j < r.value ==> sessions[j].socketId != socketId
  {
    if sessions == [] then None
    else if sessions[0].socketId == socketId then Some(0)
    else match FindSession(sessions[1..], socketId) {
      case None => None
      case Some(k) => Some(k + 1)
    }
  }

  /** The roster with every session of connection `socketId` removed. */
  function WithoutSocket(sessions: seq<Session>, socketId: string): (r: seq<Session>)
    ensures |r| <= |sessions|
    ensures forall i :: 0 <= i < |r| ==> r[i].socketId != socketId && r[i] in sessions
  {
    if sessions == [] then []
    else if sessions[0].socketId == socketId then WithoutSocket(sessions[1..], socketId)
    else [sessions[0]] + WithoutSocket(sessions[1..], socketId)
  }

  /** Filtering a roster is filtering its parts: the sessions kept stay in their order. */
  lemma {:induction false} WithoutSocketAppend(a: seq<Session>, b: seq<Session>, socketId: string)
    ensures WithoutSocket(a + b, socketId) == WithoutSocket(a, socketId) + WithoutSocket(b, socketId)
    decreases |a|
  {
    if a != [] {
      assert (a + b)[1..] == a[1..] + b;
      WithoutSocketAppend(a[1..], b, socketId);
    } else {
      assert a + b == b;
    }
  }

  /** A single session is dropped exactly when it belongs to the connection. */
  lemma WithoutSocketSingle(s: Session, socketId: string)
    ensures WithoutSocket([s], socketId) == if s.socketId == socketId then [] else [s]
  {
  }

  /** Removing a connection that holds no session leaves the roster as it was. */
  lemma {:induction false} WithoutSocketAbsent(sessions: seq<Session>, socketId: string)
    requires forall i :: 0 <= i < |sessions| ==> sessions[i].socketId != socketId
    ensures WithoutSocket(sessions, socketId) == sessions
    decreases |sessions|
  {
    if sessions != [] {
      WithoutSocketAbsent(sessions[1..], socketId);
    }
  }

  /** Removing a connection twice is removing it once (a kick followed by the disconnect it causes). */
  lemma WithoutSocketIdempotent(sessions: seq<Session>, socketId: string)
    ensures WithoutSocket(WithoutSocket(sessions, socketId), socketId) == WithoutSocket(sessions, socketId)
  {
    WithoutSocketAbsent(WithoutSocket(sessions, socketId), socketId);
  }

  /** Every session of another connection survives the removal. */
  lemma {:induction false} WithoutSocketKeepsOthers(sessions: seq<Session>, socketId: string, s: Session)
    requires s in sessions && s.socketId != socketId
    ensures s in WithoutSocket(sessions, socketId)
    decreases |sessions|
  {
    if sessions[0] != s {
      WithoutSocketKeepsOthers(sessions[1..], socketId, s);
    }
  }
}

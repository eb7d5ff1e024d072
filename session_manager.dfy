/** The face-session state machine of the server: debounced detection of a face, timeout logout,
    the recognition outcome and a pending registration request.

    The module has two layers. The value layer (`FaceState`, `Session` and one step function per
    operation) says what each operation does to the whole session; the lemmas about sequences of
    operations are stated on it. The class `SessionManager` keeps the same state in fields and
    updates them in place, as the server does; each of its methods is proved to perform the step
    function of its operation. The clock is a parameter `now` (seconds), and the lock that
    serialises the methods is not modelled, except for the finding about it at the end. */
module FaceSession {
  import opened Wrappers
  import opened Boxes

  /** The state of the current face appearance. */
  datatype FaceState = FaceState(
    hasFace: bool,
    userId: Option<string>,
    isRecognized: bool,
    lastSeen: real,
    searchPerformed: bool,
    bbox: Option<BBox>)

  /** The field defaults of the `FaceState` record: no face, no user, never seen. */
  const DefaultFaceState := FaceState(false, None, false, 0.0, false, None)

  /** A request to register the face currently in view under `userId`. */
  datatype PendingRegistration = PendingRegistration(userId: string, bbox: BBox, timestamp: real)

  /** Everything the session manager holds. */
  datatype Session = Session(face: FaceState, pending: Option<PendingRegistration>)

  /** The state after construction and after every reset. */
  const Fresh := Session(DefaultFaceState, None)

  /** What every reachable session satisfies: a box is stored exactly while a face is present, and
      a user id is stored exactly while the face counts as recognized. */
  predicate Consistent(s: Session) {
    && (s.face.hasFace <==> s.face.bbox.Some?)
    && (s.face.isRecognized <==> s.face.userId.Some?)
  }

  // ---------------------------------------------------------------------------------------------
  // One step function per operation. Each returns the new session and, where the source returns
  // one, the boolean result.

  /** A face is in the current frame. The result is true only on the edge from "no face" to
      "face": that is when an identity search is needed, and the search flag is cleared there. */
  function FaceDetected(s: Session, bbox: BBox, now: real): (r: (Session, bool))
    ensures r.1 <==> !s.face.hasFace
    ensures r.0.face.hasFace && r.0.face.bbox == Some(bbox) && r.0.face.lastSeen == now
    ensures r.1 ==> !r.0.face.searchPerformed
    ensures !r.1 ==> r.0.face.searchPerformed == s.face.searchPerformed
    ensures r.0.face.userId == s.face.userId && r.0.face.isRecognized == s.face.isRecognized
    ensures r.0.pending == s.pending
    ensures Consistent(s) ==> Consistent(r.0)
  {
    if !s.face.hasFace then
      (s.(face := s.face.(hasFace := true, lastSeen := now, bbox := Some(bbox), searchPerformed := false)), true)
    else
      (s.(face := s.face.(lastSeen := now, bbox := Some(bbox))), false)
  }

  /** No face is in the current frame. The result is true (log out) only when a face was present
      and has not been seen for at least `timeout` seconds; then the whole session, pending
      registration included, is reset. Otherwise nothing changes: the face may only have
      flickered. */
  function NoFaceDetected(s: Session, now: real, timeout: real): (r: (Session, bool))
    ensures r.1 <==> s.face.hasFace && now - s.face.lastSeen >= timeout
    ensures r.1 ==> r.0 == Fresh
    ensures !r.1 ==> r.0 == s
  {
    if s.face.hasFace && now - s.face.lastSeen >= timeout then (Fresh, true) else (s, false)
  }

  /** The identity search found `userId`. Marks the search as done; the face itself, its box, its
      timestamp and the pending registration are untouched. No face is required. */
  function RecognizedUser(s: Session, userId: string): (r: Session)
    ensures r.face.userId == Some(userId) && r.face.isRecognized && r.face.searchPerformed
    ensures r.face.hasFace == s.face.hasFace && r.face.bbox == s.face.bbox
    ensures r.face.lastSeen == s.face.lastSeen && r.pending == s.pending
    ensures Consistent(s) ==> Consistent(r)
  {
    s.(face := s.face.(userId := Some(userId), isRecognized := true, searchPerformed := true))
  }

  /** The identity search found nobody. Marks the search as done and forgets any user id. */
  function UnknownUser(s: Session): (r: Session)
    ensures r.face.userId == None && !r.face.isRecognized && r.face.searchPerformed
    ensures r.face.hasFace == s.face.hasFace && r.face.bbox == s.face.bbox
    ensures r.face.lastSeen == s.face.lastSeen && r.pending == s.pending
    ensures Consistent(s) ==> Consistent(r)
  {
    s.(face := s.face.(userId := None, isRecognized := false, searchPerformed := true))
  }

  /** Records a registration request; an earlier one is overwritten. */
  function PendingSet(s: Session, userId: string, bbox: BBox, now: real): (r: Session)
    ensures r.pending == Some(PendingRegistration(userId, bbox, now))
    ensures r.face == s.face
    ensures Consistent(s) ==> Consistent(r)
  {
    s.(pending := Some(PendingRegistration(userId, bbox, now)))
  }

  /** Drops the registration request, if any. */
  function PendingCleared(s: Session): (r: Session)
    ensures r.pending == None && r.face == s.face
    ensures Consistent(s) ==> Consistent(r)
  {
    s.(pending := None)
  }

  /** The last registration request wins. */
  lemma PendingLastWins(s: Session, u1: string, b1: BBox, t1: real, u2: string, b2: BBox, t2: real)
    ensures PendingSet(PendingSet(s, u1, b1, t1), u2, b2, t2) == PendingSet(s, u2, b2, t2)
  {
  }

  // ---------------------------------------------------------------------------------------------
  // Sequences of operations.

  /** The operations that change the session, as the frame loop and the HTTP routes issue them. */
  datatype Event =
    | Detected(bbox: BBox, now: real)
    | NotDetected(now: real)
    | Recognized(userId: string)
    | Unknown
    | Reset
    | Register(userId: string, bbox: BBox, now: real)
    | ClearPending

  /** One operation: the new session and the boolean the operation returns (false for the
      operations that return nothing). */
  function Step(s: Session, e: Event, timeout: real): (Session, bool) {
    match e
    case Detected(bbox, now) => FaceDetected(s, bbox, now)
    case NotDetected(now) => NoFaceDetected(s, now, timeout)
    case Recognized(u) => (RecognizedUser(s, u), false)
    case Unknown => (UnknownUser(s), false)
    case Reset => (Fresh, false)
    case Register(u, bbox, now) => (PendingSet(s, u, bbox, now), false)
    case ClearPending => (PendingCleared(s), false)
  }

  /** The session after running `es` from `s`. */
  function Final(s: Session, es: seq<Event>, timeout: real): Session
    decreases |es|
  {
    if es == [] then s else Final(Step(s, es[0], timeout).0, es[1..], timeout)
  }

  /** The values the operations of `es` return, one per operation. */
  function Trace(s: Session, es: seq<Event>, timeout: real): (r: seq<bool>)
    ensures |r| == |es|
    decreases |es|
  {
    if es == [] then [] else [Step(s, es[0], timeout).1] + Trace(Step(s, es[0], timeout).0, es[1..], timeout)
  }

  /** Number of detections in `es` that asked for an identity search. */
  function Searches(es: seq<Event>, outs: seq<bool>): nat
    requires |es| == |outs|
  {
    if es == [] then 0 else (if es[0].Detected? && outs[0] then 1 else 0) + Searches(es[1..], outs[1..])
  }

  /** Number of absences in `es` that logged the user out. */
  function Logouts(es: seq<Event>, outs: seq<bool>): nat
    requires |es| == |outs|
  {
    if es == [] then 0 else (if es[0].NotDetected? && outs[0] then 1 else 0) + Logouts(es[1..], outs[1..])
  }

  /** Number of explicit resets in `es`. */
  function Resets(es: seq<Event>): nat {
    if es == [] then 0 else (if es[0].Reset? then 1 else 0) + Resets(es[1..])
  }

  function Absent(s: Session): nat {
    if s.face.hasFace then 0 else 1
  }

  /** Every operation keeps the session consistent. */
  lemma {:induction false} RunKeepsConsistent(s: Session, es: seq<Event>, timeout: real)
    requires Consistent(s)
    ensures Consistent(Final(s, es, timeout))
    decreases |es|
  {
    if es != [] {
      var s1 := Step(s, es[0], timeout).0;
      assert Consistent(s1);
      RunKeepsConsistent(s1, es[1..], timeout);
    }
  }

  /** Debounce: whatever the frame rate, an identity search is requested at most once per
      appearance. Every search needs a face to have been absent before it, and a face only becomes
      absent initially, by a timeout logout or by an explicit reset. */
  lemma {:induction false} SearchesBoundedByAppearances(s: Session, es: seq<Event>, timeout: real)
    ensures Searches(es, Trace(s, es, timeout)) + Absent(Final(s, es, timeout))
         <= Absent(s) + Logouts(es, Trace(s, es, timeout)) + Resets(es)
    decreases |es|
  {
    if es != [] {
      var (s1, o) := Step(s, es[0], timeout);
      var outs := Trace(s, es, timeout);
      assert outs[0] == o && outs[1..] == Trace(s1, es[1..], timeout);
      SearchesBoundedByAppearances(s1, es[1..], timeout);
    }
  }

  /** Within one continuous appearance (no logout, no reset) no further search is requested, the
      face stays present, and once a search outcome is recorded it stays recorded. */
  lemma {:induction false} AppearanceSearchesOnce(s: Session, es: seq<Event>, timeout: real)
    requires s.face.hasFace
    requires forall i :: 0 <= i < |es| ==> !es[i].Reset?
    requires Logouts(es, Trace(s, es, timeout)) == 0
    ensures Searches(es, Trace(s, es, timeout)) == 0
    ensures Final(s, es, timeout).face.hasFace
    ensures s.face.searchPerformed ==> Final(s, es, timeout).face.searchPerformed
    decreases |es|
  {
    if es != [] {
      var (s1, o) := Step(s, es[0], timeout);
      var outs := Trace(s, es, timeout);
      assert outs[0] == o && outs[1..] == Trace(s1, es[1..], timeout);
      assert !es[0].Reset?;
      assert forall i :: 0 <= i < |es[1..]| ==> !es[1..][i].Reset? by {
        forall i | 0 <= i < |es[1..]| ensures !es[1..][i].Reset? {
          assert es[1..][i] == es[i + 1];
        }
      }
      AppearanceSearchesOnce(s1, es[1..], timeout);
    }
  }

  /** An absence call that reaches the timeout of a face last seen at `lastSeen`. */
  predicate Expired(e: Event, lastSeen: real, timeout: real) {
    e.NotDetected? && e.now - lastSeen >= timeout
  }

  /** Index of the first event of `es` that reaches the timeout, or `|es|` if none does. */
  function FirstExpiry(es: seq<Event>, lastSeen: real, timeout: real): (k: nat)
    ensures k <= |es|
    ensures forall j :: 0 <= j < k ==> !Expired(es[j], lastSeen, timeout)
    ensures k < |es| ==> Expired(es[k], lastSeen, timeout)
  {
    if es == [] then 0
    else if Expired(es[0], lastSeen, timeout) then 0
    else 1 + FirstExpiry(es[1..], lastSeen, timeout)
  }

  /** Once no face is present, absences change nothing and never log out. */
  lemma {:induction false} AbsentWithoutFaceIsQuiet(s: Session, es: seq<Event>, timeout: real)
    requires !s.face.hasFace
    requires forall i :: 0 <= i < |es| ==> es[i].NotDetected?
    ensures forall i :: 0 <= i < |es| ==> !Trace(s, es, timeout)[i]
    ensures Final(s, es, timeout) == s
    decreases |es|
  {
    if es != [] {
      assert forall i :: 0 <= i < |es[1..]| ==> es[1..][i].NotDetected? by {
        forall i | 0 <= i < |es[1..]| ensures es[1..][i].NotDetected? {
          assert es[1..][i] == es[i + 1];
        }
      }
      AbsentWithoutFaceIsQuiet(s, es[1..], timeout);
      var outs := Trace(s, es, timeout);
      assert outs == [false] + Trace(s, es[1..], timeout);
    }
  }

  /** Timeout law: a face last seen at `t0` and absent from then on is logged out by exactly one
      absence call, the first whose time is at least `t0 + timeout`; every other call returns
      false. After that call the session is fresh; if no call reaches the timeout, it is
      untouched. */
  lemma {:induction false} LogoutFiresOnce(s: Session, es: seq<Event>, timeout: real)
    requires s.face.hasFace
    requires forall i :: 0 <= i < |es| ==> es[i].NotDetected?
    ensures forall i :: 0 <= i < |es| ==>
      (Trace(s, es, timeout)[i] <==> i == FirstExpiry(es, s.face.lastSeen, timeout))
    ensures Final(s, es, timeout) == if FirstExpiry(es, s.face.lastSeen, timeout) < |es| then Fresh else s
    decreases |es|
  {
    if es != [] {
      var t0 := s.face.lastSeen;
      var rest := es[1..];
      assert forall i :: 0 <= i < |rest| ==> rest[i].NotDetected? by {
        forall i | 0 <= i < |rest| ensures rest[i].NotDetected? {
          assert rest[i] == es[i + 1];
        }
      }
      var outs := Trace(s, es, timeout);
      if Expired(es[0], t0, timeout) {
        AbsentWithoutFaceIsQuiet(Fresh, rest, timeout);
        assert outs == [true] + Trace(Fresh, rest, timeout);
      } else {
        LogoutFiresOnce(s, rest, timeout);
        assert outs == [false] + Trace(s, rest, timeout);
        assert FirstExpiry(es, t0, timeout) == 1 + FirstExpiry(rest, t0, timeout);
      }
    }
  }

  /** One might expect "no face means no user" to hold of every session; the code does not keep
      it, because recognition is recorded whether or not a face is present. */
  lemma RecognitionWithoutFace()
    ensures !RecognizedUser(Fresh, "alice").face.hasFace
    ensures RecognizedUser(Fresh, "alice").face.userId == Some("alice")
  {
  }

  // ---------------------------------------------------------------------------------------------
  // The session manager object.

  class SessionManager {
    /** Seconds without a face after which the user is logged out. */
    const faceTimeout: real
    var faceState: FaceState
    var pendingUserRegistration: Option<PendingRegistration>

    /** The value of the whole session. */
    function Snapshot(): Session
      reads this
    {
      Session(faceState, pendingUserRegistration)
    }

    predicate Valid()
      reads this
    {
      Consistent(Snapshot())
    }

    constructor (faceTimeout: real)
      ensures this.faceTimeout == faceTimeout
      ensures Snapshot() == Fresh && Valid()
    {
      this.faceTimeout := faceTimeout;
      faceState := DefaultFaceState;
      pendingUserRegistration := None;
    }

    method UpdateFaceDetected(bbox: BBox, now: real) returns (isNewFace: bool)
      requires Valid()
      modifies this
      ensures Valid()
      ensures (Snapshot(), isNewFace) == FaceDetected(old(Snapshot()), bbox, now)
    {
      if !faceState.hasFace {
        faceState := faceState.(hasFace := true);
        faceState := faceState.(lastSeen := now);
        faceState := faceState.(bbox := Some(bbox));
        faceState := faceState.(searchPerformed := false);
        return true;
      }
      faceState := faceState.(lastSeen := now);
      faceState := faceState.(bbox := Some(bbox));
      return false;
    }

    /** Resets in place of re-acquiring the lock; see `UpdateNoFaceDetectedAsWritten`. */
    method UpdateNoFaceDetected(now: real) returns (logout: bool)
      requires Valid()
      modifies this
      ensures Valid()
      ensures (Snapshot(), logout) == NoFaceDetected(old(Snapshot()), now, faceTimeout)
    {
      if faceState.hasFace {
        if now - faceState.lastSeen >= faceTimeout {
          ResetFaceState();
          return true;
        }
      }
      return false;
    }

    method SetRecognizedUser(userId: string)
      requires Valid()
      modifies this
      ensures Valid()
      ensures Snapshot() == RecognizedUser(old(Snapshot()), userId)
    {
      faceState := faceState.(userId := Some(userId));
      faceState := faceState.(isRecognized := true);
      faceState := faceState.(searchPerformed := true);
    }

    method SetUnknownUser()
      requires Valid()
      modifies this
      ensures Valid()
      ensures Snapshot() == UnknownUser(old(Snapshot()))
    {
      faceState := faceState.(userId := None);
      faceState := faceState.(isRecognized := false);
      faceState := faceState.(searchPerformed := true);
    }

    /** An identity search is due: a face is present and no outcome is recorded for it yet. */
    function ShouldPerformSearch(): (r: bool)
      reads this
      ensures r ==> faceState.hasFace
      ensures faceState.hasFace ==> (r <==> !faceState.searchPerformed)
    {
      faceState.hasFace && !faceState.searchPerformed
    }

    /** The recognized user, and nobody while the face is unknown or not yet searched. */
    function GetCurrentUserId(): (r: Option<string>)
      reads this
      ensures r.Some? ==> faceState.isRecognized && r == faceState.userId
      ensures faceState.isRecognized ==> r == faceState.userId
      ensures Valid() ==> r == faceState.userId
    {
      if faceState.isRecognized then faceState.userId else None
    }

    /** The box of the face in view; in a valid session there is one exactly while a face is
        present. */
    function GetFaceBbox(): (r: Option<BBox>)
      reads this
      ensures Valid() ==> (r.Some? <==> faceState.hasFace)
      ensures r.Some? ==> r == faceState.bbox
    {
      faceState.bbox
    }

    method ResetFaceState()
      modifies this
      ensures Snapshot() == Fresh && Valid()
    {
      faceState := DefaultFaceState;
      pendingUserRegistration := None;
    }

    method SetPendingRegistration(userId: string, bbox: BBox, now: real)
      requires Valid()
      modifies this
      ensures Valid()
      ensures Snapshot() == PendingSet(old(Snapshot()), userId, bbox, now)
    {
      pendingUserRegistration := Some(PendingRegistration(userId, bbox, now));
    }

    /** The pending registration, if one was requested and not yet cleared. */
    function GetPendingRegistration(): (r: Option<PendingRegistration>)
      reads this
      ensures r.Some? ==> r == pendingUserRegistration
      ensures r.None? ==> pendingUserRegistration.None?
    {
      pendingUserRegistration
    }

    method ClearPendingRegistration()
      requires Valid()
      modifies this
      ensures Valid()
      ensures Snapshot() == PendingCleared(old(Snapshot()))
    {
      pendingUserRegistration := None;
    }
  }

  // ---------------------------------------------------------------------------------------------
  // The lock as written. Every method of the source holds one non-reentrant `threading.Lock` for
  // its whole body; `update_no_face_detected` calls `reset_face_state` while holding it, and
  // `reset_face_state` acquires it again.

  /** The effect of a call made under the session lock. */
  datatype LockOutcome<T> = Returned(value: T) | Deadlocked

  /** `reset_face_state` as written: acquiring the lock blocks forever when the calling thread
      already holds it. */
  function ResetFaceStateAsWritten(held: bool): (r: LockOutcome<Session>)
    ensures r.Deadlocked? <==> held
    ensures r.Returned? ==> r.value == Fresh
  {
    if held then Deadlocked else Returned(Fresh)
  }

  /** `update_no_face_detected` as written: it takes the lock and, on timeout, calls
      `reset_face_state` with the lock still held. It hangs exactly when it should log out; in
      every other case it agrees with `NoFaceDetected`. */
  function UpdateNoFaceDetectedAsWritten(s: Session, now: real, timeout: real): (r: LockOutcome<(Session, bool)>)
    ensures r.Deadlocked? <==> NoFaceDetected(s, now, timeout).1
    ensures r.Returned? ==> r.value == NoFaceDetected(s, now, timeout)
  {
    var held := true;
    if s.face.hasFace && now - s.face.lastSeen >= timeout then
      match ResetFaceStateAsWritten(held)
      case Deadlocked => Deadlocked
      case Returned(cleared) => Returned((cleared, true))
    else
      Returned((s, false))
  }

  /** A face seen at t = 0 and gone at t = 5 with a 5-second timeout: the intended result is a
      logout, the code as written never returns. */
  lemma TimeoutLogoutDeadlocksAsWritten()
    ensures var s := FaceDetected(Fresh, BBox(10, 10, 90, 90), 0.0).0;
      && UpdateNoFaceDetectedAsWritten(s, 5.0, 5.0) == Deadlocked
      && NoFaceDetected(s, 5.0, 5.0) == (Fresh, true)
  {
  }
}

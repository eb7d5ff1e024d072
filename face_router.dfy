/** The HTTP routes of the face router that touch the session: registering the face in view,
    resetting the session, and clearing the identity store (which also resets the session when the
    store reports success). The HTTP layer itself is reduced to a `Result` whose failure carries
    the status code. */
module FaceRouter {
  import opened Wrappers
  import opened Boxes
  import FaceSession

  /** Why a request was refused. */
  datatype Reason = EmptyUserId | UserIdTooShort | NoFaceInView | DatabaseClearFailed

  datatype HttpError = HttpError(status: nat, reason: Reason)

  /** Shortest user id the registration route accepts, counted in code points after trimming. */
  const MinUserIdLength := 2

  /** The characters for which Python's `str.isspace` holds: the characters `str.strip()`
      removes. */
  const Whitespace: set<char> := {
    ' ', '\t', '\n', '\r', '\U{0B}', '\U{0C}', '\U{1C}', '\U{1D}', '\U{1E}', '\U{1F}',
    '\U{85}', '\U{A0}', '\U{1680}', '\U{2000}', '\U{2001}', '\U{2002}', '\U{2003}', '\U{2004}',
    '\U{2005}', '\U{2006}', '\U{2007}', '\U{2008}', '\U{2009}', '\U{200A}', '\U{2028}',
    '\U{2029}', '\U{202F}', '\U{205F}', '\U{3000}'
  }

  predicate AllIn(s: string, chars: set<char>) {
    forall k :: 0 <= k < |s| ==> s[k] in chars
  }

  /** Length of the run of `chars` at the start of `s`. */
  function LeadingRun(s: string, chars: set<char>): (n: nat)
    ensures n <= |s|
    ensures forall k :: 0 <= k < n ==> s[k] in chars
    ensures n < |s| ==> s[n] !in chars
  {
    if s == [] || s[0] !in chars then 0
    else
      var rest := s[1..];
      var m := LeadingRun(rest, chars);
      assert forall k :: 1 <= k < m + 1 ==> s[k] == rest[k - 1];
      m + 1
  }

  /** Length of the run of `chars` at the end of `s`. */
  function TrailingRun(s: string, chars: set<char>): (n: nat)
    ensures n <= |s|
    ensures forall k :: |s| - n <= k < |s| ==> s[k] in chars
    ensures n < |s| ==> s[|s| - n - 1] !in chars
  {
    if s == [] || s[|s| - 1] !in chars then 0
    else
      var init := s[..|s| - 1];
      var m := TrailingRun(init, chars);
      assert forall k :: |s| - 1 - m <= k < |s| - 1 ==> s[k] == init[k];
      m + 1
  }

  /** Python's `str.strip(chars)`: `s` without its leading and trailing characters from `chars`.
      The result is a contiguous part of `s`, only characters of `chars` were cut off, and the
      result starts and ends outside `chars` unless it is empty; it is empty exactly when `s`
      consists of `chars` only. */
  function StripChars(s: string, chars: set<char>): (r: string)
    ensures LeadingRun(s, chars) + |r| <= |s|
    ensures r == s[LeadingRun(s, chars)..LeadingRun(s, chars) + |r|]
    ensures forall k :: LeadingRun(s, chars) + |r| <= k < |s| ==> s[k] in chars
    ensures r != [] ==> r[0] !in chars && r[|r| - 1] !in chars
    ensures r == [] <==> AllIn(s, chars)
  {
    var i := LeadingRun(s, chars);
    if i == |s| then []
    else
      var j := TrailingRun(s, chars);
      assert s[i] !in chars;
      s[i..|s| - j]
  }

  /** Python's `str.strip()`, which removes whitespace. */
  function Strip(s: string): (r: string)
    ensures LeadingRun(s, Whitespace) + |r| <= |s|
    ensures r == s[LeadingRun(s, Whitespace)..LeadingRun(s, Whitespace) + |r|]
    ensures forall k :: LeadingRun(s, Whitespace) + |r| <= k < |s| ==> s[k] in Whitespace
    ensures r != [] ==> r[0] !in Whitespace && r[|r| - 1] !in Whitespace
    ensures r == [] <==> AllIn(s, Whitespace)
  {
    StripChars(s, Whitespace)
  }

  /** Trimming twice is trimming once. */
  lemma StripIdempotent(s: string)
    ensures Strip(Strip(s)) == Strip(s)
  {
  }

  /** An id without surrounding whitespace is kept as it is. */
  lemma StripKeepsTrimmed(s: string)
    requires s != [] && s[0] !in Whitespace && s[|s| - 1] !in Whitespace
    ensures Strip(s) == s
  {
  }

  /** The validation of `register_current_face`, in the order the route performs it: the trimmed
      id must not be empty, then it must have at least two characters, then a face box must be
      current. The first failed check decides the 400 response; on success the trimmed id and
      the current box are what gets registered. */
  function ValidateRegistration(rawUserId: string, bbox: Option<BBox>): (r: Result<(string, BBox), HttpError>)
    ensures r.Failure? ==> r.error.status == 400
    ensures r == Failure(HttpError(400, EmptyUserId)) <==> Strip(rawUserId) == []
    ensures r == Failure(HttpError(400, UserIdTooShort)) <==> 0 < |Strip(rawUserId)| < MinUserIdLength
    ensures r == Failure(HttpError(400, NoFaceInView)) <==> |Strip(rawUserId)| >= MinUserIdLength && bbox.None?
    ensures r.Success? <==> |Strip(rawUserId)| >= MinUserIdLength && bbox.Some?
    ensures r.Success? ==> r.value == (Strip(rawUserId), bbox.value)
  {
    var userId := Strip(rawUserId);
    if userId == [] then Failure(HttpError(400, EmptyUserId))
    else if |userId| < MinUserIdLength then Failure(HttpError(400, UserIdTooShort))
    else if bbox.None? then Failure(HttpError(400, NoFaceInView))
    else Success((userId, bbox.value))
  }

  /** In a consistent session, an id that passes the length checks is refused for want of a box
      exactly when no face is present. */
  lemma NoBoxMeansNoFace(rawUserId: string, s: FaceSession.Session)
    requires FaceSession.Consistent(s)
    requires |Strip(rawUserId)| >= MinUserIdLength
    ensures ValidateRegistration(rawUserId, s.face.bbox).Failure? <==> !s.face.hasFace
  {
  }

  /** POST /register-current-face: validates the request and, on success, records the pending
      registration under the trimmed id with the current box; the response echoes the trimmed id.
      A refused request leaves the session as it was. */
  method RegisterCurrentFace(sm: FaceSession.SessionManager, rawUserId: string, now: real)
    returns (r: Result<string, HttpError>)
    requires sm.Valid()
    modifies sm
    ensures sm.Valid()
    ensures r.Failure? ==> ValidateRegistration(rawUserId, old(sm.faceState.bbox)) == Failure(r.error)
    ensures r.Failure? ==> sm.Snapshot() == old(sm.Snapshot())
    ensures r.Success? <==> ValidateRegistration(rawUserId, old(sm.faceState.bbox)).Success?
    ensures r.Success? ==> r.value == Strip(rawUserId)
    ensures r.Success? ==>
      sm.Snapshot() == FaceSession.PendingSet(old(sm.Snapshot()), Strip(rawUserId), old(sm.faceState.bbox).value, now)
  {
    var userId := Strip(rawUserId);
    if userId == [] {
      return Failure(HttpError(400, EmptyUserId));
    }
    if |userId| < MinUserIdLength {
      return Failure(HttpError(400, UserIdTooShort));
    }
    var bbox := sm.GetFaceBbox();
    if bbox.None? {
      return Failure(HttpError(400, NoFaceInView));
    }
    sm.SetPendingRegistration(userId, bbox.value, now);
    return Success(userId);
  }

  /** POST /reset-session: the session returns to its initial state, pending registration
      included. */
  method ResetCurrentSession(sm: FaceSession.SessionManager)
    modifies sm
    ensures sm.Snapshot() == FaceSession.Fresh && sm.Valid()
  {
    sm.ResetFaceState();
  }

  /** DELETE /database. `storeCleared` is what the identity store's `clear_database()` returned.
      Only a successful clear also resets the session; a failed one is a 500 and leaves the session
      untouched. */
  method ClearFaceDatabase(sm: FaceSession.SessionManager, storeCleared: bool) returns (r: Result<(), HttpError>)
    requires sm.Valid()
    modifies sm
    ensures sm.Valid()
    ensures storeCleared ==> r.Success? && sm.Snapshot() == FaceSession.Fresh
    ensures !storeCleared ==> r == Failure(HttpError(500, DatabaseClearFailed)) && sm.Snapshot() == old(sm.Snapshot())
  {
    if storeCleared {
      sm.ResetFaceState();
      return Success(());
    }
    return Failure(HttpError(500, DatabaseClearFailed));
  }
}

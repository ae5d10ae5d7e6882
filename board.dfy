/**
 * The session board: the list of live sessions and the operations the page
 * performs on it (create, join, leave, remove, and the effect of one countdown
 * tick). Saving to storage after each change and re-rendering are not modelled.
 */
module Board {
  import opened Clock
  import opened Sessions
  import opened Countdown

  class SessionBoard {
    var sessions: seq<Session>

    ghost predicate Valid()
      reads this
    {
      WellFormed(sessions)
    }

    constructor ()
      ensures Valid() && sessions == []
    {
      sessions := [];
    }

    /**
     * Create a session at the chosen `time` for `username`. `start` is the
     * instant the time label denotes today; `sessionId` and `playerId` are the
     * fresh identifiers the page draws at random.
     */
    method Create(username: string, time: string, start: int, sessionId: Id, playerId: Id) returns (r: Outcome)
      requires Valid()
      requires forall s :: s in sessions ==> s.id != sessionId
      modifies this
      ensures Valid()
      ensures time == [] ==> r == Failed(MissingTime)
      ensures time != [] && username == [] ==> r == Failed(MissingUsername)
      ensures time != [] && username != [] && IsSessionTimeTaken(old(sessions), time) ==> r == Failed(TimeTaken)
      ensures r == Done <==> time != [] && username != [] && !IsSessionTimeTaken(old(sessions), time)
      ensures r.Failed? ==> sessions == old(sessions)
      ensures r == Done ==>
        sessions == old(sessions) + [Session(sessionId, time, [Player(playerId, username)], start + SESSION_LENGTH_MS, username)]
    {
      if time == [] {
        r := Failed(MissingTime);
      } else if username == [] {
        r := Failed(MissingUsername);
      } else if IsSessionTimeTaken(sessions, time) {
        r := Failed(TimeTaken);
      } else {
        var session := Session(sessionId, time, [Player(playerId, username)], start + SESSION_LENGTH_MS, username);
        AppendWellFormed(sessions, session);
        sessions := sessions + [session];
        r := Done;
      }
    }

    /** Drop every session with id `sessionId`; an absent id changes nothing. */
    method RemoveSession(sessionId: Id)
      requires Valid()
      modifies this
      ensures Valid()
      ensures sessions == SessionsWithout(old(sessions), sessionId)
      ensures forall k :: 0 <= k < |old(sessions)| && old(sessions)[k].id == sessionId ==>
        sessions == old(sessions)[..k] + old(sessions)[k + 1..]
    {
      forall k | 0 <= k < |sessions| && sessions[k].id == sessionId
        ensures SessionsWithout(sessions, sessionId) == sessions[..k] + sessions[k + 1..]
      {
        SessionsWithoutUnique(sessions, k);
      }
      SessionsWithoutWellFormed(sessions, sessionId);
      sessions := SessionsWithout(sessions, sessionId);
    }

    /** Add `username` (with the fresh id `playerId`) to the session `sessionId`. */
    method Join(sessionId: Id, username: string, playerId: Id) returns (r: Outcome)
      requires Valid()
      modifies this
      ensures Valid()
      ensures r.Failed? ==> sessions == old(sessions)
      ensures username == [] ==> r == Failed(MissingUsername)
      ensures username != [] && FindSession(old(sessions), sessionId).None? ==> r == Failed(SessionNotFound)
      ensures username != [] && FindSession(old(sessions), sessionId).Some? ==>
        var k := FindSession(old(sessions), sessionId).value;
        var s := old(sessions)[k];
        if |s.players| >= MAX_PLAYERS then
          r == Failed(SessionFull)
        else if IsUsernameTaken(s.players, username) then
          r == Failed(UsernameTaken)
        else
          r == Done && sessions == old(sessions)[k := s.(players := s.players + [Player(playerId, username)])]
    {
      if username == [] {
        return Failed(MissingUsername);
      }
      var found := FindSession(sessions, sessionId);
      if found.None? {
        return Failed(SessionNotFound);
      }
      var k := found.value;
      var s := sessions[k];
      if |s.players| < MAX_PLAYERS {
        if IsUsernameTaken(s.players, username) {
          r := Failed(UsernameTaken);
        } else {
          var joined := s.(players := s.players + [Player(playerId, username)]);
          JoinKeepsSessionOk(s, Player(playerId, username));
          ReplaceWellFormed(sessions, k, joined);
          sessions := sessions[k := joined];
          r := Done;
        }
      } else {
        r := Failed(SessionFull);
      }
    }

    /**
     * Remove the players with id `playerId` from the session `sessionId`; a
     * session left without players is removed from the board.
     */
    method Leave(sessionId: Id, playerId: Id) returns (r: Outcome)
      requires Valid()
      modifies this
      ensures Valid()
      ensures FindSession(old(sessions), sessionId).None? ==>
        r == Failed(SessionNotFound) && sessions == old(sessions)
      ensures FindSession(old(sessions), sessionId).Some? ==>
        var k := FindSession(old(sessions), sessionId).value;
        var s := old(sessions)[k];
        var left := PlayersWithout(s.players, playerId);
        && r == Done
        && (left == [] ==> sessions == SessionsWithout(old(sessions), sessionId)
                           && sessions == old(sessions)[..k] + old(sessions)[k + 1..])
        && (left != [] ==> sessions == old(sessions)[k := s.(players := left)])
        && ((forall p :: p in s.players ==> p.id != playerId) ==> sessions == old(sessions))
    {
      var found := FindSession(sessions, sessionId);
      if found.None? {
        return Failed(SessionNotFound);
      }
      var k := found.value;
      var s := sessions[k];
      var left := PlayersWithout(s.players, playerId);
      ghost var unknown := forall p :: p in s.players ==> p.id != playerId;
      if unknown {
        PlayersWithoutAbsent(s.players, playerId);
      }
      if left == [] {
        RemoveSession(sessionId);
      } else {
        PlayersWithoutDistinct(s.players, playerId);
        ReplaceWellFormed(sessions, k, s.(players := left));
        sessions := sessions[k := s.(players := left)];
      }
      r := Done;
    }

    /**
     * One firing of a session's countdown timer at instant `now`, for a session
     * that opens at `start`: classify it, and remove the session once expired.
     */
    method OnTick(session: Session, start: int, now: int) returns (t: Tick)
      requires Valid()
      modifies this
      ensures Valid()
      ensures t == Classify(now, start, session.expiration)
      ensures sessions == if t.Expired? then SessionsWithout(old(sessions), session.id) else old(sessions)
    {
      t := Classify(now, start, session.expiration);
      if t.Expired? {
        RemoveSession(session.id);
      }
    }
  }
}

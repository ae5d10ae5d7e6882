/**
 * The session records held by the board, the read-only queries and filters
 * the board's operations are built from, and the board invariant those
 * operations keep.
 */
module Sessions {
  import opened Clock

  type Id = string

  datatype Player = Player(id: Id, username: string)

  /** A session: its slot `time` (the option text), its ordered players and its expiration instant. */
  datatype Session = Session(id: Id, time: string, players: seq<Player>, expiration: int, creator: string)

  /**
   * The failures the board reports, one per check that can fail. MissingUsername
   * stands for both the create and the join message about an empty username;
   * SessionNotFound stands for a lookup the page does not guard and that has no
   * message of its own.
   */
  datatype Error =
    | MissingTime       // no time chosen when creating
    | MissingUsername   // empty username when creating or joining
    | TimeTaken         // a session already exists at that time
    | SessionNotFound   // no session with the given id
    | SessionFull       // the session already has MAX_PLAYERS players
    | UsernameTaken     // the username is already in the session

  datatype Outcome = Done | Failed(error: Error)

  datatype Option<T> = None | Some(value: T)

  const MAX_PLAYERS: int := 5

  /** Whether some session already uses the time label `time` (exact text match). */
  function IsSessionTimeTaken(sessions: seq<Session>, time: string): (taken: bool)
    ensures taken <==> exists i :: 0 <= i < |sessions| && sessions[i].time == time
  {
    if sessions == [] then false
    else if sessions[0].time == time then true
    else
      var rest := IsSessionTimeTaken(sessions[1..], time);
      assert forall i :: 1 <= i < |sessions| ==> sessions[i] == sessions[1..][i - 1];
      rest
  }

  /** Whether some player already uses `username` (exact, case-sensitive text match). */
  function IsUsernameTaken(players: seq<Player>, username: string): (taken: bool)
    ensures taken <==> exists i :: 0 <= i < |players| && players[i].username == username
  {
    if players == [] then false
    else if players[0].username == username then true
    else
      var rest := IsUsernameTaken(players[1..], username);
      assert forall i :: 1 <= i < |players| ==> players[i] == players[1..][i - 1];
      rest
  }

  /** The index of the first session with id `id`, if any. */
  function FindSession(sessions: seq<Session>, id: Id): (k: Option<nat>)
    ensures k.Some? ==> k.value < |sessions| && sessions[k.value].id == id
    ensures k.Some? ==> forall j :: 0 <= j < k.value ==> sessions[j].id != id
    ensures k.None? <==> forall j :: 0 <= j < |sessions| ==> sessions[j].id != id
  {
    if sessions == [] then None
    else if sessions[0].id == id then Some(0)
    else
      match FindSession(sessions[1..], id)
      case None =>
        assert forall j :: 1 <= j < |sessions| ==> sessions[j] == sessions[1..][j - 1];
        None
      case Some(k) => Some(k + 1)
  }

  /** The sessions whose id is not `id`, in their original order. */
  function SessionsWithout(sessions: seq<Session>, id: Id): (rest: seq<Session>)
    ensures forall s :: s in rest <==> s in sessions && s.id != id
    ensures |rest| <= |sessions|
  {
    if sessions == [] then []
    else if sessions[0].id == id then SessionsWithout(sessions[1..], id)
    else [sessions[0]] + SessionsWithout(sessions[1..], id)
  }

  /** The players whose id is not `playerId`, in their original order. */
  function PlayersWithout(players: seq<Player>, playerId: Id): (rest: seq<Player>)
    ensures forall p :: p in rest <==> p in players && p.id != playerId
    ensures |rest| <= |players|
  {
    if players == [] then []
    else if players[0].id == playerId then PlayersWithout(players[1..], playerId)
    else [players[0]] + PlayersWithout(players[1..], playerId)
  }

  // ---------------------------------------------------------------------------
  // The board invariant

  /** Player usernames are non-empty and pairwise distinct. */
  ghost predicate DistinctUsernames(players: seq<Player>) {
    && (forall i :: 0 <= i < |players| ==> players[i].username != [])
    && (forall i, j :: 0 <= i < j < |players| ==> players[i].username != players[j].username)
  }

  /** What holds of every live session: a time, a creator, 1 to MAX_PLAYERS players with distinct names. */
  ghost predicate SessionOk(s: Session) {
    && s.time != []
    && s.creator != []
    && 1 <= |s.players| <= MAX_PLAYERS
    && DistinctUsernames(s.players)
  }

  /** Every session is well formed, and no two sessions share an id or a time label. */
  ghost predicate WellFormed(sessions: seq<Session>) {
    && (forall i :: 0 <= i < |sessions| ==> SessionOk(sessions[i]))
    && (forall i, j :: 0 <= i < j < |sessions| ==>
          sessions[i].id != sessions[j].id && sessions[i].time != sessions[j].time)
  }

  /** A session differs from all of `others` in id and time. */
  ghost predicate ApartFrom(s: Session, others: seq<Session>) {
    forall o :: o in others ==> o.id != s.id && o.time != s.time
  }

  lemma WellFormedCons(s: Session, rest: seq<Session>)
    ensures WellFormed([s] + rest) <==> SessionOk(s) && ApartFrom(s, rest) && WellFormed(rest)
  {
    var all := [s] + rest;
    assert all[0] == s;
    assert forall i :: 0 <= i < |rest| ==> all[i + 1] == rest[i];
    if SessionOk(s) && ApartFrom(s, rest) && WellFormed(rest) {
      forall i | 0 <= i < |all|
        ensures SessionOk(all[i])
      {
        if i > 0 {
          assert all[i] == rest[i - 1];
        }
      }
      forall i, j | 0 <= i < j < |all|
        ensures all[i].id != all[j].id && all[i].time != all[j].time
      {
        assert all[j] == rest[j - 1];
        if i == 0 {
          assert rest[j - 1] in rest;
        } else {
          assert all[i] == rest[i - 1];
        }
      }
    }
    if WellFormed(all) {
      forall i | 0 <= i < |rest|
        ensures SessionOk(rest[i])
      {
        assert all[i + 1] == rest[i];
      }
      forall i, j | 0 <= i < j < |rest|
        ensures rest[i].id != rest[j].id && rest[i].time != rest[j].time
      {
        assert all[i + 1] == rest[i] && all[j + 1] == rest[j];
      }
      forall o | o in rest
        ensures o.id != s.id && o.time != s.time
      {
        var j :| 0 <= j < |rest| && rest[j] == o;
        assert all[j + 1] == o;
      }
    }
  }

  lemma DistinctUsernamesCons(p: Player, rest: seq<Player>)
    ensures DistinctUsernames([p] + rest) <==>
      p.username != [] && (forall q :: q in rest ==> q.username != p.username) && DistinctUsernames(rest)
  {
    var all := [p] + rest;
    assert all[0] == p;
    assert forall i :: 0 <= i < |rest| ==> all[i + 1] == rest[i];
    if DistinctUsernames(all) {
      forall i | 0 <= i < |rest|
        ensures rest[i].username != []
      {
        assert all[i + 1] == rest[i];
      }
      forall i, j | 0 <= i < j < |rest|
        ensures rest[i].username != rest[j].username
      {
        assert all[i + 1] == rest[i] && all[j + 1] == rest[j];
      }
      forall q | q in rest
        ensures q.username != p.username
      {
        var j :| 0 <= j < |rest| && rest[j] == q;
        assert all[j + 1] == q;
      }
    }
    if p.username != [] && (forall q :: q in rest ==> q.username != p.username) && DistinctUsernames(rest) {
      forall i | 0 <= i < |all|
        ensures all[i].username != []
      {
        if i > 0 {
          assert all[i] == rest[i - 1];
        }
      }
      forall i, j | 0 <= i < j < |all|
        ensures all[i].username != all[j].username
      {
        assert all[j] == rest[j - 1];
        if i == 0 {
          assert rest[j - 1] in rest;
        } else {
          assert all[i] == rest[i - 1];
        }
      }
    }
  }

  // ---------------------------------------------------------------------------
  // Properties of the filters

  /** Filtering distributes over concatenation: the survivors keep their relative order. */
  lemma {:induction false} SessionsWithoutAppend(a: seq<Session>, b: seq<Session>, id: Id)
    ensures SessionsWithout(a + b, id) == SessionsWithout(a, id) + SessionsWithout(b, id)
  {
    if a == [] {
      assert a + b == b;
    } else {
      assert (a + b)[0] == a[0] && (a + b)[1..] == a[1..] + b;
      SessionsWithoutAppend(a[1..], b, id);
    }
  }

  /** Removing an id no session has changes nothing. */
  lemma {:induction false} SessionsWithoutAbsent(sessions: seq<Session>, id: Id)
    requires forall s :: s in sessions ==> s.id != id
    ensures SessionsWithout(sessions, id) == sessions
  {
    if sessions != [] {
      assert sessions[0] in sessions;
      SessionsWithoutAbsent(sessions[1..], id);
    }
  }

  /** Removing a session twice is the same as removing it once. */
  lemma SessionsWithoutIdempotent(sessions: seq<Session>, id: Id)
    ensures SessionsWithout(SessionsWithout(sessions, id), id) == SessionsWithout(sessions, id)
  {
    SessionsWithoutAbsent(SessionsWithout(sessions, id), id);
  }

  /** When ids are unique, removing the id of the session at `k` removes exactly that entry. */
  lemma {:induction false} SessionsWithoutUnique(sessions: seq<Session>, k: nat)
    requires WellFormed(sessions)
    requires k < |sessions|
    ensures SessionsWithout(sessions, sessions[k].id) == sessions[..k] + sessions[k + 1..]
  {
    var id, tail := sessions[k].id, sessions[1..];
    assert sessions == [sessions[0]] + tail;
    WellFormedCons(sessions[0], tail);
    if k == 0 {
      SessionsWithoutAbsent(tail, id);
    } else {
      SessionsWithoutUnique(tail, k - 1);
      assert tail[k - 1] == sessions[k];
      assert sessions[..k] + sessions[k + 1..] == [sessions[0]] + (tail[..k - 1] + tail[k..]);
    }
  }

  /** Removing sessions keeps the board invariant. */
  lemma {:induction false} SessionsWithoutWellFormed(sessions: seq<Session>, id: Id)
    requires WellFormed(sessions)
    ensures WellFormed(SessionsWithout(sessions, id))
  {
    if sessions != [] {
      var s, tail := sessions[0], sessions[1..];
      assert sessions == [s] + tail;
      WellFormedCons(s, tail);
      SessionsWithoutWellFormed(tail, id);
      if s.id != id {
        WellFormedCons(s, SessionsWithout(tail, id));
      }
    }
  }

  lemma {:induction false} PlayersWithoutAppend(a: seq<Player>, b: seq<Player>, playerId: Id)
    ensures PlayersWithout(a + b, playerId) == PlayersWithout(a, playerId) + PlayersWithout(b, playerId)
  {
    if a == [] {
      assert a + b == b;
    } else {
      assert (a + b)[0] == a[0] && (a + b)[1..] == a[1..] + b;
      PlayersWithoutAppend(a[1..], b, playerId);
    }
  }

  lemma {:induction false} PlayersWithoutAbsent(players: seq<Player>, playerId: Id)
    requires forall p :: p in players ==> p.id != playerId
    ensures PlayersWithout(players, playerId) == players
  {
    if players != [] {
      assert players[0] in players;
      PlayersWithoutAbsent(players[1..], playerId);
    }
  }

  /** Leaving undoes joining: dropping a freshly appended player restores the list. */
  lemma LeaveUndoesJoin(players: seq<Player>, p: Player)
    requires forall q :: q in players ==> q.id != p.id
    ensures PlayersWithout(players + [p], p.id) == players
  {
    PlayersWithoutAppend(players, [p], p.id);
    PlayersWithoutAbsent(players, p.id);
  }

  /** Removing undoes creating: dropping a freshly appended session restores the board. */
  lemma RemoveUndoesCreate(sessions: seq<Session>, s: Session)
    requires forall o :: o in sessions ==> o.id != s.id
    ensures SessionsWithout(sessions + [s], s.id) == sessions
  {
    SessionsWithoutAppend(sessions, [s], s.id);
    SessionsWithoutAbsent(sessions, s.id);
  }

  /** Dropping players keeps their usernames non-empty and distinct. */
  lemma {:induction false} PlayersWithoutDistinct(players: seq<Player>, playerId: Id)
    requires DistinctUsernames(players)
    ensures DistinctUsernames(PlayersWithout(players, playerId))
  {
    if players != [] {
      var p, tail := players[0], players[1..];
      assert players == [p] + tail;
      DistinctUsernamesCons(p, tail);
      PlayersWithoutDistinct(tail, playerId);
      if p.id != playerId {
        DistinctUsernamesCons(p, PlayersWithout(tail, playerId));
      }
    }
  }

  // ---------------------------------------------------------------------------
  // The board invariant across the other updates

  /** A new session whose id and time are unused can be appended. */
  lemma AppendWellFormed(sessions: seq<Session>, s: Session)
    requires WellFormed(sessions) && SessionOk(s)
    requires !IsSessionTimeTaken(sessions, s.time)
    requires forall o :: o in sessions ==> o.id != s.id
    ensures WellFormed(sessions + [s])
  {
    var all := sessions + [s];
    forall i, j | 0 <= i < j < |all|
      ensures all[i].id != all[j].id && all[i].time != all[j].time
    {
      if j == |sessions| {
        assert all[i] in sessions;
      }
    }
  }

  /** Replacing a session by one with the same id and time that is itself well formed. */
  lemma ReplaceWellFormed(sessions: seq<Session>, k: nat, s: Session)
    requires WellFormed(sessions) && k < |sessions|
    requires s.id == sessions[k].id && s.time == sessions[k].time && SessionOk(s)
    ensures WellFormed(sessions[k := s])
  {
  }

  /** A joining player with a fresh non-empty name can be appended to a session that is not full. */
  lemma JoinKeepsSessionOk(s: Session, p: Player)
    requires SessionOk(s)
    requires |s.players| < MAX_PLAYERS && p.username != [] && !IsUsernameTaken(s.players, p.username)
    ensures SessionOk(s.(players := s.players + [p]))
    ensures |s.(players := s.players + [p]).players| <= MAX_PLAYERS
  {
    var all := s.players + [p];
    forall i, j | 0 <= i < j < |all|
      ensures all[i].username != all[j].username
    {
      if j == |s.players| {
        assert all[i] == s.players[i];
      }
    }
  }
}

/**
 * One tick of a session's countdown: given the current instant, the session's
 * opening instant and its expiration instant, decide whether it is still
 * waiting to open, open, or due for removal, and which whole-minute figure the
 * card shows.
 */
module Countdown {
  import opened Clock

  datatype Tick =
    | Pending(minutes: int)   // not open yet; minutes to opening, rounded up
    | Open(minutes: int)      // open; minutes to expiration, rounded down
    | Expired                 // the session is to be removed

  /** The classification one interval callback makes. */
  function Classify(now: int, start: int, expiration: int): (t: Tick)
    ensures t.Pending? <==> now < start
    ensures t.Expired? <==> start <= now && expiration <= now
    ensures t.Pending? ==>
      1 <= t.minutes && (t.minutes - 1) * MINUTE_MS < start - now <= t.minutes * MINUTE_MS
    ensures t.Open? ==>
      0 <= t.minutes < 60 &&
      t.minutes * MINUTE_MS <= (expiration - now) % HOUR_MS < (t.minutes + 1) * MINUTE_MS
  {
    if now < start then
      Pending((start - now + MINUTE_MS - 1) / MINUTE_MS)
    else if expiration - now <= 0 then
      Expired
    else
      Open(((expiration - now) % HOUR_MS) / MINUTE_MS)
  }

  /** Whether the tick writes a countdown on the card (a pending one only within the window). */
  predicate Displays(t: Tick) {
    t.Open? || (t.Pending? && t.minutes <= COUNTDOWN_WINDOW_MIN)
  }

  /** Order of the phases: a session goes Pending, then Open, then Expired. */
  function Phase(t: Tick): nat {
    match t
    case Pending(_) => 0
    case Open(_) => 1
    case Expired => 2
  }

  /** Time only moves a session forward through its phases. */
  lemma PhasesAdvance(now: int, later: int, start: int, expiration: int)
    requires now <= later
    ensures Phase(Classify(now, start, expiration)) <= Phase(Classify(later, start, expiration))
  {
  }

  /** Whole minutes in a millisecond span grow with the span. */
  lemma MinutesMonotone(a: int, b: int)
    requires a <= b
    ensures a / MINUTE_MS <= b / MINUTE_MS
  {
  }

  /**
   * Within one phase the displayed figure never goes up as time passes: always
   * while pending, and while open as long as less than an hour remains, which
   * holds for every session the board creates.
   */
  lemma CountdownNeverIncreases(now: int, later: int, start: int, expiration: int)
    requires now <= later
    ensures var t, u := Classify(now, start, expiration), Classify(later, start, expiration);
      && (t.Pending? && u.Pending? ==> u.minutes <= t.minutes)
      && (expiration - now < HOUR_MS && t.Open? && u.Open? ==> u.minutes <= t.minutes)
  {
    var t, u := Classify(now, start, expiration), Classify(later, start, expiration);
    if t.Pending? && u.Pending? {
      MinutesMonotone(start - later + MINUTE_MS - 1, start - now + MINUTE_MS - 1);
    }
    if expiration - now < HOUR_MS && t.Open? && u.Open? {
      MinutesMonotone(expiration - later, expiration - now);
      assert (expiration - now) % HOUR_MS == expiration - now;
      assert (expiration - later) % HOUR_MS == expiration - later;
    }
  }

  /**
   * The whole life of a session that expires 30 minutes after it opens: the
   * countdown to opening is displayed exactly in the last 30 minutes before it
   * opens; at the opening instant it is open with 30 minutes shown; while open
   * it shows the whole minutes left, at most 30; from the expiration instant on
   * it is removed.
   */
  lemma SessionTimeline(now: int, start: int)
    ensures var t := Classify(now, start, start + SESSION_LENGTH_MS);
      && (now < start ==> (Displays(t) <==> start - now <= COUNTDOWN_WINDOW_MIN * MINUTE_MS))
      && (now == start ==> t == Open(30))
      && (start <= now < start + SESSION_LENGTH_MS ==>
            t.Open? && t.minutes == (start + SESSION_LENGTH_MS - now) / MINUTE_MS && t.minutes <= 30)
      && (start + SESSION_LENGTH_MS <= now ==> t == Expired)
  {
    var t := Classify(now, start, start + SESSION_LENGTH_MS);
    if start <= now < start + SESSION_LENGTH_MS {
      var rem := start + SESSION_LENGTH_MS - now;
      assert rem % HOUR_MS == rem;
    }
  }
}

# Session board model

A Dafny model of the logic of the session board page (`app.js`). Players pick a
half-hour start time and create a "session" for it. Others join it, up to five
players. Players can leave, and a session with no players left is deleted. A
one-second countdown shows "opens in N m" during the last 30 minutes before the
session opens and "removed in N m" while it is open. The session is dropped 30
minutes after it opens.

The model has five modules:

- `Clock` (`clock.dfy`): the millisecond constants. These are one minute, one
  hour, the 30-minute session length and the 30-minute display window for the
  opening countdown.
- `Slots` (`slots.dfy`): the list of start times offered in the selector.
  `PopulateSessionTime` builds it with a loop, as the page does, and is proved
  equal to the recursive definition `SlotsFrom`. The lemmas give that list's
  length, its members, its clock order and its last entry "6:00". They also
  show that no two offered labels have the same text.
- `Countdown` (`countdown.dfy`): one tick of a session timer, as a pure
  function `Classify` of the current instant, the opening instant and the
  expiration instant. The result is `Pending` (minutes to opening, rounded up),
  `Open` (minutes to expiration, rounded down, modulo one hour) or `Expired`.
- `Sessions` (`sessions.dfy`): the `Session` and `Player` records and the error
  kinds, one per check that can fail (`MissingUsername` covers the create and the join
  message about an empty username; `SessionNotFound` covers an unguarded lookup
  that has no message). It also holds the pure queries the
  page uses (`some`, `find` and `filter`) and the board invariant `WellFormed`
  with the lemmas showing that each update keeps it. `WellFormed` says:
  - no two sessions share an id or a time label;
  - every session has 1 to 5 players;
  - usernames are non-empty and distinct within a session.
- `Board` (`board.dfy`): the class `SessionBoard`. It holds the module-level
  `sessions` list as a `seq<Session>` field. Its methods are `Create`, `Join`,
  `Leave` and `RemoveSession`, plus `OnTick`, the effect of one timer firing.
  Each method keeps `Valid()` and states the board's whole new state.

Clock readings and identifiers come in as parameters:

- the local hour and minute read when the selector is filled;
- the instant a chosen time label denotes today (`start`);
- the current instant for a tick (`now`);
- the identifiers the page draws at random.

A new session's id must not already be on the board. Player ids may be
anything.

The model follows the code as written, including these behaviours:

- The time list covers only hours from the current (or next) hour up to 5:30,
  then "6:00". In the evening it therefore holds just "6:00"; the list does not
  run across midnight.
- When fewer than 30 minutes of the hour have passed, the list starts with the
  current hour's ":00", which is already past.
- Creating a session does not check that the time is one of the offered
  options. Any non-empty text is accepted.
- A username is rejected only when it is the empty string; whitespace is not
  trimmed.
- Leaving with an unknown player id is not an error. The session is left
  unchanged.
- There is no nightly board reset. Sessions disappear only through their own
  timers or when their last player leaves.
- Join looks up the session first but only uses the result after the username
  check, so an empty username is reported even when the session is missing.
- Join checks "full" (5 or more players) before it checks for a duplicate name.

## Model

| member | source | states |
|---|---|---|
| `Slots.PopulateSessionTime` | app.js:25-57 | The options built from hour:minute are `SlotsFrom(startHour)`, where `startHour` is the hour plus 1 when minutes ≥ 30. There are 2·max(0, 6−startHour)+1 of them, exactly the labels `h:00`/`h:30` for startHour ≤ h < 6 plus "6:00", in strictly increasing clock order. The last one is "6:00" and every label is well formed. |
| `Slots.Text` | app.js:44-56 | The option text of a label is four characters `h:mm`: its first digit is the hour, then ':', then "00" exactly when the minute is 0 and "30" exactly when it is 30. |
| `Slots.SlotsFromLength` | app.js:42-57 | The list from hour h has 2·max(0, 6−h)+1 entries. |
| `Slots.SlotsFromMembers` | app.js:33-57 | A label is offered iff it is a :00 or :30 mark with hour in [h, 6), or it is "6:00". |
| `Slots.SlotsFromIncreasing` | app.js:42-57 | The options are in strictly increasing clock order. |
| `Slots.SlotsFromEndsAtSix` | app.js:54-57 | The list is never empty and always ends with "6:00". |
| `Slots.SlotTextsDistinct` | app.js:42-57 | From a non-negative start hour, any two options have different texts. A chosen text therefore identifies one slot. |
| `Countdown.Classify` | app.js:136-151 | Pending iff now < start, so now == start is in the open branch. Expired iff start ≤ now and expiration ≤ now. Pending minutes m ≥ 1 are the ceiling: (m−1)·60000 < start−now ≤ m·60000. Open minutes m lie in 0..59 and are the floor of ((expiration−now) mod 3,600,000)/60000. |
| `Countdown.PhasesAdvance` | app.js:138-147 | As time passes a session only moves forward: Pending, then Open, then Expired. |
| `Countdown.CountdownNeverIncreases` | app.js:138-150 | Within one phase the displayed minutes never go up as time passes: always while pending, and while open whenever less than an hour remains at the earlier instant. |
| `Countdown.SessionTimeline` | app.js:138-151 | For a session expiring 30 minutes after it opens: the opening countdown is displayed iff at most 30 minutes remain; at the opening instant the tick is `Open(30)`; while open the minutes are the whole minutes left, at most 30; from expiration on the tick is `Expired`. |
| `Sessions.IsSessionTimeTaken` | app.js:128-130 | True iff some session's time label equals the given text exactly. |
| `Sessions.IsUsernameTaken` | app.js:171 | True iff some player's username equals the given text exactly (case-sensitive). |
| `Sessions.FindSession` | app.js:165 | Gives the index of the first session with the id, or none iff no session has it. |
| `Sessions.SessionsWithout` | app.js:158 | Keeps exactly the sessions whose id differs, and is never longer than its input. |
| `Sessions.PlayersWithout` | app.js:188 | Keeps exactly the players whose id differs, and is never longer than its input. |
| `Sessions.SessionsWithoutAppend` | app.js:158 | The session filter distributes over concatenation, so survivors keep their relative order. |
| `Sessions.SessionsWithoutAbsent` | app.js:157-158 | Removing an id that no session has changes nothing. |
| `Sessions.SessionsWithoutIdempotent` | app.js:157-158 | Removing the same id twice equals removing it once. |
| `Sessions.SessionsWithoutUnique` | app.js:157-158 | On a well-formed board, removing the id of the session at k removes exactly entry k. |
| `Sessions.SessionsWithoutWellFormed` | app.js:157-158 | Removing sessions keeps the board invariant. |
| `Sessions.PlayersWithoutAppend` | app.js:188 | The player filter distributes over concatenation, so remaining players keep their order. |
| `Sessions.PlayersWithoutAbsent` | app.js:188 | Filtering out an id that no player has leaves the list unchanged. |
| `Sessions.LeaveUndoesJoin` | app.js:174-188 | Dropping a just-appended player whose id is fresh restores the player list. |
| `Sessions.RemoveUndoesCreate` | app.js:157-158 | Removing a just-appended session whose id is fresh restores the board. |
| `Sessions.PlayersWithoutDistinct` | app.js:186-195 | After a leave, the remaining usernames are still non-empty and distinct. |
| `Sessions.AppendWellFormed` | app.js:76-88 | Appending a well-formed session whose time is not taken and whose id is new keeps the invariant. |
| `Sessions.ReplaceWellFormed` | app.js:170-174 | Replacing a session with a well-formed one of the same id and time keeps the invariant. |
| `Sessions.JoinKeepsSessionOk` | app.js:168-174 | Appending a player with a non-empty, unused name to a session with fewer than 5 players keeps it well formed, with at most 5 players. |
| `Board.SessionBoard.constructor` | app.js:8 | The board starts empty and valid. |
| `Board.SessionBoard.Create` | app.js:68-94 | Errors come in the order missing time, missing username, time taken, and each leaves the board unchanged. Success holds exactly when none applies. It appends one session at the end, keeping the earlier ones: chosen time, creator = username, one player with that username, expiration = start + 1,800,000 ms. The invariant (distinct time labels) is kept. |
| `Board.SessionBoard.RemoveSession` | app.js:157-161 | The new board is the old one without the sessions of that id. When the id is present this is the old board minus that one entry. The invariant is kept. |
| `Board.SessionBoard.Join` | app.js:164-183 | Errors come in the order empty username, session not found, full (≥ 5 players, before the duplicate check), duplicate username, and each leaves the board unchanged. Otherwise exactly that session gets the new player appended and no other session changes. The invariant (≤ 5 players) is kept. |
| `Board.SessionBoard.Leave` | app.js:186-196 | A missing session is an error that changes nothing. Otherwise every player with that id is removed, keeping the others in order. If none remain the session is deleted and the others keep their order; otherwise only that session's player list changes. An unknown player id changes nothing. |
| `Board.SessionBoard.OnTick` | app.js:135-151 | The tick is `Classify(now, start, expiration)`. When it is `Expired` the session's id is removed from the board; otherwise the board is unchanged. |

## Left out

- Rendering, element lookup and error display (app.js:1-6, 97-125, 199-207) are not modelled. Each message the page shows maps to one `Error` kind.
- Loading from and saving to `localStorage` (app.js:11-22) is not modelled, because it is I/O. A save after a change has no effect on the board. The board starts empty rather than from a stored snapshot.
- The timers themselves (`setInterval`/`clearInterval`) are not modelled. This includes the extra timer started on every render. One firing is `OnTick` at a given `now`. Since `RemoveSession` of an absent id changes nothing, extra or stale timers for the same session have no further effect on the board.
- Turning a time label into an instant with the host's date parser (app.js:79, 123, 178) is not modelled, because it depends on the locale and host. The instant is the parameter `start`.
- Random identifiers (app.js:81, 83, 174) are not modelled; the caller supplies them. `Create` requires a session id not already on the board.
- The initial selection of the selector (app.js:59-64) only affects the display and is not modelled.
- Sessions are modelled as values, so object aliasing is not modelled. The page changes a session's players on the object it found, and a timer closure keeps that object. Only the id and expiration are read from the closure, and neither ever changes.
- `Board.SessionBoard.Join`, `Board.SessionBoard.Leave`: when no session has the id, the page would fail on an undefined value. The model returns `SessionNotFound` and leaves the board unchanged.
- `Countdown.Classify`: the page divides with floating-point numbers before `Math.ceil`/`Math.floor`. The model uses exact integer division. For millisecond differences far below 2^53 the rounded quotient lands on the same whole minute.
- `Countdown.CountdownNeverIncreases`: its open-phase half holds only while less than an hour remains; the pending half has no such bound. Past that, the page's remainder modulo one hour makes the displayed figure wrap. No session the board creates lasts that long.

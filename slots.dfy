/**
 * The list of start times offered when a session is created: every half hour
 * from the current hour (or the next one, past the half hour) until 5:30,
 * followed by 6:00.
 */
module Slots {

  /** A clock label `hour:minute` as shown in the time selector. */
  datatype Label = Label(hour: int, minute: int)

  /** The option that always closes the list. */
  const SIX: Label := Label(6, 0)

  /** The first hour offered: the current one, or the next one once the half hour has passed. */
  function StartHour(currentHour: int, currentMinutes: int): int {
    if currentMinutes >= 30 then currentHour + 1 else currentHour
  }

  /** The options from `hour`:00 on, in the order they are appended to the selector. */
  function SlotsFrom(hour: int): seq<Label>
    decreases 6 - hour
  {
    if hour >= 6 then [SIX] else [Label(hour, 0), Label(hour, 30)] + SlotsFrom(hour + 1)
  }

  /** Independent description of the options: a half-hour mark from `start` to 5:30, or 6:00. */
  predicate Offered(start: int, l: Label) {
    (start <= l.hour < 6 && (l.minute == 0 || l.minute == 30)) || l == SIX
  }

  /** Clock order of labels within the night. */
  predicate Before(a: Label, b: Label) {
    a.hour < b.hour || (a.hour == b.hour && a.minute < b.minute)
  }

  predicate WellFormedLabel(l: Label) {
    0 <= l.hour <= 9 && (l.minute == 0 || l.minute == 30)
  }

  /** The text of an option, `h:00` or `h:30`, the value that a created session stores. */
  function Text(l: Label): (s: string)
    requires WellFormedLabel(l)
    ensures |s| == 4 && s[1] == ':' && s[3] == '0'
    ensures s[0] as int - '0' as int == l.hour
    ensures s[2] == '0' <==> l.minute == 0
    ensures s[2] == '3' <==> l.minute == 30
  {
    [('0' as int + l.hour) as char, ':'] + (if l.minute == 0 then "00" else "30")
  }

  lemma {:induction false} SlotsFromLength(hour: int)
    ensures |SlotsFrom(hour)| == 2 * (if hour < 6 then 6 - hour else 0) + 1
    decreases 6 - hour
  {
    if hour < 6 {
      SlotsFromLength(hour + 1);
    }
  }

  lemma {:induction false} SlotsFromMembers(hour: int, l: Label)
    ensures l in SlotsFrom(hour) <==> Offered(hour, l)
    decreases 6 - hour
  {
    if hour < 6 {
      SlotsFromMembers(hour + 1, l);
    }
  }

  lemma {:induction false} SlotsFromIncreasing(hour: int)
    ensures forall i, j :: 0 <= i < j < |SlotsFrom(hour)| ==> Before(SlotsFrom(hour)[i], SlotsFrom(hour)[j])
    decreases 6 - hour
  {
    if hour < 6 {
      var rest := SlotsFrom(hour + 1);
      SlotsFromIncreasing(hour + 1);
      forall k | 0 <= k < |rest|
        ensures rest[k].hour > hour
      {
        SlotsFromMembers(hour + 1, rest[k]);
      }
      var all := SlotsFrom(hour);
      assert all == [Label(hour, 0), Label(hour, 30)] + rest;
      forall i, j | 0 <= i < j < |all|
        ensures Before(all[i], all[j])
      {
        if j >= 2 {
          assert all[j] == rest[j - 2];
          if i >= 2 {
            assert all[i] == rest[i - 2];
          }
        }
      }
    }
  }

  lemma {:induction false} SlotsFromEndsAtSix(hour: int)
    ensures |SlotsFrom(hour)| > 0 && SlotsFrom(hour)[|SlotsFrom(hour)| - 1] == SIX
    decreases 6 - hour
  {
    if hour < 6 {
      SlotsFromEndsAtSix(hour + 1);
    }
  }

  /**
   * From a non-negative start hour, every option is a well-formed label and the
   * texts of any two options differ, so an option text identifies its label.
   */
  lemma SlotTextsDistinct(hour: int)
    requires 0 <= hour
    ensures forall i :: 0 <= i < |SlotsFrom(hour)| ==> WellFormedLabel(SlotsFrom(hour)[i])
    ensures forall i, j :: 0 <= i < j < |SlotsFrom(hour)| ==> Text(SlotsFrom(hour)[i]) != Text(SlotsFrom(hour)[j])
  {
    var all := SlotsFrom(hour);
    forall i | 0 <= i < |all|
      ensures WellFormedLabel(all[i])
    {
      SlotsFromMembers(hour, all[i]);
    }
    SlotsFromIncreasing(hour);
    forall i, j | 0 <= i < j < |all|
      ensures Text(all[i]) != Text(all[j])
    {
      var a, b := all[i], all[j];
      assert Before(a, b);
      if a.hour != b.hour {
        assert Text(a)[0] != Text(b)[0];
      } else {
        assert Text(a)[2] != Text(b)[2];
      }
    }
  }

  /** The facts about the list from a non-negative start hour, gathered for its builder. */
  lemma SlotsFromFacts(hour: int)
    requires 0 <= hour
    ensures |SlotsFrom(hour)| == 2 * (if hour < 6 then 6 - hour else 0) + 1
    ensures SlotsFrom(hour)[|SlotsFrom(hour)| - 1] == SIX
    ensures forall l :: l in SlotsFrom(hour) <==> Offered(hour, l)
    ensures forall i, j :: 0 <= i < j < |SlotsFrom(hour)| ==> Before(SlotsFrom(hour)[i], SlotsFrom(hour)[j])
    ensures forall i :: 0 <= i < |SlotsFrom(hour)| ==> WellFormedLabel(SlotsFrom(hour)[i])
  {
    SlotsFromLength(hour);
    SlotsFromEndsAtSix(hour);
    SlotsFromIncreasing(hour);
    forall l
      ensures l in SlotsFrom(hour) <==> Offered(hour, l)
    {
      SlotsFromMembers(hour, l);
    }
  }

  /**
   * The options written into the time selector at the instant
   * `currentHour:currentMinutes` (a local clock reading).
   */
  method PopulateSessionTime(currentHour: int, currentMinutes: int) returns (slots: seq<Label>)
    requires 0 <= currentHour < 24 && 0 <= currentMinutes < 60
    ensures slots == SlotsFrom(StartHour(currentHour, currentMinutes))
    ensures var start := StartHour(currentHour, currentMinutes);
      |slots| == 2 * (if start < 6 then 6 - start else 0) + 1
    ensures slots[|slots| - 1] == SIX
    ensures forall l :: l in slots <==> Offered(StartHour(currentHour, currentMinutes), l)
    ensures forall i, j :: 0 <= i < j < |slots| ==> Before(slots[i], slots[j])
    ensures forall i :: 0 <= i < |slots| ==> WellFormedLabel(slots[i])
  {
    var startHour := currentHour;
    if currentMinutes >= 30 {
      startHour := startHour + 1;
    }
    slots := [];
    var hour := startHour;
    while hour < 6
      invariant slots + SlotsFrom(hour) == SlotsFrom(startHour)
      decreases 6 - hour
    {
      var pair := [Label(hour, 0), Label(hour, 30)];
      assert SlotsFrom(hour) == pair + SlotsFrom(hour + 1);
      assert (slots + pair) + SlotsFrom(hour + 1) == slots + (pair + SlotsFrom(hour + 1));
      slots := slots + pair;
      hour := hour + 1;
    }
    assert SlotsFrom(hour) == [SIX];
    slots := slots + [SIX];
    assert startHour == StartHour(currentHour, currentMinutes);
    SlotsFromFacts(startHour);
  }
}

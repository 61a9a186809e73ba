/**
 * The schedule editor of the popup: adding the default weekday schedule,
 * removing one, merging field updates into one, and toggling a weekday.
 * Each handler computes the new list it hands to `onChange`.
 */
module Schedules {
  import opened SiteTypes
  import opened JsString
  import opened Policy
  import opened JsArray

  /** The schedule "Add Schedule" creates: Monday to Friday, 09:00 to 17:00,
      enabled. */
  const DefaultNewSchedule: Schedule := Schedule([1, 2, 3, 4, 5], "09:00", "17:00", Some(true))

  /** `handleAddSchedule`: `[...schedules, newSchedule]`. */
  function AddSchedule(schedules: seq<Schedule>): (r: seq<Schedule>)
    ensures |r| == |schedules| + 1
    ensures r[..|schedules|] == schedules
    ensures r[|schedules|] == DefaultNewSchedule
  {
    schedules + [DefaultNewSchedule]
  }

  /** After adding, blocking is in force exactly when it was before or when
      the new weekday window holds. */
  lemma AddScheduleWithin(schedules: seq<Schedule>, day: int, now: string)
    ensures IsWithinSchedule(AddSchedule(schedules), day, now)
        <==> IsWithinSchedule(schedules, day, now) || ScheduleMatches(DefaultNewSchedule, day, now)
  {
    WithinScheduleUnion(schedules, [DefaultNewSchedule], day, now);
  }

  /** The added window holds on weekdays 1 to 5, from "09:00" to "17:00"
      in the string order. */
  lemma DefaultWindow(day: int, now: string)
    ensures ScheduleMatches(DefaultNewSchedule, day, now)
        <==> 1 <= day <= 5 && !LexLess(now, "09:00") && !LexLess("17:00", now)
  {
  }

  /** The clock reads "HH:MM:SS" while the window ends at "HH:MM", so the
      default window stops matching at 17:00:00, not at 17:01. */
  lemma DefaultWindowMissesLastMinute(day: int, seconds: string)
    ensures !ScheduleMatches(DefaultNewSchedule, day, "17:00:" + seconds)
  {
    var now := "17:00:" + seconds;
    assert now[..5] == "17:00";
    assert |now| > 5;
    ProperPrefixLess("17:00", now);
  }

  /** `handleRemoveSchedule(index)`: a copy of the list, spliced at `index`. */
  method RemoveSchedule(schedules: seq<Schedule>, index: int) returns (r: seq<Schedule>)
    ensures r == SpliceOne(schedules, index)
    ensures 0 <= index < |schedules| ==> r == schedules[..index] + schedules[index + 1..]
  {
    r := CopyAndSpliceOne(schedules, index);
    if 0 <= index < |schedules| {
      SpliceOneAtIndex(schedules, index);
    }
  }

  /** A `Partial<Schedule>`: the fields it names, and no others. */
  datatype ScheduleUpdate = ScheduleUpdate(
    days: Option<seq<int>>,
    startTime: Option<string>,
    endTime: Option<string>,
    enabled: Option<bool>)

  /** `{ ...schedule, ...updates }`: each field the update names wins. */
  function Merge(s: Schedule, u: ScheduleUpdate): (m: Schedule)
    ensures m.days == (if u.days.Some? then u.days.value else s.days)
    ensures m.startTime == (if u.startTime.Some? then u.startTime.value else s.startTime)
    ensures m.endTime == (if u.endTime.Some? then u.endTime.value else s.endTime)
    ensures m.enabled == (if u.enabled.Some? then u.enabled else s.enabled)
  {
    Schedule(
      if u.days.Some? then u.days.value else s.days,
      if u.startTime.Some? then u.startTime.value else s.startTime,
      if u.endTime.Some? then u.endTime.value else s.endTime,
      if u.enabled.Some? then u.enabled else s.enabled)
  }

  /** An update that names no field changes nothing; merging twice is
      merging once. */
  lemma MergeLaws(s: Schedule, u: ScheduleUpdate)
    ensures Merge(s, ScheduleUpdate(None, None, None, None)) == s
    ensures Merge(Merge(s, u), u) == Merge(s, u)
  {
  }

  /** `handleScheduleChange(index, updates)`: a copy of the list whose
      element at `index` is replaced by the merge. */
  method ScheduleChange(schedules: seq<Schedule>, index: int, updates: ScheduleUpdate)
    returns (r: seq<Schedule>)
    requires 0 <= index < |schedules|
    ensures |r| == |schedules|
    ensures r[index] == Merge(schedules[index], updates)
    ensures forall i :: 0 <= i < |r| && i != index ==> r[i] == schedules[i]
  {
    var a := new Schedule[|schedules|](i requires 0 <= i < |schedules| => schedules[i]);
    a[index] := Merge(a[index], updates);
    r := a[..];
  }

  /** `days.filter(d => d !== day)`. */
  function Without(days: seq<int>, day: int): (r: seq<int>)
    ensures day !in r
    ensures forall d :: d != day ==> (d in r <==> d in days)
    ensures day !in days ==> r == days
  {
    if days == [] then []
    else
      assert days == [days[0]] + days[1..];
      if days[0] == day then Without(days[1..], day)
      else [days[0]] + Without(days[1..], day)
  }

  /** Filtering drops every copy of the day and keeps the count of every
      other day. */
  lemma {:induction false} WithoutCounts(days: seq<int>, day: int)
    ensures multiset(Without(days, day)) == multiset(days)[day := 0]
  {
    if days != [] {
      assert days == [days[0]] + days[1..];
      WithoutCounts(days[1..], day);
    }
  }

  /** Filtering keeps the order: filtering a concatenation concatenates
      the filtered parts. */
  lemma {:induction false} WithoutConcat(a: seq<int>, b: seq<int>, day: int)
    ensures Without(a + b, day) == Without(a, day) + Without(b, day)
  {
    if a == [] {
      assert a + b == b;
    } else {
      var ab := a + b;
      assert ab[0] == a[0];
      assert ab[1..] == a[1..] + b;
      WithoutConcat(a[1..], b, day);
      if a[0] == day {
        assert Without(ab, day) == Without(ab[1..], day);
        assert Without(a, day) == Without(a[1..], day);
      } else {
        assert Without(ab, day) == [a[0]] + Without(ab[1..], day);
        assert Without(a, day) == [a[0]] + Without(a[1..], day);
      }
    }
  }

  /** A single day is kept exactly when it is not the one filtered out. */
  lemma WithoutSingle(d: int, day: int)
    ensures Without([d], day) == if d == day then [] else [d]
  {
    assert [d][1..] == [];
  }

  /** Filtering out a day that was just appended is filtering the rest. */
  lemma WithoutAppended(days: seq<int>, day: int)
    ensures Without(days + [day], day) == Without(days, day)
  {
    WithoutConcat(days, [day], day);
    WithoutSingle(day, day);
  }

  /** The new day list of `handleDayToggle`: every occurrence of a present
      day is removed, an absent day is appended at the end. */
  function ToggleDay(days: seq<int>, day: int): (r: seq<int>)
    ensures day in days ==> day !in r
    ensures day !in days ==> r == days + [day]
    ensures forall d :: d != day ==> (d in r <==> d in days)
  {
    if day in days then Without(days, day) else days + [day]
  }

  /** Toggling a day twice restores whether it is present; when it was
      absent the list comes back exactly. */
  lemma ToggleTwice(days: seq<int>, day: int)
    ensures (day in ToggleDay(ToggleDay(days, day), day)) <==> day in days
    ensures day !in days ==> ToggleDay(ToggleDay(days, day), day) == days
  {
    if day !in days {
      WithoutAppended(days, day);
    }
  }

  /** `handleDayToggle(scheduleIndex, day)`: the schedule's day list is
      toggled through `handleScheduleChange`; nothing else changes. */
  method DayToggle(schedules: seq<Schedule>, scheduleIndex: int, day: int) returns (r: seq<Schedule>)
    requires 0 <= scheduleIndex < |schedules|
    ensures |r| == |schedules|
    ensures r[scheduleIndex] == schedules[scheduleIndex].(days := ToggleDay(schedules[scheduleIndex].days, day))
    ensures forall i :: 0 <= i < |r| && i != scheduleIndex ==> r[i] == schedules[i]
  {
    var schedule := schedules[scheduleIndex];
    var newDays := ToggleDay(schedule.days, day);
    r := ScheduleChange(schedules, scheduleIndex, ScheduleUpdate(Some(newDays), None, None, None));
  }
}

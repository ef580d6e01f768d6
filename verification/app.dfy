/**
 * The controller logic of App.tsx: the per-second trigger rule, the
 * Idle/Ringing relay with its timed reset, the two LCD lines and the
 * "Pendiente"/"Pasado" status of each schedule row. The clock and the timers
 * are not modelled as such: the current time is a parameter and the reset
 * timer firing is an event.
 */
module App {
  import opened Types
  import opened JsString
  import opened BellLogic
  import opened Constants
  import opened LcdSimulator

  // ---------------------------------------------------------------- trigger

  /** The predicate the tick handler hands to `BELL_SCHEDULE.find`. */
  predicate MatchesNow(e: BellEvent, h: int, m: int, s: int) {
    e.hour == h && e.minute == m && s == 0
  }

  /** `schedule.find(...)`: the first entry ringing at `h:m:s`, if any. */
  function FindTrigger(schedule: seq<BellEvent>, h: int, m: int, s: int): (r: Option<BellEvent>)
    ensures r.None? <==> forall i :: 0 <= i < |schedule| ==> !MatchesNow(schedule[i], h, m, s)
    ensures r.Some? ==>
      exists i :: && 0 <= i < |schedule| && schedule[i] == r.value
                  && MatchesNow(schedule[i], h, m, s)
                  && forall j :: 0 <= j < i ==> !MatchesNow(schedule[j], h, m, s)
  {
    if |schedule| == 0 then None
    else if MatchesNow(schedule[0], h, m, s) then Some(schedule[0])
    else
      var r := FindTrigger(schedule[1..], h, m, s);
      assert forall i :: 1 <= i < |schedule| ==> schedule[i] == schedule[1..][i - 1];
      if r.Some? then
        var k :| 0 <= k < |schedule[1..]| && schedule[1..][k] == r.value
          && MatchesNow(schedule[1..][k], h, m, s)
          && forall j :: 0 <= j < k ==> !MatchesNow(schedule[1..][j], h, m, s);
        assert schedule[k + 1] == r.value;
        r
      else r
  }

  /** The trigger at instant `now`, against the configured schedule. */
  function TriggerAt(now: DateTime): Option<BellEvent> {
    FindTrigger(BellSchedule(), now.hour, now.minute, now.second)
  }

  /** In an ordered schedule a trigger names the one entry at that minute, and only at second 0. */
  lemma TriggerIsUnique(schedule: seq<BellEvent>, h: int, m: int, s: int)
    requires WellFormedSchedule(schedule)
    ensures FindTrigger(schedule, h, m, s).Some? <==>
      s == 0 && exists i :: 0 <= i < |schedule| && schedule[i].hour == h && schedule[i].minute == m
    ensures forall i, j ::
      (0 <= i < |schedule| && 0 <= j < |schedule| &&
       MatchesNow(schedule[i], h, m, s) && MatchesNow(schedule[j], h, m, s)) ==> i == j
  {
    forall i, j | 0 <= i < |schedule| && 0 <= j < |schedule|
      && MatchesNow(schedule[i], h, m, s) && MatchesNow(schedule[j], h, m, s)
      ensures i == j
    {
      assert MinuteOfDay(schedule[i]) == MinuteOfDay(schedule[j]);
    }
    if s == 0 && exists i :: 0 <= i < |schedule| && schedule[i].hour == h && schedule[i].minute == m {
      var i :| 0 <= i < |schedule| && schedule[i].hour == h && schedule[i].minute == m;
      assert MatchesNow(schedule[i], h, m, s);
    }
  }

  lemma TriggerExamples(t: DateTime)
    requires t.hour == 8 && t.minute == 30
    ensures t.second == 0 ==> TriggerAt(t) == Some(BellEvent(8, 30, "Entrada"))
    ensures t.second == 1 ==> TriggerAt(t) == None
    ensures TriggerAt(t.(minute := 31)) == None
  {
  }

  // ---------------------------------------------------------------- relay

  datatype BellState = Idle | Ringing

  /**
   * The relay flag together with the number of reset timers still pending
   * (each `triggerBell` from Idle starts one of `BellDurationMs`).
   */
  datatype Machine = Machine(bell: BellState, pendingResets: nat)

  const Initial: Machine := Machine(Idle, 0)

  /** Exactly one reset is pending while ringing and none while idle. */
  predicate Consistent(m: Machine) {
    m.pendingResets == if m.bell == Ringing then 1 else 0
  }

  /** `triggerBell`: ignored while ringing; otherwise ring and start the reset timer. */
  function TriggerBell(m: Machine): (r: Machine)
    ensures m.bell == Ringing ==> r == m
    ensures m.bell == Idle ==> r.bell == Ringing && r.pendingResets == m.pendingResets + 1
  {
    if m.bell == Ringing then m
    else Machine(Ringing, m.pendingResets + 1)
  }

  /** The reset timer's callback: the relay turns off. Without a pending timer nothing fires. */
  function ResetFires(m: Machine): (r: Machine)
    ensures m.pendingResets > 0 ==> r.bell == Idle && r.pendingResets + 1 == m.pendingResets
    ensures m.pendingResets == 0 ==> r == m
  {
    if m.pendingResets == 0 then m
    else Machine(Idle, m.pendingResets - 1)
  }

  /** The automatic ring condition at instant `now`, stated without the search. */
  predicate ShouldRing(now: DateTime) {
    && !IsNonSchoolDay(now)
    && now.second == 0
    && exists i :: 0 <= i < |BellSchedule()| && BellSchedule()[i].hour == now.hour
                                             && BellSchedule()[i].minute == now.minute
  }

  /**
   * The once-per-second tick handler: on a school day, when some entry
   * matches and the relay is off, `triggerBell` runs.
   */
  function OnTick(m: Machine, now: DateTime): (r: Machine)
    ensures m.bell == Idle ==> (r.bell == Ringing <==> ShouldRing(now))
    ensures m.bell == Idle && ShouldRing(now) ==> r == TriggerBell(m)
    ensures m.bell == Ringing ==> r == m
    ensures !ShouldRing(now) ==> r == m
  {
    ScheduleIsWellFormed();
    TriggerIsUnique(BellSchedule(), now.hour, now.minute, now.second);
    if !IsNonSchoolDay(now) && TriggerAt(now).Some? && m.bell != Ringing then TriggerBell(m)
    else m
  }

  datatype Event =
    | ClockTick(now: DateTime)   // the one-second interval fires
    | ManualPress                // the "PRUEBA MANUAL" button calls triggerBell
    | ResetTimerFires            // a pending reset timer expires

  function Step(m: Machine, e: Event): Machine {
    match e
    case ClockTick(now) => OnTick(m, now)
    case ManualPress => TriggerBell(m)
    case ResetTimerFires => ResetFires(m)
  }

  function Run(m: Machine, events: seq<Event>): Machine
    decreases |events|
  {
    if |events| == 0 then m else Run(Step(m, events[0]), events[1..])
  }

  /** Every event keeps one pending reset per ring. */
  lemma StepKeepsConsistent(m: Machine, e: Event)
    requires Consistent(m)
    ensures Consistent(Step(m, e))
  {
  }

  /**
   * From power-on, whatever the events, the relay never has two resets
   * pending: a ring cannot start while another is still on.
   */
  lemma {:induction false} RunKeepsConsistent(m: Machine, events: seq<Event>)
    requires Consistent(m)
    ensures Consistent(Run(m, events))
    ensures Run(m, events).pendingResets <= 1
    decreases |events|
  {
    if |events| > 0 {
      StepKeepsConsistent(m, events[0]);
      RunKeepsConsistent(Step(m, events[0]), events[1..]);
    }
  }

  /** A ring from Idle lasts until its own reset fires, and then the relay is Idle again. */
  lemma RingCycle(m: Machine)
    requires Consistent(m) && m.bell == Idle
    ensures Consistent(TriggerBell(m)) && TriggerBell(m).bell == Ringing
    ensures TriggerBell(TriggerBell(m)) == TriggerBell(m)
    ensures ResetFires(TriggerBell(m)) == m
  {
  }

  /** Sunday 12 October 2025 at 09:20:00: a scheduled minute, but no ring. */
  lemma NoRingOnHispanidad(m: Machine, t: DateTime)
    requires t == DateTime(2025, 9, 12, 9, 20, 0, 0)
    ensures TriggerAt(t).Some?
    ensures OnTick(m, t) == m
  {
    HispanidadIsNonSchool(t);
  }

  /** Tuesday 14 October 2025 at 08:30:00: the Entrada bell rings. */
  lemma RingOnSchoolMorning(t: DateTime)
    requires t == DateTime(2025, 9, 14, 8, 30, 0, 0)
    ensures OnTick(Initial, t) == Machine(Ringing, 1)
  {
    OrdinaryTuesdayIsSchool(t);
    assert BellSchedule()[0].hour == 8 && BellSchedule()[0].minute == 30;
  }

  // ---------------------------------------------------------------- display

  /** `HORA ` followed by the `HH:MM` part of `formatTime`. */
  function LcdLine1(now: DateTime): (r: string)
    ensures |r| == 10 && r[..5] == "HORA " && r[7] == ':'
    ensures AllDigits(r[5..7]) && ParseDecimal(r[5..7]) == now.hour
    ensures AllDigits(r[8..10]) && ParseDecimal(r[8..10]) == now.minute
  {
    var t := FormatTime(now);
    PrefixFields("HORA ", t);
    "HORA " + Substring(t, 0, 5)
  }

  /** Where the hour and minute of a formatted time sit behind a five-character prefix. */
  lemma PrefixFields(p: string, t: string)
    requires |p| == 5 && |t| == 8
    ensures var r := p + Substring(t, 0, 5);
      |r| == 10 && r[..5] == p && r[5..7] == t[0..2] && r[7] == t[2] && r[8..10] == t[3..5]
  {
    var r := p + t[0..5];
    assert r[..5] == p;
    assert r[5..7] == t[0..2];
    assert r[8..10] == t[3..5];
  }

  /** The day status, padded to 14 characters. */
  function LcdLine2(now: DateTime): (r: string)
    ensures |r| == 14
    ensures !IsNonSchoolDay(now) ==> r[..7] == "LECTIVO"
    ensures IsNonSchoolDay(now) ==> r[..10] == "NO LECTIVO"
    ensures forall i :: (if IsNonSchoolDay(now) then 10 else 7) <= i < 14 ==> r[i] == ' '
  {
    if !IsNonSchoolDay(now) then "LECTIVO       " else "NO LECTIVO    "
  }

  /** What the display shows: both lines normalised to the 16 columns. */
  datatype Screen = Screen(line1: string, line2: string)

  function Display(now: DateTime): (s: Screen)
    ensures |s.line1| == Columns && |s.line2| == Columns
    ensures s.line1 == LcdLine1(now) + "      "
    ensures s.line2 == LcdLine2(now) + "  "
  {
    assert Repeat(' ', 6) == "      " && Repeat(' ', 2) == "  ";
    Screen(NormalizeLine(LcdLine1(now)), NormalizeLine(LcdLine2(now)))
  }

  // ---------------------------------------------------------------- rows

  /**
   * A row is "Pendiente" when its (hour, minute) is later than now's, else
   * "Pasado". For a row with a valid minute this compares minutes since
   * midnight; at the bell's own minute the row is already past.
   */
  function IsUpcoming(now: DateTime, item: BellEvent): (r: bool)
    ensures 0 <= item.minute < 60 ==> (r <==> now.hour * 60 + now.minute < item.hour * 60 + item.minute)
    ensures (item.hour, item.minute) == (now.hour, now.minute) ==> !r
  {
    now.hour < item.hour || (now.hour == item.hour && now.minute < item.minute)
  }

  /** In an ordered schedule, the rows still to come are a suffix. */
  lemma UpcomingIsMonotone(now: DateTime, schedule: seq<BellEvent>, i: int, j: int)
    requires WellFormedSchedule(schedule)
    requires 0 <= i < j < |schedule|
    requires IsUpcoming(now, schedule[i])
    ensures IsUpcoming(now, schedule[j])
  {
  }

  /**
   * At the instant an entry triggers, its own row already reads "Pasado",
   * every earlier row too, and every later row "Pendiente".
   */
  lemma RowsAtTrigger(now: DateTime, i: int)
    requires 0 <= i < |BellSchedule()|
    requires TriggerAt(now) == Some(BellSchedule()[i])
    ensures forall j :: 0 <= j < |BellSchedule()| ==> (IsUpcoming(now, BellSchedule()[j]) <==> i < j)
  {
    ScheduleIsWellFormed();
    var s := BellSchedule();
    forall j | 0 <= j < |s|
      ensures IsUpcoming(now, s[j]) <==> i < j
    {
      assert now.hour * 60 + now.minute == MinuteOfDay(s[i]);
    }
  }
}

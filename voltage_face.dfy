/** The wave watch face: its context object, updated in place on each tick,
    and the face's lifecycle entry points. The motion line, the clock and
    the buzzer are per-call inputs and outputs. */
module VoltageFace {
  import opened WaveMath
  import opened WaveDetect

  datatype Option<T> = None | Some(value: T)

  /** The kinds of event the face's loop distinguishes. */
  datatype EventKind = ActivateEvent | TickEvent | LowEnergyUpdateEvent | OtherEvent(code: nat)

  /** An event from the scheduler: its kind and the tick's subsecond. */
  datatype Event = Event(kind: EventKind, subsecond: u8)

  /** What the loop reports: its return value, whether the buzzer was
      sounded, and the hit-count digit drawn, if the display was drawn. */
  datatype LoopResult = LoopResult(redraw: bool, beep: bool, shownDigit: Option<char>)

  /** The face's context, allocated once and reused. */
  class WaveDetector {
    var hitCount: u8
    var lastHitSubsecond: u8
    var firstHitTime: DateTime

    /** The context's fields as a value. */
    function State(): HitState
      reads this
    {
      HitState(hitCount, lastHitSubsecond, firstHitTime)
    }

    /** The zero-filled context `malloc` plus `memset` produce. */
    constructor ()
      ensures State() == Cleared
    {
      hitCount := 0;
      lastHitSubsecond := 0;
      firstHitTime := ZeroTime;
    }

    /** `_reset_hits`: clears all three fields. */
    method ResetHits()
      modifies this
      ensures State() == Cleared
    {
      hitCount := 0;
      lastHitSubsecond := 0;
      firstHitTime := ZeroTime;
    }

    /** `voltage_face_activate`: clears the hit state and draws the display,
        which then shows a count of zero. */
    method Activate() returns (shown: char)
      modifies this
      ensures State() == Cleared
      ensures shown == '0'
    {
      ResetHits();
      shown := DisplayDigit(hitCount);
    }

    /** The hit logic of an `EVENT_TICK`: `active` is the motion line,
        `now` the local date-time the tick reads. */
    method Tick(active: bool, subsecond: u8, now: DateTime) returns (beep: bool)
      modifies this
      ensures Outcome(State(), beep) == Step(old(State()), Sample(active, subsecond, now))
      ensures old(WellFormed(State())) ==> WellFormed(State())
    {
      beep := false;
      if active {
        if hitCount == 0 {
          firstHitTime := now;
          lastHitSubsecond := subsecond;
          hitCount := 1;
        } else {
          var delta := ModDelta(subsecond, lastHitSubsecond);
          if delta >= MinHitGapTicks {
            lastHitSubsecond := subsecond;
            if hitCount < 255 {
              hitCount := hitCount + 1;
            }
          }
        }
        if hitCount >= RequiredHits {
          var firstSeconds := SecondsOfDay(firstHitTime);
          var nowSeconds := SecondsOfDay(now);
          if nowSeconds - firstSeconds <= WindowSeconds {
            beep := true;
          }
          ResetHits();
        }
      } else {
        ResetHits();
      }
      if old(WellFormed(State())) {
        StepKeepsWellFormed(old(State()), Sample(active, subsecond, now));
      }
    }

    /** `voltage_face_loop`: dispatches one event. `active` and `now` are
        what the motion line and the clock report during the call. */
    method Loop(event: Event, active: bool, now: DateTime) returns (r: LoopResult)
      modifies this
      ensures r.redraw
      ensures event.kind.ActivateEvent? ==>
        State() == Cleared && r == LoopResult(true, false, Some('0'))
      ensures event.kind.TickEvent? ==>
        Outcome(State(), r.beep) == Step(old(State()), Sample(active, event.subsecond, now)) &&
        r.shownDigit == Some(DisplayDigit(old(hitCount)))
      ensures event.kind.LowEnergyUpdateEvent? ==>
        State() == old(State()) && r == LoopResult(true, false, Some(DisplayDigit(hitCount)))
      ensures event.kind.OtherEvent? ==>
        State() == old(State()) && r == LoopResult(true, false, None)
      ensures old(WellFormed(State())) ==> WellFormed(State())
    {
      match event.kind
      case ActivateEvent =>
        ResetHits();
        r := LoopResult(true, false, Some(DisplayDigit(hitCount)));
      case TickEvent =>
        var c := DisplayDigit(hitCount);
        var beep := Tick(active, event.subsecond, now);
        r := LoopResult(true, beep, Some(c));
      case LowEnergyUpdateEvent =>
        r := LoopResult(true, false, Some(DisplayDigit(hitCount)));
      case OtherEvent(_) =>
        r := LoopResult(true, false, None);
    }
  }

  /** `voltage_face_setup`: allocates a zeroed context when there is none,
      and keeps an existing one as it is. */
  method Setup(context: WaveDetector?) returns (r: WaveDetector)
    ensures context != null ==> r == context && unchanged(context)
    ensures context == null ==> fresh(r) && r.State() == Cleared
  {
    if context == null {
      r := new WaveDetector();
    } else {
      r := context;
    }
  }
}

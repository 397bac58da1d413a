/** The wave hit counter as a value-level state machine: the state it keeps
    between ticks, what one 4 Hz tick does to it, and what runs of ticks do. */
module WaveDetect {
  import opened WaveMath

  /** The three fields of the face's context. */
  datatype HitState = HitState(hitCount: u8, lastHitSubsecond: u8, firstHitTime: DateTime)

  /** The state `_reset_hits` leaves, and the zeroed freshly allocated one. */
  const Cleared := HitState(0, 0, ZeroTime)

  /** What one tick reads from outside: whether the motion line reports
      Active, the tick's subsecond and the local date-time. */
  datatype Sample = Sample(active: bool, subsecond: u8, now: DateTime)

  /** What a tick leaves behind: the new state and whether it beeped. */
  datatype Outcome = Outcome(next: HitState, beep: bool)

  /** The invariant every tick keeps: the count stays below the number
      that triggers, and an empty count carries no leftovers. */
  predicate WellFormed(s: HitState) {
    s.hitCount < RequiredHits && (s.hitCount == 0 ==> s == Cleared)
  }

  /** Counting an Active tick: the first hit opens the window; a later one
      counts only if the subsecond moved far enough since the last hit.
      Afterwards the count is never empty; on a running count the window
      start is kept and the count grows by at most one. */
  function Count(s: HitState, subsecond: u8, now: DateTime): (r: HitState)
    ensures r.hitCount >= 1
    ensures s.hitCount > 0 ==> r.firstHitTime == s.firstHitTime && s.hitCount <= r.hitCount && r.hitCount as int <= s.hitCount as int + 1
  {
    if s.hitCount == 0 then
      HitState(1, subsecond, now)
    else if ModDelta(subsecond, s.lastHitSubsecond) >= MinHitGapTicks then
      HitState(if s.hitCount < 255 then s.hitCount + 1 else s.hitCount, subsecond, s.firstHitTime)
    else
      s
  }

  /** One tick of the face. From any state whatever, the count after it is
      below the trigger number, and a beeping tick is Active and leaves the
      state cleared. */
  function Step(s: HitState, t: Sample): (r: Outcome)
    ensures r.next.hitCount < RequiredHits
    ensures r.beep ==> t.active && r.next == Cleared
  {
    if !t.active then
      Outcome(Cleared, false)
    else
      var c := Count(s, t.subsecond, t.now);
      if c.hitCount >= RequiredHits then
        Outcome(Cleared, WithinWindow(c.firstHitTime, t.now))
      else
        Outcome(c, false)
  }

  /** The state after a run of ticks, oldest first. After at least one
      tick the count is below the trigger number, and a run that ends with
      a Still tick ends cleared. */
  function Run(s: HitState, ts: seq<Sample>): (r: HitState)
    ensures ts != [] ==> r.hitCount < RequiredHits
    ensures ts != [] && !ts[|ts| - 1].active ==> r == Cleared
    decreases |ts|
  {
    if ts == [] then s else Step(Run(s, ts[..|ts| - 1]), ts[|ts| - 1]).next
  }

  /** How many ticks at the end of the run were Active. */
  function TrailingActive(ts: seq<Sample>): nat
    decreases |ts|
  {
    if ts == [] || !ts[|ts| - 1].active then 0 else TrailingActive(ts[..|ts| - 1]) + 1
  }

  /** A Still tick clears the whole state, whatever it held, and is silent. */
  lemma StillTickClears(s: HitState, t: Sample)
    requires !t.active
    ensures Step(s, t) == Outcome(Cleared, false)
  {
  }

  /** An Active tick on an empty count records one hit, this subsecond and
      this time as the window start, and is silent. */
  lemma FirstHitOpensWindow(s: HitState, t: Sample)
    requires t.active && s.hitCount == 0
    ensures Step(s, t) == Outcome(HitState(1, t.subsecond, t.now), false)
  {
  }

  /** On a running count an Active tick adds exactly one hit, moving the last
      hit to this subsecond, iff the modular gap reaches the minimum; otherwise
      nothing changes. The 255 saturation guard never intervenes. */
  lemma GapDecidesHit(s: HitState, subsecond: u8, now: DateTime)
    requires WellFormed(s) && s.hitCount > 0
    ensures var c := Count(s, subsecond, now);
      (c.hitCount == s.hitCount + 1 <==> ModDelta(subsecond, s.lastHitSubsecond) >= MinHitGapTicks) &&
      (c.hitCount == s.hitCount + 1 ==> c == s.(hitCount := s.hitCount + 1, lastHitSubsecond := subsecond)) &&
      (c.hitCount != s.hitCount + 1 ==> c == s)
  {
  }

  /** Every tick keeps the invariant, so after every tick the count is
      below the trigger number. */
  lemma StepKeepsWellFormed(s: HitState, t: Sample)
    requires WellFormed(s)
    ensures WellFormed(Step(s, t).next)
  {
  }

  /** The tick beeps exactly when it is Active, brings the count from one
      short of the trigger number to it, and the seconds-of-day difference
      from the first hit is within the window. */
  lemma BeepExactly(s: HitState, t: Sample)
    requires WellFormed(s)
    ensures Step(s, t).beep <==>
      t.active && s.hitCount == RequiredHits - 1 &&
      ModDelta(t.subsecond, s.lastHitSubsecond) >= MinHitGapTicks &&
      SecondsOfDay(t.now) - SecondsOfDay(s.firstHitTime) <= WindowSeconds
  {
  }

  /** Reaching the trigger number clears the state to zero whether or not the
      tick beeped: a late completing hit does not open a new window. */
  lemma TriggerAlwaysClears(s: HitState, t: Sample)
    requires WellFormed(s) && t.active && s.hitCount == RequiredHits - 1
    requires ModDelta(t.subsecond, s.lastHitSubsecond) >= MinHitGapTicks
    ensures Step(s, t).next == Cleared
    ensures Step(s, t).beep == WithinWindow(s.firstHitTime, t.now)
  {
  }

  /** A count completed after local midnight, with its first hit before it,
      always beeps. */
  lemma MidnightCompletionBeeps(s: HitState, t: Sample)
    requires WellFormed(s) && t.active && s.hitCount == RequiredHits - 1
    requires ModDelta(t.subsecond, s.lastHitSubsecond) >= MinHitGapTicks
    requires SecondsOfDay(t.now) < SecondsOfDay(s.firstHitTime)
    ensures Step(s, t).beep
  {
    MidnightCrossingPassesWindow(s.firstHitTime, t.now);
  }

  /** While the invariant holds the drawn digit is the count itself, one of
      "0".."3": a count of 4 is cleared in the tick that reaches it and is
      never drawn. */
  lemma ShownDigitIsCount(s: HitState)
    requires WellFormed(s)
    ensures DisplayDigit(s.hitCount) as int - '0' as int == s.hitCount as int
    ensures DisplayDigit(s.hitCount) in "0123"
  {
  }

  /** The invariant holds after any run of ticks. */
  lemma {:induction false} RunKeepsWellFormed(s: HitState, ts: seq<Sample>)
    requires WellFormed(s)
    ensures WellFormed(Run(s, ts))
    decreases |ts|
  {
    if ts != [] {
      RunKeepsWellFormed(s, ts[..|ts| - 1]);
      StepKeepsWellFormed(Run(s, ts[..|ts| - 1]), ts[|ts| - 1]);
    }
  }

  /** From a cleared state the count never exceeds the number of Active
      ticks since the last Still one. */
  lemma {:induction false} CountBoundedByTrailingActive(ts: seq<Sample>)
    ensures Run(Cleared, ts).hitCount as int <= TrailingActive(ts)
    decreases |ts|
  {
    if ts != [] {
      var init := ts[..|ts| - 1];
      CountBoundedByTrailingActive(init);
      RunKeepsWellFormed(Cleared, init);
    }
  }

  /** A beep needs unbroken motion: the beeping tick and the ticks just before
      it, as many as the trigger number less one, are all Active. */
  lemma BeepNeedsUnbrokenMotion(ts: seq<Sample>, t: Sample)
    requires Step(Run(Cleared, ts), t).beep
    ensures t.active && TrailingActive(ts) >= RequiredHits as int - 1
  {
    RunKeepsWellFormed(Cleared, ts);
    BeepExactly(Run(Cleared, ts), t);
    CountBoundedByTrailingActive(ts);
  }

  /** Ticks of one continuous Active stretch at 4 Hz, starting at
      subsecond `s0`, read at the given times. A construction for the
      lemmas below, not a model of the face: its ensures only expose the
      elements of the comprehension to their proofs. */
  function Continuous(s0: nat, times: seq<DateTime>): (ts: seq<Sample>)
    ensures |ts| == |times|
    ensures forall i :: 0 <= i < |ts| ==> ts[i] == Sample(true, ((s0 + i) % TicksPerSecond) as u8, times[i])
  {
    seq(|times|, i requires 0 <= i < |times| => Sample(true, ((s0 + i) % TicksPerSecond) as u8, times[i]))
  }

  /** The state after the first k ticks of a continuous stretch, as the
      lemma below finds it: (k + 1) / 2 hits, the last at the stretch's
      tick 2 * ((k - 1) / 2), and the window opened at the stretch's start. */
  function ContinuousState(s0: nat, k: nat, first: DateTime): HitState
    requires 1 <= k <= 6
  {
    HitState(((k + 1) / 2) as u8, ((s0 + 2 * ((k - 1) / 2)) % TicksPerSecond) as u8, first)
  }

  /** Within one continuous Active stretch every second tick counts as a
      new hit: after the first k ticks (before the trigger number is
      reached) the count is (k + 1) / 2 and the last hit is at the
      stretch's tick 2 * ((k - 1) / 2). */
  lemma {:induction false} ContinuousMotionCountsEveryOtherTick(s0: nat, times: seq<DateTime>, k: nat)
    requires s0 < TicksPerSecond && 1 <= k <= |times| && k <= 6
    ensures Run(Cleared, Continuous(s0, times)[..k]) == ContinuousState(s0, k, times[0])
    decreases k
  {
    var ts := Continuous(s0, times);
    var p := ts[..k];
    assert p[..k - 1] == ts[..k - 1];
    assert p[k - 1] == Sample(true, ((s0 + k - 1) % TicksPerSecond) as u8, times[k - 1]);
    assert Run(Cleared, p) == Step(Run(Cleared, p[..k - 1]), p[k - 1]).next;
    if k == 1 {
      assert p[..0] == [];
    } else {
      ContinuousMotionCountsEveryOtherTick(s0, times, k - 1);
      ContinuousStep(s0, k, times[0], times[k - 1]);
    }
  }

  /** The k-th tick of a continuous stretch, 2 <= k <= 6: a hit when k is
      odd, ignored when k is even. */
  lemma ContinuousStep(s0: nat, k: nat, first: DateTime, now: DateTime)
    requires s0 < TicksPerSecond && 2 <= k <= 6
    ensures Step(ContinuousState(s0, k - 1, first), Sample(true, ((s0 + k - 1) % TicksPerSecond) as u8, now)).next ==
            ContinuousState(s0, k, first)
  {
    // The last hit lies `gap` ticks back: two on odd ticks, one on even.
    var h := k / 2;
    var lastTick := if k % 2 == 1 then k - 3 else k - 2;
    var gap := if k % 2 == 1 then 2 else 1;
    assert k / 2 == (k - 1 + 1) / 2 && 2 * ((k - 1 - 1) / 2) == lastTick;
    var last := ((s0 + lastTick) % TicksPerSecond) as u8;
    var prev := ContinuousState(s0, k - 1, first);
    assert prev == HitState(h as u8, last, first);
    var sub := ((s0 + k - 1) % TicksPerSecond) as u8;
    assert ModDelta(sub, last) as int == gap by {
      assert s0 + lastTick + gap == s0 + k - 1;
      ModAdd4(s0 + lastTick, gap);
      ModDeltaOfTickGap(last, gap);
    }
    if k % 2 == 1 {
      assert (k + 1) / 2 == h + 1 && 2 * ((k - 1) / 2) == k - 1;
      assert Count(prev, sub, now) == HitState((h + 1) as u8, sub, first);
    } else {
      assert (k + 1) / 2 == h && 2 * ((k - 1) / 2) == lastTick;
      assert Count(prev, sub, now) == prev;
    }
  }

  /** Reducing modulo 4 before adding changes nothing modulo 4. */
  lemma ModAdd4(a: nat, g: nat)
    ensures (a % 4 + g) % 4 == (a + g) % 4
  {
  }

  /** The comment on the gap knob aims to keep one continuous Active from
      counting as several hits, but seven Active ticks at 4 Hz (under two
      seconds) complete the count, and beep when they lie within the window. */
  lemma ContinuousMotionBeeps(s0: nat, times: seq<DateTime>)
    requires s0 < TicksPerSecond && |times| >= 7
    requires WithinWindow(times[0], times[6])
    ensures Step(Run(Cleared, Continuous(s0, times)[..6]), Continuous(s0, times)[6]) == Outcome(Cleared, true)
  {
    var ts := Continuous(s0, times);
    var prev := Run(Cleared, ts[..6]);
    var last := ((s0 + 4) % TicksPerSecond) as u8;
    assert prev == HitState(3, last, times[0]) by {
      ContinuousMotionCountsEveryOtherTick(s0, times, 6);
    }
    var sub := ((s0 + 6) % TicksPerSecond) as u8;
    assert ts[6] == Sample(true, sub, times[6]);
    assert ModDelta(sub, last) == 2 by {
      ModAdd4(s0 + 4, 2);
      ModDeltaOfTickGap(last, 2);
    }
    assert Count(prev, sub, times[6]) == HitState(4, sub, times[0]);
  }
}

/** Integer helpers of the wave face: the C integer types it uses, the
    modular subsecond distance, seconds-of-day and the hit-count digit. */
module WaveMath {

  /** C `uint8_t`. */
  newtype u8 = x: int | 0 <= x < 256

  /** Widths of the bitfields of the watch's packed date-time value. */
  type Bits4 = x: nat | x < 16
  type Bits5 = x: nat | x < 32
  type Bits6 = x: nat | x < 64

  /** The watch's local date-time value; only hour, minute and second are
      read by the wave face, the date fields are stored and cleared. */
  datatype DateTime = DateTime(year: Bits6, month: Bits4, day: Bits5,
                               hour: Bits5, minute: Bits6, second: Bits6)

  /** The all-zero date-time left by `memset`. */
  const ZeroTime := DateTime(0, 0, 0, 0, 0, 0)

  // Tuning knobs of the face.
  const RequiredHits: u8 := 4
  const WindowSeconds: int := 4
  const MinHitGapTicks: u8 := 2
  /** The face asks for a 4 Hz tick, so a real subsecond lies in 0..3. */
  const TicksPerSecond: int := 4

  const Int32Max: int := 0x7fff_ffff

  /** C's `a % 4` on `int`: the remainder of division truncated toward
      zero, so it takes the sign of the dividend. */
  function CRem4(a: int): (r: int)
    ensures (a - r) % 4 == 0
    ensures a >= 0 ==> 0 <= r < 4
    ensures a < 0 ==> -4 < r <= 0
  {
    if a >= 0 then a % 4 else -((-a) % 4)
  }

  /** C's conversion of an `int` to `uint8_t`: the value modulo 256. */
  function ToU8(x: int): (r: u8)
    ensures (x - r as int) % 256 == 0
    ensures 0 <= x < 256 ==> r as int == x
  {
    (x % 256) as u8
  }

  /** `(uint8_t)((subsecond + 4 - last) % 4)`: how many ticks the subsecond
      has moved forward since `last`, counted modulo 4. When `last` exceeds
      `subsecond + 4` the C dividend is negative and the cast wraps. */
  function ModDelta(subsecond: u8, last: u8): (d: u8)
    ensures (d as int - (subsecond as int - last as int)) % TicksPerSecond == 0
    ensures last as int <= subsecond as int + 4 ==> d < 4
    ensures subsecond as int + 4 < last as int ==> d == 0 || d >= 253
  {
    ToU8(CRem4(subsecond as int + 4 - last as int))
  }

  /** A date-time whose clock fields hold values a real clock shows. */
  predicate IsClockTime(t: DateTime) {
    t.hour < 24 && t.minute < 60 && t.second < 60
  }

  /** `hour * 3600 + minute * 60 + second`, computed in `int32_t`. */
  function SecondsOfDay(t: DateTime): (r: int)
    ensures 0 <= r <= 31 * 3600 + 63 * 60 + 63 < Int32Max
    ensures IsClockTime(t) ==> r < 24 * 3600
  {
    t.hour * 3600 + t.minute * 60 + t.second
  }

  /** The window check: seconds-of-day of `now` minus that of `first` is at
      most the window. A negative difference passes, so any `now` no later
      in the day than `first` passes; a clock time more than the window
      later in the same day fails. */
  predicate WithinWindow(first: DateTime, now: DateTime): (b: bool)
    ensures SecondsOfDay(now) <= SecondsOfDay(first) ==> b
    ensures SecondsOfDay(now) > SecondsOfDay(first) + WindowSeconds ==> !b
  {
    SecondsOfDay(now) - SecondsOfDay(first) <= WindowSeconds
  }

  /** The character shown for the hit count: its decimal digit, capped at 9. */
  function DisplayDigit(count: u8): (c: char)
    ensures '0' <= c <= '9'
    ensures count <= 9 ==> c as int - '0' as int == count as int
    ensures count > 9 ==> c == '9'
  {
    ('0' as int + (if count <= 9 then count else 9) as int) as char
  }

  /** Neither seconds-of-day value nor their difference overflows `int32_t`. */
  lemma WindowArithmeticFitsInt32(first: DateTime, now: DateTime)
    ensures -Int32Max <= SecondsOfDay(now) - SecondsOfDay(first) <= Int32Max
  {
  }

  /** On clock times, seconds-of-day loses nothing: hour, minute and second
      are recovered from it, so two clock times of one day compare by it. */
  lemma SecondsOfDayRecoversClock(t: DateTime)
    requires IsClockTime(t)
    ensures SecondsOfDay(t) / 3600 == t.hour
    ensures SecondsOfDay(t) % 3600 / 60 == t.minute
    ensures SecondsOfDay(t) % 60 == t.second
  {
    var r := SecondsOfDay(t);
    var low := t.minute * 60 + t.second;
    assert r == t.hour * 3600 + low;
    assert r % 60 == t.second;
  }

  /** Across local midnight seconds-of-day runs backward, and the window check
      passes however long ago the first hit really was. */
  lemma MidnightCrossingPassesWindow(first: DateTime, now: DateTime)
    requires SecondsOfDay(now) < SecondsOfDay(first)
    ensures WithinWindow(first, now)
  {
  }

  /** At 4 Hz the subsecond of a tick `gap` ticks after a tick at `last` is
      `(last + gap) % 4`; the distance the face computes is then the gap
      modulo 4, so a gap of a whole second looks like no gap at all. */
  lemma {:induction false} ModDeltaOfTickGap(last: u8, gap: nat)
    requires last as int < TicksPerSecond
    ensures ModDelta(((last as int + gap) % TicksPerSecond) as u8, last) as int == gap % TicksPerSecond
  {
    var sub := ((last as int + gap) % TicksPerSecond) as u8;
    var d := ModDelta(sub, last);
    assert 0 <= d < 4;
    assert (d as int - (sub as int - last as int)) % 4 == 0;
    assert (sub as int - (last as int + gap)) % 4 == 0;
    assert (d as int - gap) % 4 == 0;
  }

  /** The same subsecond, or the next one, is never a new hit; neither is a
      tick exactly one second (four ticks) after the last hit. */
  lemma NearTicksNeverCount(last: u8, gap: nat)
    requires last as int < TicksPerSecond
    requires gap == 0 || gap == 1 || gap == TicksPerSecond
    ensures ModDelta(((last as int + gap) % TicksPerSecond) as u8, last) < MinHitGapTicks
  {
    ModDeltaOfTickGap(last, gap);
  }
}

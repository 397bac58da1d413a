# Wave gesture counter of the voltage watch face

This project models the wave ("WAVE") watch face of the second-movement
firmware, `watch-faces/sensor/voltage_face.c`. The face runs at 4 Hz. On each
tick it reads the accelerometer's motion line (Active or Still), the tick's
subsecond (0..3) and the local date-time. It counts Active ticks as "hits",
with a minimum modular gap in subseconds between two counted hits. A Still
tick clears the count. When the count reaches `REQUIRED_HITS` (4), the face
beeps if at most `WINDOW_SECONDS` (4) of seconds-of-day have passed since the
first hit. It then clears the count whether or not it beeped.

Three modules, following the one source file:

- `WaveMath` (`wave_math.dfy`): the C integer behaviour the face relies on. It
  covers `uint8_t`, C's truncating `%`, the conversion back to `uint8_t`, the
  modular subsecond distance, seconds-of-day in `int32_t`, the window check and
  the hit-count digit. It also holds lemmas about these helpers.
- `WaveDetect` (`wave_detect.dfy`): the face's context as a value (`HitState`)
  and one tick as a function (`Step`). It states the tick's properties as
  lemmas, and the properties of runs of ticks (`Run`) as inductive lemmas.
- `VoltageFace` (`voltage_face.dfy`): the context as a class whose three fields
  the methods update in place. It has the lifecycle entry points `Setup`,
  `Activate` and `Loop`, with `_reset_hits` and the tick logic as methods. Each
  method is proved against `Step` or against the cleared state.

Inputs and outputs of the hardware become parameters and results:

- The motion line (`HAL_GPIO_A4_read`, inverted) is the `active` argument.
- The clock (`movement_get_local_date_time`) is the `now` argument.
- The buzzer call is the `beep` result.
- The digit drawn by `_update_display` is the `shownDigit` result.

The clock is read at two places in a tick (lines 109 and 124). One `now` per
tick is exact, not an approximation. The read at line 109 happens only when
the count goes from 0 to 1. The count is then 1, below `REQUIRED_HITS`, so the
read at line 124 cannot follow in the same tick.

The subsecond is the event's `uint8_t`, not restricted to 0..3. The model
follows C exactly for any value. The dividend `subsecond + 4 - last` can be
negative, C's `%` then gives a value of at most zero, and the cast wraps to a
large `uint8_t` (`ModDelta`).

The model follows the code throughout. Set against its own comments (lines
13, 58 and 127) and against what a gesture counter might be expected to do,
the code behaves as follows:

- It does not restart the window at the completing hit. It clears to zero
  (`TriggerAlwaysClears`).
- It counts every Active tick that passes the gap check, not transitions into
  Active.
- Its gap is taken modulo 4, so a gap of exactly one second counts as no gap
  (`NearTicksNeverCount`).
- Its window is measured in seconds-of-day, so a window across local midnight
  always passes (`MidnightCompletionBeeps`).
- The comment on the gap knob (line 13) says the gap keeps one continuous
  Active from counting as several hits. Under the code, a continuous Active
  counts every second tick (`ContinuousMotionCountsEveryOtherTick`). Seven
  Active ticks, under two seconds, complete the count and beep
  (`ContinuousMotionBeeps`).
- The comment at line 58 says the digit shows "0".."4". The count is cleared in
  the tick that reaches 4, so only "0".."3" is ever drawn
  (`ShownDigitIsCount`).

The date-time fields are bounded by the widths of the watch's packed date-time
bitfields: second and minute 6 bits, hour 5 bits. `watch.h`, where that type is
declared, is not part of this model. With those widths, seconds-of-day and the
difference at line 137 cannot overflow `int32_t`.

## Model

| member | source | states |
|---|---|---|
| WaveMath.CRem4 | watch-faces/sensor/voltage_face.c:115 | C's `% 4`: the result differs from the dividend by a multiple of 4, lies in 0..3 for a non-negative dividend and in -3..0 for a negative one |
| WaveMath.ToU8 | watch-faces/sensor/voltage_face.c:115 | the `(uint8_t)` cast keeps the value modulo 256 and leaves 0..255 unchanged |
| WaveMath.ModDelta | watch-faces/sensor/voltage_face.c:113-116 | the computed gap is congruent to `subsecond - last` modulo 4; it is below 4 whenever `last <= subsecond + 4`, and otherwise it is 0 or at least 253 (C sign and wrap) |
| WaveMath.SecondsOfDay | watch-faces/sensor/voltage_face.c:126-135 | seconds-of-day is non-negative and fits `int32_t` for every date-time; for a real clock time it is below 86400 |
| WaveMath.DisplayDigit | watch-faces/sensor/voltage_face.c:56-60 | the drawn character is a decimal digit, equal to the count when the count is at most 9 and '9' above that |
| WaveMath.WithinWindow | watch-faces/sensor/voltage_face.c:137 | the definition of the window check at line 137; its contract adds that any `now` no later in the day than the first hit passes and a `now` more than `WINDOW_SECONDS` later in the day fails; MidnightCrossingPassesWindow and BeepExactly state its role in the tick |
| WaveMath.WindowArithmeticFitsInt32 | watch-faces/sensor/voltage_face.c:129-137 | the difference `now_s - first_s` cannot overflow `int32_t` |
| WaveMath.SecondsOfDayRecoversClock | watch-faces/sensor/voltage_face.c:129-135 | on a real clock time, hour, minute and second are recovered from seconds-of-day, so no two clock times of a day collide |
| WaveMath.MidnightCrossingPassesWindow | watch-faces/sensor/voltage_face.c:126-137 | when seconds-of-day of `now` is below that of the first hit (a window across midnight), the window check passes |
| WaveMath.ModDeltaOfTickGap | watch-faces/sensor/voltage_face.c:114-116 | at 4 Hz, a tick `gap` ticks after the last hit yields a computed gap of exactly `gap % 4` |
| WaveMath.NearTicksNeverCount | watch-faces/sensor/voltage_face.c:113-116 | the same subsecond, the next one, and a tick exactly one second later all fall below the minimum gap |
| WaveDetect.Count | watch-faces/sensor/voltage_face.c:106-120 | the definition of the counting part of an Active tick; its contract adds only that the count is then at least 1 and that, on a running count, the window start is kept and the count grows by at most one; FirstHitOpensWindow and GapDecidesHit state the rest |
| WaveDetect.Step | watch-faces/sensor/voltage_face.c:104-147 | the definition of one tick's effect on the three fields and the beep; its contract adds that from any state the count afterwards is below `REQUIRED_HITS` and that a beeping tick is Active and leaves the state cleared; StillTickClears, FirstHitOpensWindow, StepKeepsWellFormed, BeepExactly and TriggerAlwaysClears state its behaviour |
| WaveDetect.Run | watch-faces/sensor/voltage_face.c:100-149 | the definition of repeated `EVENT_TICK` calls, oldest first; its contract adds that after at least one tick the count is below `REQUIRED_HITS` and a run ending in a Still tick ends cleared; RunKeepsWellFormed, CountBoundedByTrailingActive and BeepNeedsUnbrokenMotion state its properties |
| WaveDetect.StillTickClears | watch-faces/sensor/voltage_face.c:144-146 | a Still tick clears count, last subsecond and first-hit time, whatever the state, and does not beep |
| WaveDetect.FirstHitOpensWindow | watch-faces/sensor/voltage_face.c:106-111 | an Active tick on an empty count sets the count to 1, records this subsecond and this time as the window start, and does not beep |
| WaveDetect.GapDecidesHit | watch-faces/sensor/voltage_face.c:112-120 | on a running count, an Active tick adds exactly one hit and moves the last subsecond iff the modular gap is at least `MIN_HIT_GAP_TICKS`; otherwise nothing changes; the 255 guard never limits |
| WaveDetect.StepKeepsWellFormed | watch-faces/sensor/voltage_face.c:100-149 | after every tick the count is below `REQUIRED_HITS`, and an empty count carries a zeroed subsecond and time |
| WaveDetect.BeepExactly | watch-faces/sensor/voltage_face.c:122-143 | a tick beeps iff it is Active, takes the count from 3 to 4 through the gap check, and seconds-of-day(now) minus seconds-of-day(first) is at most `WINDOW_SECONDS` |
| WaveDetect.TriggerAlwaysClears | watch-faces/sensor/voltage_face.c:141-142 | reaching `REQUIRED_HITS` always clears the state to zero, beep or not; the beep is exactly the window check |
| WaveDetect.MidnightCompletionBeeps | watch-faces/sensor/voltage_face.c:126-139 | a count completed with `now` earlier in the day than the first hit always beeps |
| WaveDetect.ShownDigitIsCount | watch-faces/sensor/voltage_face.c:56-60 | while the invariant holds, the drawn digit is the count itself and one of "0".."3" |
| WaveDetect.RunKeepsWellFormed | watch-faces/sensor/voltage_face.c:100-149 | the invariant holds after any sequence of ticks |
| WaveDetect.CountBoundedByTrailingActive | watch-faces/sensor/voltage_face.c:104-147 | from a cleared state, the count never exceeds the number of Active ticks since the last Still tick |
| WaveDetect.BeepNeedsUnbrokenMotion | watch-faces/sensor/voltage_face.c:104-147 | a beep needs the beeping tick and the three ticks before it all to be Active |
| WaveDetect.ContinuousMotionCountsEveryOtherTick | watch-faces/sensor/voltage_face.c:106-120 | during one continuous Active stretch at 4 Hz, after its first k ticks (k up to 6) the count is (k + 1) / 2, the last hit is the stretch's tick 2 * ((k - 1) / 2) and the window start is the stretch's first tick |
| WaveDetect.ContinuousMotionBeeps | watch-faces/sensor/voltage_face.c:106-143 | seven continuous Active ticks whose first and last lie within the window beep and leave the state cleared |
| VoltageFace.WaveDetector.constructor | watch-faces/sensor/voltage_face.c:71-74 | a new context is zero-filled |
| VoltageFace.WaveDetector.ResetHits | watch-faces/sensor/voltage_face.c:29-33 | all three fields are cleared |
| VoltageFace.WaveDetector.Activate | watch-faces/sensor/voltage_face.c:77-88 | activation clears the hit state and draws the digit '0' |
| VoltageFace.WaveDetector.Tick | watch-faces/sensor/voltage_face.c:100-149 | the in-place updates of the fields and the beep are exactly those of `Step`; the invariant is kept |
| VoltageFace.WaveDetector.Loop | watch-faces/sensor/voltage_face.c:90-163 | always returns true; `EVENT_ACTIVATE` clears and draws '0'; `EVENT_TICK` draws the digit of the count before the tick, then acts as `Step`; `EVENT_LOW_ENERGY_UPDATE` and other events leave the state alone |
| VoltageFace.Setup | watch-faces/sensor/voltage_face.c:68-75 | with no context, allocates a fresh zeroed one; with a context, returns it untouched |

## Left out

- The LCD output of `_update_display` other than the count digit is not modelled: the title, the Active/Still text, the signal indicator and the classic-LCD seconds clearing.
- The motion line is read twice per tick, once in `_update_display` (line 48) and once at line 104. Both reads are modelled as one `active` value per call. The drawn Active/Still text is not modelled, so nothing depends on the two reads agreeing.
- `_beep` is not modelled beyond the `beep` result: the buzzer enable, the note and its duration are foreign calls.
- `movement_request_tick_frequency`, the sleep-animation start and stop, and `movement_default_loop_handler` are foreign calls. `Loop` models only what they leave in the face's own state, which is nothing.
- `voltage_face_resign` does nothing and has no model.
- `malloc` failure is not modelled: `Setup` always yields a context.
- `voltage_face.h` and `hello_face.h` only declare functions and the face's function table.
- The face has no accelerometer filtering, noise gate, cycle detection with a period band, rolling window restart, LED feedback or daily counter, and the model has none either.

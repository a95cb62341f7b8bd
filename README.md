# Adhan clock: next-prayer lookup and once-per-prayer trigger

This project models the decision-making core of the Adhan clock (`Adhan.py`),
a kiosk program that shows the day's five prayer times and plays the adhan
when a prayer time arrives. The model covers three parts of it.

- **The next-prayer lookup** (`get_next_prayer_and_remaining`). It scans the
  fixed order Fajr, Dhuhr, Asr, Maghrib, Isha. It returns the first prayer whose
  time is strictly after `now`, with that time and the whole minutes left,
  split into hours and minutes. It returns `None` when every prayer has passed.
  In the model this is `PrayerTimes.NextPrayerAndRemaining`, a pure function.
- **The trigger state of the main loop** (`current_date`, `prayer_datetimes`,
  `last_adhan_prayer`, `status_text`). A new local date brings a new schedule
  and forgets the last adhan. The next prayer fires when it reports 0 hours and
  0 minutes left and is not the last prayer fired. The `a` key plays Fajr
  without touching that state. `AdhanTrigger.Step` specifies one frame and
  `AdhanTrigger.Run` specifies a sequence of frames. The class
  `AdhanTrigger.AdhanController` keeps the loop's variables as fields.
  `Tick` updates them in place and is proved equal to `Step`. `RunFrames` is
  the frame loop and is proved equal to `Run`.
- **The audio-cue table** (`ADHAN_FILES`, `play_adhan_for_prayer`).
  `AdhanCue.CueFor` gives Fajr its own file and the other four prayers a shared
  file. For any other name it gives nothing, and nothing is played.

Inputs instead of library calls:

- Timestamps are whole seconds on one time line.
- The current time `now` and the local calendar date `today` (a day number) are
  parameters of each frame.
- The schedule that `fetch_prayer_times_for_today` would return is also a
  frame input (`fetched`). It is only used when the date has changed, which is
  the only time the source fetches.

The central property is `AtMostOncePerPrayerPerDay`. It says that within one
date no prayer fires twice, from any starting state, provided the clock does not
go backwards between frames. `RunSplit` cuts a run into consecutive pieces, so
`DayWithinWholeRun` applies the property to the frames of any one day inside the
program's whole run from startup. Without a forward-moving clock the property
fails (see "## Findings").

## Model

| member | source | states |
|---|---|---|
| `PrayerTimes.FindNextFrom` | Adhan.py:85-93 | Scanning from position `i`: the result is None exactly when no prayer at or after `i` is strictly after `now`. Otherwise it names the first such prayer, carries that prayer's own time (strictly after `now`), and hours*60+minutes equals the whole minutes left, with hours >= 0 and 0 <= minutes < 60. |
| `PrayerTimes.NextPrayerAndRemaining` | Adhan.py:83-93 | A returned prayer is one of the five, with its own schedule time, strictly after `now`. hours*60+minutes equals the whole minutes left, with hours >= 0 and 0 <= minutes < 60. That it is the first prayer ahead, and None exactly when none is ahead, is stated by the next two rows. |
| `PrayerTimes.NextPrayerIsFirstAhead` | Adhan.py:83-93 | The lookup returns None exactly when every prayer's time is <= `now` (a time equal to `now` has passed). Otherwise it returns the first prayer in the fixed order that is strictly ahead. Every earlier prayer has passed, and the returned time is that prayer's entry in the schedule. |
| `PrayerTimes.FirstAheadIsNext` | Adhan.py:85-92 | Converse: a prayer that is ahead of `now`, with every earlier prayer passed, is the one the lookup returns. |
| `PrayerTimes.SplitRemaining` | Adhan.py:88-91 | For a positive difference in seconds: hours >= 0, 0 <= minutes < 60, and hours*60+minutes is the floor of the difference over 60. |
| `PrayerTimes.NothingLeftIffUnderAMinute` | Adhan.py:89-91 | The split is (0, 0) exactly when less than 60 seconds remain. |
| `PrayerTimes.ZeroRemainingIsUnderAMinute` | Adhan.py:87-91 | The lookup reports 0 hours and 0 minutes exactly when the next prayer is between 0 and 60 seconds ahead, both ends excluded. |
| `PrayerTimes.NextIsEarliestAhead` | Adhan.py:85-92 | On a schedule whose times do not decrease in prayer order, the reported prayer is no later than any prayer still ahead. |
| `PrayerTimes.NextNeverMovesBack` | Adhan.py:85-92 | For the same schedule, if a prayer is ahead at a later time, a prayer is also ahead at an earlier time, and its position in the order is no greater. A prayer that has stopped being next never becomes next again that day. |
| `PrayerTimes.WorkedDay` | Adhan.py:83-93 | Concrete day: at 12:14:30 the next prayer is Dhuhr (12:15) with 0h 0m left. At exactly 12:15:00 Dhuhr has passed and Asr is next with 3h 30m left. At Isha's time nothing is left. |
| `AdhanCue.CueFor` | Adhan.py:40-46 | A file is returned exactly for the five prayer names. Fajr gets `fajr_adhan_final.mp3` and the other four get `normal_adhan_final.mp3`. Any other name gets None (nothing played, lines 100-103). |
| `AdhanTrigger.Rollover` | Adhan.py:311-317 | A new date replaces the stored date and the schedule, resets the last adhan to None and leaves the status "Running". The same date leaves the state unchanged. |
| `AdhanTrigger.Firing` | Adhan.py:324-328 | A frame's firing decision is a prayer exactly when the lookup returns a prayer less than 60 seconds ahead that is not the last one fired. The prayer fired is the one the lookup returned. |
| `AdhanTrigger.Step` | Adhan.py:299-333 | One frame keeps a complete schedule, ends with the stored date equal to today, and reports the manual key press. |
| `AdhanTrigger.Run` | Adhan.py:296-333 | A sequence of frames keeps a complete schedule, ends on the last frame's date, and leaves the state unchanged when there are no frames. |
| `AdhanTrigger.FiresExactlyWhen` | Adhan.py:324-333 | After the day check, a frame fires `n` exactly when: `n` is the next prayer, it is less than a minute ahead, and it is not the last prayer fired. A firing sets the last adhan to `n` and the status to "Playing Adhan (n)". A frame that fires nothing leaves the state as the day check left it. |
| `AdhanTrigger.FiredPrayerIsDue` | Adhan.py:324-333 | A fired name is one of the five prayers, is less than a minute ahead, is recorded as the last adhan and is shown in the status. It also has an audio file in the cue table. |
| `AdhanTrigger.NoRepeatOfLastAdhan` | Adhan.py:328 | On the same date a frame never fires the prayer recorded as the last adhan. |
| `AdhanTrigger.NewDayFiresAgain` | Adhan.py:311-333 | Yesterday's last prayer fires again on a new date once the new schedule reports it 0h 0m away. The new state is today's date, the new schedule, that prayer recorded, and its status line. |
| `AdhanTrigger.ManualKeyOnlyPlaysFajr` | Adhan.py:303-306 | The key press adds "Fajr" in front of what is played. The state and the automatic firing are identical to the same frame without the key. |
| `AdhanTrigger.StepKeepsSettled` | Adhan.py:324-333 | On the same date with a forward clock, a frame keeps the schedule and date. Every prayer before the last fired one stays passed. A new firing is a prayer other than the last fired one, and it is still ahead. |
| `AdhanTrigger.PendingLastBlocksOthers` | Adhan.py:324-328 | While the last fired prayer is still ahead on the same date, nothing fires. |
| `AdhanTrigger.FiringsAreFresh` | Adhan.py:296-333 | On one date with a forward clock, the automatic firings of a run are distinct. None of them is the prayer fired before the run, and each was still ahead when the run began. |
| `AdhanTrigger.FiringSettles` | Adhan.py:324-333 | A frame that fires records the fired prayer, which is one of the five, and every prayer before it has passed at that frame's time. |
| `AdhanTrigger.AtMostOncePerPrayerPerDay` | Adhan.py:294-333 | From any state, a run of frames all on one date with a forward clock fires no prayer twice, and only the five prayers fire. |
| `AdhanTrigger.RunSplit` | Adhan.py:296-338 | Running frames `a` then `b` equals running `a + b`: the final state chains, and what is played and what fires concatenate. |
| `AdhanTrigger.DayWithinWholeRun` | Adhan.py:285-338 | In the run from startup over `before + day + after`, the firings split into the three parts, and the frames of any one day with a forward clock fire no prayer twice. |
| `AdhanTrigger.ClockSetBackRefires` | Adhan.py:324-333 | As written, frames on one date at 12:14:30, 15:44:30 and then 12:14:40 (clock set back) fire Dhuhr, Asr, Dhuhr: a prayer fires twice. |
| `AdhanTrigger.FiresNext` | Adhan.py:324-333 | On the same date, the prayer at position `k` fires when it is under a minute ahead, every earlier prayer has passed, and it is not the last fired. The new state records it and shows its status. |
| `AdhanTrigger.NoFurtherFiring` | Adhan.py:328-332 | While every frame on the date reports the last fired prayer as next, nothing fires and the state does not change, for any number of frames. |
| `AdhanTrigger.DueFramesFireOnce` | Adhan.py:324-333 | Any nonempty run of frames on one date that all report prayer `n` as due (0h 0m) fires `n` exactly once, in the first frame, unless `n` was the last prayer fired. |
| `AdhanTrigger.AdhanController.constructor` | Adhan.py:285-294 | Startup stores today's date and schedule, with no adhan played and status "Running". |
| `AdhanTrigger.AdhanController.Tick` | Adhan.py:299-333 | One frame updates the fields in place to exactly `Step`'s new state. It returns the names passed to playback, in order: the manual "Fajr" first, then the fired prayer. |
| `AdhanTrigger.AdhanController.RunFrames` | Adhan.py:296-333 | The frame loop leaves the fields equal to `Run`'s final state. It returns everything passed to playback across the frames, in order. |

## Left out

- Fetching the schedule (`fetch_prayer_times_for_today`: the HTTP request, JSON access, time parsing and time-zone localisation). The fetched schedule is an input that always holds all five prayers, as the fetch builds it.
- A failed fetch. The source has no handler, so an exception ends the program. The model has no failure path for the fetch.
- Time zones, daylight saving, and reading the clock and the date. `now` and `today` are inputs. The source compares the system's local `date.today()` with the stored date, not the date in the configured zone. The model keeps `today` independent of `now` to allow that mismatch.
- Sub-second precision. Timestamps and `total_seconds()` are whole seconds here. For a positive difference, floor division of a float by 60 gives the same whole minutes as integer division.
- Audio playback (`pygame.mixer` loading, volume, play and its error handler) and `audio_test.py`. The model returns which names are passed to playback. `CueFor` gives the file that would be loaded.
- All drawing (`draw_text`, `draw_screen`, `format_time_12h`), fonts, images, colours and screen size. `status_text` is kept as state, but how it is drawn is left out.
- Event polling beyond the `a` key, the quit event, the 30-frames-per-second pacing, and the `last_minute` bookkeeping, which has no effect.
- Several key presses in one frame. `manualKey` models at most one press per frame.
- `PrayerTimes.NextPrayerAndRemaining`: if a name is missing from the schedule, the source raises `KeyError`. The model instead requires the schedule to be complete, which every fetched schedule is.
- `AdhanTrigger.AtMostOncePerPrayerPerDay`: stated only for a clock that does not go backwards within the day. With a clock set back, the source can fire a prayer twice (`AdhanTrigger.ClockSetBackRefires`).

## Findings

| source | as written | input that shows it | evidently intended | confidence | as-written member | corrected member |
|---|---|---|---|---|---|---|
| Adhan.py:324-333 | Only the last prayer fired is remembered, so an earlier prayer can fire again on the same date if the wall clock is set back (for example by a time sync). | Schedule with Dhuhr 12:15 and Asr 15:45, frames on one date at 12:14:30, 15:44:30, 12:14:40: Dhuhr, Asr and Dhuhr fire. | Each prayer fires at most once per day. | medium (not executed) | `AdhanTrigger.ClockSetBackRefires` | `AdhanTrigger.AtMostOncePerPrayerPerDay` (under a clock that does not go backwards within the day) |

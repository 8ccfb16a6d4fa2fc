# RETRO.WAV player: playback state in Dafny

The player is one React page, `client/src/pages/home.tsx`. Apart from layout,
its only logic is a small playback state. The state holds four things: whether
the player is playing, the position `currentTime` in whole seconds, the song
length `duration` (a mock 180 seconds), and `currentSongIndex`, which picks one
of three songs. Four controls change it:

- the play/pause button (`togglePlay`);
- the next and previous buttons (`nextSong`, `prevSong`), which step the index
  around the song list and rewind to 0:00;
- a one-second interval that runs only while playing. It advances the position
  and wraps it to 0:00 once it has reached the duration;
- the progress slider, which writes the position directly.

The page shows the position and the duration through `formatTime`, which
renders them as `m:ss`.

This project replaces React's hooks with pure functions from one state to the
next:

- `js_math.dfy` (module `JsMath`): JavaScript's truncating `%` next to Dafny's
  Euclidean one, plus the division facts the proofs use.
- `time_format.dfy` (module `TimeFormat`): `formatTime` and the decimal
  printing it relies on. It also defines `ParseTime`, an inverse used to state
  that every label reads back to its time and that no two times share a label.
- `playback.dfy` (module `Playback`): the `Player` state, its transitions and
  runs of events. It also defines the progress labels built from the state.

The page does not force playback on next/prev, does not clamp the seek or
the volume, does not auto-advance at the end of a song, has no playlist
overlay and does not handle play failures. In the code, next/prev leave
play/pause alone, the slider value is stored unclamped, and the end of a song
only wraps the position back to 0:00 on the same song.

## Model

| member | source | states |
|---|---|---|
| Playback.Initial | client/src/pages/home.tsx:6-18 | the page opens paused, at position 0, on the first song, with a 180-second duration, and that state is valid |
| Playback.NextIndex | client/src/pages/home.tsx:42 | the next index is always in [0, n); from an in-range index it is the following one, and the last index wraps to 0 |
| Playback.PrevIndex | client/src/pages/home.tsx:47 | the previous index is always in [0, n); from an in-range index it is the preceding one, and 0 wraps to n - 1 |
| Playback.PrevNextInverse | client/src/pages/home.tsx:41-49 | previous then next, and next then previous, both return to the starting index |
| Playback.NextTimesAdvances | client/src/pages/home.tsx:42 | pressing next k times moves the index k places modulo the song count |
| Playback.NextTimesFullCycle | client/src/pages/home.tsx:42 | pressing next once per song returns to the starting index |
| Playback.TogglePlay | client/src/pages/home.tsx:20-23 | play/pause flips, and the position, duration and song stay the same |
| Playback.TogglePlayTwice | client/src/pages/home.tsx:20-23 | pressing play/pause twice is the identity |
| Playback.NextSong | client/src/pages/home.tsx:41-44 | the following song is selected, with the last wrapping to the first; the position rewinds to 0; play/pause and duration are unchanged; the result is valid from any state |
| Playback.PrevSong | client/src/pages/home.tsx:46-49 | the preceding song is selected, with the first wrapping to the last; the position rewinds to 0; play/pause and duration are unchanged; the result is valid from any state |
| Playback.PrevNextSongInverse | client/src/pages/home.tsx:41-49 | with the index in range, prev then next, and next then prev, both give the same state rewound to 0 |
| Playback.NextSongTimesIndex | client/src/pages/home.tsx:41-44 | k presses of next change only the index (advanced k steps) and rewind the position |
| Playback.NextSongFullCycle | client/src/pages/home.tsx:41-44 | three presses of next from any in-range index return to the same state, rewound to 0 |
| Playback.Tick | client/src/pages/home.tsx:25-33 | a paused player is untouched; a playing one moves to t + 1 while short of the duration and to 0 at or past it; only the position changes; the result never exceeds the duration, so validity is preserved |
| Playback.TicksAdvance | client/src/pages/home.tsx:27-30 | while playing, k ticks move the position by k modulo duration + 1 |
| Playback.TicksFullCycle | client/src/pages/home.tsx:29 | duration + 1 ticks return a playing song to the same position, so the full duration is shown for one tick before the wrap to 0 |
| Playback.Seek | client/src/pages/home.tsx:106-110 | the position becomes the slider value and nothing else changes; the state stays valid exactly when the value is within the slider's max, the duration |
| Playback.Run | client/src/pages/home.tsx:20-112 | no sequence of button, slider and timer events changes the duration; from a valid state, any run whose slider values stay within range ends in a valid state |
| Playback.Display | client/src/pages/home.tsx:102-105 | the two progress labels read back as the current position and the duration |
| Playback.InitialDisplay | client/src/pages/home.tsx:103-104 | the page opens showing "0:00" and "3:00" |
| TimeFormat.Decimal | client/src/pages/home.tsx:38 | interpolating a natural number gives a canonical numeral with no leading zero that denotes it |
| TimeFormat.DecimalOfValue | client/src/pages/home.tsx:38 | every canonical numeral is what interpolation prints for its value, so printing is a bijection onto canonical numerals |
| TimeFormat.FormatTime | client/src/pages/home.tsx:35-39 | the label is a minutes numeral, ':', and exactly two second digits; minutes * 60 + seconds is t with seconds < 60; the seconds field starts with '0' exactly when t % 60 < 10 |
| TimeFormat.SecondsField | client/src/pages/home.tsx:37-38 | the padded seconds field is two digits denoting the seconds, with a leading '0' exactly for single-digit seconds |
| TimeFormat.ParseFormat | client/src/pages/home.tsx:35-39 | reading a label back gives the time it was made from |
| TimeFormat.FormatParse | client/src/pages/home.tsx:35-39 | any well-formed m:ss string that reads as t is exactly the label for t |
| TimeFormat.FormatInjective | client/src/pages/home.tsx:35-39 | distinct times get distinct labels |
| JsMath.Rem | client/src/pages/home.tsx:42 | JavaScript's remainder is smaller in magnitude than the divisor, takes the sign of the dividend, and differs from the dividend by a multiple of the divisor, which fixes it as the truncated remainder |
| JsMath.RemOfNatural | client/src/pages/home.tsx:42 | with a non-negative dividend, JavaScript's remainder equals the Euclidean one and lies in [0, b) |
| JsMath.RemOfNegative | client/src/pages/home.tsx:47 | with a negative dividend, JavaScript's remainder is the Euclidean one minus b (or 0), which is why prevSong adds the length before taking the remainder |

## Left out

- Rendering: JSX, CSS classes, icons and layout (`home.tsx:51-178`) are presentation only. The one exception kept is the pair of progress labels.
- The song list's titles, artists and colour classes. Only the list's length, 3, affects the state. `Valid` keeps the index in range, which is what the `songs[currentSongIndex]` lookups in the markup need.
- `volume` is never updated. It is only displayed as a bar width.
- `audioRef` is declared but never used, so there is no audio element to model.
- The `Slider` widget is a foreign component. The seek is a plain assignment of the value it reports. Its `max={duration}` is kept as the range condition in `Seek` and `Run`.
- Timer scheduling is not modelled: `setInterval`/`clearInterval` and when React runs and cleans up effects. The timer is a discrete `Tick` event. Ticks happen only while playing, so a `Tick` on a paused player is the identity.
- React batching and stale closures are not modelled. `togglePlay` reads `isPlaying` from the render it was created in. The model assumes every event sees the latest state, which is what happens when each click is handled in its own render.
- Floating-point time is not modelled. Times are naturals, because the slider step is 1 and the timer adds 1. On naturals the floor of `time / 60` is integer division, which `t / 60` computes, and the floor of `time % 60` is the identity.
- TimeFormat.Decimal: always prints plain decimal digits. JavaScript switches to exponent notation from 1e21 and loses integer precision above 2^53, and no reachable time comes near either limit.

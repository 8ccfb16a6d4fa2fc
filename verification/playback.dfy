/** The playback state of the player page: whether it is playing, the position
    and length of the current song in whole seconds, and which of the three
    songs is selected, with the transitions the page's buttons, slider and
    one-second timer perform on it. React's hooks are replaced by pure
    functions from the old state to the new one. */
module Playback {
  import JsMath
  import TimeFormat

  /** The page's song list has three entries; only its length matters here. */
  const SongCount: nat := 3

  /** The mock duration every song is given, three minutes. */
  const MockDuration: nat := 180

  datatype Player = Player(isPlaying: bool, currentTime: nat, duration: nat, currentSongIndex: nat)

  /** The states the page can be in: a song of the list is selected and the
      position lies within the song. */
  predicate Valid(s: Player) {
    s.currentSongIndex < SongCount && s.currentTime <= s.duration
  }

  /** The state the page starts in: paused at 0:00 on the first song. */
  function Initial(): (s: Player)
    ensures Valid(s)
    ensures !s.isPlaying && s.currentTime == 0 && s.currentSongIndex == 0
    ensures s.duration == MockDuration
  {
    Player(false, 0, MockDuration, 0)
  }

  // ---------------------------------------------------------------------------
  // Index arithmetic of nextSong and prevSong, over a list of n >= 1 songs

  /** `(prev + 1) % songs.length`: the following song, the first after the last. */
  function NextIndex(i: nat, n: nat): (r: nat)
    requires n >= 1
    ensures r < n
    ensures i < n ==> r == (if i == n - 1 then 0 else i + 1)
  {
    JsMath.RemOfNatural(i + 1, n);
    JsMath.Rem(i + 1, n)
  }

  /** `(prev - 1 + songs.length) % songs.length`: the preceding song, the last
      before the first. Adding the length keeps the dividend non-negative, so
      JavaScript's sign-of-dividend remainder never comes out negative. */
  function PrevIndex(i: nat, n: nat): (r: nat)
    requires n >= 1
    ensures r < n
    ensures i < n ==> r == (if i == 0 then n - 1 else i - 1)
  {
    StepBack(i, n);
    JsMath.Rem(i - 1 + n, n)
  }

  lemma StepBack(i: nat, n: nat)
    requires n >= 1
    ensures JsMath.Rem(i - 1 + n, n) == (i - 1 + n) % n
    ensures 0 < i < n ==> (i - 1 + n) % n == i - 1
  {
    JsMath.RemOfNatural(i - 1 + n, n);
    if 0 < i < n {
      JsMath.DivModUnique(i - 1 + n, n, 1, i - 1);
    }
  }

  /** Stepping back then forward, or forward then back, returns to the same song. */
  lemma PrevNextInverse(i: nat, n: nat)
    requires n >= 1 && i < n
    ensures NextIndex(PrevIndex(i, n), n) == i
    ensures PrevIndex(NextIndex(i, n), n) == i
  {
  }

  /** The index after pressing next k times. */
  function NextTimes(i: nat, n: nat, k: nat): (r: nat)
    requires n >= 1
  {
    if k == 0 then i else NextIndex(NextTimes(i, n, k - 1), n)
  }

  /** Pressing next k times moves k places around the cycle of n songs. */
  lemma {:induction false} NextTimesAdvances(i: nat, n: nat, k: nat)
    requires n >= 1 && i < n
    ensures NextTimes(i, n, k) == (i + k) % n
  {
    if k == 0 {
      JsMath.DivModUnique(i, n, 0, i);
    } else {
      NextTimesAdvances(i, n, k - 1);
      var before := NextTimes(i, n, k - 1);
      assert before == (i + k - 1) % n;
      JsMath.ModSucc(i + k - 1, n);
      assert NextTimes(i, n, k) == NextIndex(before, n);
    }
  }

  /** Pressing next once per song comes back to the starting song. */
  lemma NextTimesFullCycle(i: nat, n: nat)
    requires n >= 1 && i < n
    ensures NextTimes(i, n, n) == i
  {
    NextTimesAdvances(i, n, n);
    JsMath.DivModUnique(i + n, n, 1, i);
  }

  // ---------------------------------------------------------------------------
  // Transitions

  /** togglePlay: flips play/pause and nothing else. */
  function TogglePlay(s: Player): (r: Player)
    ensures r.isPlaying != s.isPlaying
    ensures r.currentTime == s.currentTime && r.duration == s.duration
    ensures r.currentSongIndex == s.currentSongIndex
  {
    s.(isPlaying := !s.isPlaying)
  }

  /** Pressing play/pause twice leaves the state as it was. */
  lemma TogglePlayTwice(s: Player)
    ensures TogglePlay(TogglePlay(s)) == s
  {
  }

  /** nextSong: the following song, rewound to 0:00; play/pause and the duration
      are untouched (skipping does not start a paused player). */
  function NextSong(s: Player): (r: Player)
    ensures r.currentSongIndex < SongCount
    ensures s.currentSongIndex < SongCount ==>
      r.currentSongIndex == (if s.currentSongIndex == SongCount - 1 then 0 else s.currentSongIndex + 1)
    ensures r.currentTime == 0
    ensures r.isPlaying == s.isPlaying && r.duration == s.duration
    ensures Valid(r)
  {
    s.(currentSongIndex := NextIndex(s.currentSongIndex, SongCount), currentTime := 0)
  }

  /** prevSong: the preceding song, rewound to 0:00; nothing else changes. */
  function PrevSong(s: Player): (r: Player)
    ensures r.currentSongIndex < SongCount
    ensures s.currentSongIndex < SongCount ==>
      r.currentSongIndex == (if s.currentSongIndex == 0 then SongCount - 1 else s.currentSongIndex - 1)
    ensures r.currentTime == 0
    ensures r.isPlaying == s.isPlaying && r.duration == s.duration
    ensures Valid(r)
  {
    s.(currentSongIndex := PrevIndex(s.currentSongIndex, SongCount), currentTime := 0)
  }

  /** Previous then next, or next then previous, returns to the same song at
      0:00 with everything else as it was. */
  lemma PrevNextSongInverse(s: Player)
    requires s.currentSongIndex < SongCount
    ensures NextSong(PrevSong(s)) == s.(currentTime := 0)
    ensures PrevSong(NextSong(s)) == s.(currentTime := 0)
  {
    PrevNextInverse(s.currentSongIndex, SongCount);
  }

  /** The state after pressing next k times. */
  function NextSongTimes(s: Player, k: nat): Player {
    if k == 0 then s else NextSong(NextSongTimes(s, k - 1))
  }

  /** Pressing next k times is k steps around the song cycle, rewound. */
  lemma {:induction false} NextSongTimesIndex(s: Player, k: nat)
    requires k >= 1
    ensures NextSongTimes(s, k) == s.(currentSongIndex := NextTimes(s.currentSongIndex, SongCount, k), currentTime := 0)
  {
    if k > 1 {
      NextSongTimesIndex(s, k - 1);
    }
  }

  /** Pressing next once per song returns to the starting song, at 0:00. */
  lemma NextSongFullCycle(s: Player)
    requires s.currentSongIndex < SongCount
    ensures NextSongTimes(s, SongCount) == s.(currentTime := 0)
  {
    NextSongTimesIndex(s, SongCount);
    NextTimesFullCycle(s.currentSongIndex, SongCount);
  }

  /** One firing of the one-second interval. The interval exists only while the
      player is playing, so a paused player is left alone. A playing one moves
      one second on while short of the duration; at or past it, back to 0:00. */
  function Tick(s: Player): (r: Player)
    ensures !s.isPlaying ==> r == s
    ensures r.isPlaying == s.isPlaying && r.duration == s.duration
    ensures r.currentSongIndex == s.currentSongIndex
    ensures s.isPlaying ==> r.currentTime <= s.duration
    ensures s.isPlaying ==> (r.currentTime == 0 <==> s.currentTime >= s.duration)
    ensures s.isPlaying && r.currentTime != 0 ==> r.currentTime == s.currentTime + 1
    ensures Valid(s) ==> Valid(r)
  {
    if !s.isPlaying then s
    else s.(currentTime := if s.currentTime < s.duration then s.currentTime + 1 else 0)
  }

  /** The state after k firings of the interval. */
  function Ticks(s: Player, k: nat): Player {
    if k == 0 then s else Tick(Ticks(s, k - 1))
  }

  /** While playing, the position runs around the cycle 0, 1, ..., duration, 0:
      k ticks add k modulo duration + 1. */
  lemma {:induction false} TicksAdvance(s: Player, k: nat)
    requires s.isPlaying && s.currentTime <= s.duration
    ensures Ticks(s, k) == s.(currentTime := (s.currentTime + k) % (s.duration + 1))
  {
    if k == 0 {
      JsMath.DivModUnique(s.currentTime, s.duration + 1, 0, s.currentTime);
    } else {
      TicksAdvance(s, k - 1);
      JsMath.ModSucc(s.currentTime + k - 1, s.duration + 1);
    }
  }

  /** duration + 1 ticks bring a playing song back to the same position: the
      position shows the full duration for one second before wrapping to 0:00. */
  lemma TicksFullCycle(s: Player)
    requires s.isPlaying && s.currentTime <= s.duration
    ensures Ticks(s, s.duration + 1) == s
  {
    TicksAdvance(s, s.duration + 1);
    JsMath.DivModUnique(s.currentTime + s.duration + 1, s.duration + 1, 1, s.currentTime);
  }

  /** The slider's onValueChange: the position becomes the slider value as is.
      There is no clamping; the slider's max of `duration` is what keeps the
      value in range, so only an in-range value keeps the state valid. */
  function Seek(s: Player, v: nat): (r: Player)
    ensures r.currentTime == v
    ensures r.isPlaying == s.isPlaying && r.duration == s.duration
    ensures r.currentSongIndex == s.currentSongIndex
    ensures s.currentSongIndex < SongCount ==> (Valid(r) <==> v <= s.duration)
  {
    s.(currentTime := v)
  }

  // ---------------------------------------------------------------------------
  // Runs of events

  /** What can happen to the page: a button, the slider, or the timer. */
  datatype Event = PlayPressed | NextPressed | PrevPressed | TimerFired | SliderMoved(value: nat)

  function Apply(s: Player, e: Event): Player {
    match e
    case PlayPressed => TogglePlay(s)
    case NextPressed => NextSong(s)
    case PrevPressed => PrevSong(s)
    case TimerFired => Tick(s)
    case SliderMoved(v) => Seek(s, v)
  }

  /** The slider never offers a value beyond its max, the duration. */
  predicate SliderInRange(es: seq<Event>, duration: nat) {
    forall i :: 0 <= i < |es| && es[i].SliderMoved? ==> es[i].value <= duration
  }

  /** The state after a sequence of events, first to last. No event changes
      the duration, and if the slider stays within its range every state on
      the way is valid. */
  function Run(s: Player, es: seq<Event>): (r: Player)
    ensures r.duration == s.duration
    ensures Valid(s) && SliderInRange(es, s.duration) ==> Valid(r)
    decreases |es|
  {
    if |es| == 0 then s
    else
      var before := Run(s, es[..|es| - 1]);
      assert SliderInRange(es, s.duration) ==> SliderInRange(es[..|es| - 1], s.duration);
      Apply(before, es[|es| - 1])
  }

  /** The progress labels under the title: the position and the duration,
      both through formatTime. */
  function Display(s: Player): (r: (string, string))
    ensures TimeFormat.ParseTime(r.0) == TimeFormat.Some(s.currentTime)
    ensures TimeFormat.ParseTime(r.1) == TimeFormat.Some(s.duration)
  {
    TimeFormat.ParseFormat(s.currentTime);
    TimeFormat.ParseFormat(s.duration);
    (TimeFormat.FormatTime(s.currentTime), TimeFormat.FormatTime(s.duration))
  }

  /** The page opens showing "0:00" of "3:00". */
  lemma InitialDisplay()
    ensures Display(Initial()) == ("0:00", "3:00")
  {
    assert TimeFormat.Decimal(0) == "0";
    assert TimeFormat.Decimal(3) == "3";
    assert 180 / 60 == 3 && 180 % 60 == 0;
    assert TimeFormat.FormatTime(0) == "0" + ":" + "0" + "0";
    assert TimeFormat.FormatTime(180) == "3" + ":" + "0" + "0";
    assert "0" + ":" + "0" + "0" == "0:00";
    assert "3" + ":" + "0" + "0" == "3:00";
    assert Display(Initial()) == (TimeFormat.FormatTime(0), TimeFormat.FormatTime(180));
  }
}

/** The progress timer of `MusicPlayer`: every half second, while the player
    means to play and the engine holds a clip, it reads the position and the
    duration in whole seconds and decides whether the track has ended. Its two
    private fields, the last position seen and the number of polls that saw the
    same position, are the `Monitor`. */
module Progress {
  import JavaLang

  datatype Monitor = Monitor(lastPosition: int, stuckCount: nat)

  /** The timer's fields when it is created. */
  function Fresh(): Monitor {
    Monitor(-1, 0)
  }

  /** What one poll leaves behind, and whether it called `handleSongEnd`. */
  datatype Tick = Tick(monitor: Monitor, songEnded: bool)

  /** One call of the timer's `actionPerformed`. `active` is
      `isPlaying && audioPlayer.isLoaded()`; `position` and `duration` are the
      whole-second readings of the engine. The two subtractions are Java `int`
      arithmetic. */
  function Poll(m: Monitor, active: bool, position: JavaLang.Int32, duration: JavaLang.Int32): (r: Tick)
    ensures !active ==> r == Tick(m, false)
    ensures active && position != m.lastPosition ==> r.monitor == Monitor(position, 0)
    ensures active && position == m.lastPosition ==> r.monitor == Monitor(position, m.stuckCount + 1)
    ensures active && 0 <= duration ==>
              (r.songEnded <==> (duration > 0 && position >= duration - 1)
                                || (r.monitor.stuckCount > 4 && position >= duration - 2))
  {
    if !active then Tick(m, false)
    else
      var next := if position != m.lastPosition then Monitor(position, 0) else m.(stuckCount := m.stuckCount + 1);
      var ended :=
        || (position >= JavaLang.NarrowToInt(duration - 1) && duration > 0)
        || (next.stuckCount > 4 && position >= JavaLang.NarrowToInt(duration - 2));
      Tick(next, ended)
  }

  /** The end of a track is only ever signalled within two seconds of its
      duration (for the durations a clip can have, which are not negative). */
  lemma EndIsNearTheEnd(m: Monitor, active: bool, position: JavaLang.Int32, duration: JavaLang.Int32)
    requires 0 <= duration
    ensures Poll(m, active, position, duration).songEnded ==> active && position >= duration - 2
  {
  }

  /** A poll in the last second of a non-empty track always signals the end. */
  lemma LastSecondEnds(m: Monitor, position: JavaLang.Int32, duration: JavaLang.Int32)
    requires duration > 0 && position >= duration - 1
    ensures Poll(m, true, position, duration).songEnded
  {
  }

  /** In the second before the last, the end is signalled only once the
      position has stalled for more than four polls: a line still moving there is
      left to play on. */
  lemma StallGatesTheLastBand(m: Monitor, position: JavaLang.Int32, duration: JavaLang.Int32)
    requires 0 < duration
    ensures var r := Poll(m, true, position, duration);
            && (position < duration - 1 && r.monitor.stuckCount <= 4 ==> !r.songEnded)
            && (r.monitor.stuckCount > 4 && position >= duration - 2 ==> r.songEnded)
  {
  }

  /** Polls while the player is paused or has no clip change nothing. */
  lemma InactivePollsChangeNothing(m: Monitor, position: JavaLang.Int32, duration: JavaLang.Int32)
    ensures Poll(m, false, position, duration) == Tick(m, false)
  {
  }

  /** `k` polls with the same readings: the monitor they leave and whether any
      of them signalled the end. */
  function Polls(m: Monitor, position: JavaLang.Int32, duration: JavaLang.Int32, k: nat): (r: Tick)
    ensures k > 0 ==> r.monitor.lastPosition == position
    ensures k > 0 && position != m.lastPosition ==> r.monitor.stuckCount == k - 1
    ensures k > 0 && position == m.lastPosition ==> r.monitor.stuckCount == m.stuckCount + k
  {
    if k == 0 then Tick(m, false)
    else
      var before := Polls(m, position, duration, k - 1);
      var t := Poll(before.monitor, true, position, duration);
      Tick(t.monitor, before.songEnded || t.songEnded)
  }

  /** A position that stops moving within two seconds of the end signals the
      end by the sixth poll, whatever the monitor held before: the stall branch
      covers a line that stops short of its last second. */
  lemma {:induction false} StallNearTheEndEnds(m: Monitor, position: JavaLang.Int32, duration: JavaLang.Int32)
    requires 0 <= duration && position >= duration - 2
    ensures Polls(m, position, duration, 6).songEnded
  {
    var five := Polls(m, position, duration, 5);
    assert five.monitor.lastPosition == position;
    assert five.monitor.stuckCount >= 4;
  }

  /** A clip whose duration reads 0 seconds still ends: after five polls at
      position 0 the stall branch fires, as it does not require a positive
      duration. */
  lemma ZeroDurationStallEnds(m: Monitor)
    ensures Polls(m, 0, 0, 6).songEnded
  {
    StallNearTheEndEnds(m, 0, 0);
  }

  /** A stall far from the end is never taken for the end. */
  lemma {:induction false} StallFarFromTheEndRuns(m: Monitor, position: JavaLang.Int32, duration: JavaLang.Int32, k: nat)
    requires 0 <= duration && position < duration - 2
    ensures !Polls(m, position, duration, k).songEnded
  {
    if k > 0 {
      StallFarFromTheEndRuns(m, position, duration, k - 1);
    }
  }
}

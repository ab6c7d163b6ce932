/** The audio engine (`AudioPlayer`): one optional open clip plus the engine's own
    bookkeeping, and a pure transition function per synchronized method.
    Positions and lengths are in microseconds, as in the source. The decoder, the
    output line and the hardware cursor are opaque: a load's outcome, a device
    fault during `seek`, and the cursor's progress are inputs. */
module AudioEngine {
  import JavaLang
  import Files
  import opened Optional

  const MICROS_PER_SECOND: nat := 1_000_000
  const DEFAULT_VOLUME: real := 0.8

  /** An opened `Clip`: whether the line is running, its cursor and its length. */
  datatype Clip = Clip(running: bool, position: nat, length: nat)

  datatype Engine = Engine(
    clip: Option<Clip>,
    inputStream: bool,      // audioInputStream != null
    decodedStream: bool,    // decodedStream != null
    gainControl: bool,      // volumeControl != null
    isLoaded: bool,
    isPlaying: bool,
    currentPosition: nat,
    totalLength: nat,
    volume: real,
    currentFile: Option<string>)

  /** The outcome of decoding and opening a readable file. */
  datatype LoadOutcome =
    | Decoded(lengthMicros: nat, gainSupported: bool)
    | UnsupportedFormat   // UnsupportedAudioFileException
    | LineUnavailable     // LineUnavailableException
    | ReadFailure         // IOException while decoding
    | OtherFailure        // any other exception

  function Initial(): Engine {
    Engine(None, false, false, false, false, false, 0, 0, DEFAULT_VOLUME, None)
  }

  /** The facts every reachable engine state satisfies. */
  predicate WellFormed(e: Engine) {
    && (e.isLoaded <==> e.clip.Some?)
    && (e.isPlaying ==> e.isLoaded)
    && (e.isLoaded ==> e.totalLength == e.clip.value.length && e.inputStream && e.decodedStream)
    && 0.0 <= e.volume <= 1.0
  }

  /** No session: no clip, no streams, no gain control, nothing loaded or playing,
      position and length zero. Only the volume setting survives. */
  predicate Released(e: Engine) {
    && e.clip.None? && !e.inputStream && !e.decodedStream && !e.gainControl
    && !e.isLoaded && !e.isPlaying
    && e.currentPosition == 0 && e.totalLength == 0 && e.currentFile.None?
  }

  /** `isLoaded()`: a loaded flag and a clip. */
  predicate IsLoaded(e: Engine) {
    e.isLoaded && e.clip.Some?
  }

  /** `isPlaying()`: the flag, a loaded clip, and the line actually running. */
  predicate IsPlaying(e: Engine) {
    e.isPlaying && IsLoaded(e) && e.clip.value.running
  }

  lemma InitialWellFormed()
    ensures WellFormed(Initial()) && Released(Initial())
  {
  }

  /** `cleanup()`, and so `reset()` and `dispose()`: stops and closes the clip, closes
      both streams, drops the gain control and zeroes the bookkeeping. */
  function Cleanup(e: Engine): (r: Engine)
    ensures Released(r)
    ensures r.volume == e.volume
    ensures WellFormed(e) ==> WellFormed(r)
  {
    Engine(None, false, false, false, false, false, 0, 0, e.volume, None)
  }

  /** Tearing down twice is tearing down once. */
  lemma CleanupIdempotent(e: Engine)
    ensures Cleanup(Cleanup(e)) == Cleanup(e)
  {
  }

  /** `load(path)`: tears down the current session, refuses a path that does not
      exist or cannot be read, and otherwise decodes and opens a new clip. Every
      failure ends torn down. */
  function Load(e: Engine, path: string, fs: Files.FileSystem, outcome: LoadOutcome): (r: Engine)
    ensures r.isLoaded <==> fs.Readable(path) && outcome.Decoded?
    ensures !r.isLoaded ==> Released(r) && r.volume == e.volume
    ensures r.isLoaded ==>
              && r.clip == Some(Clip(false, 0, outcome.lengthMicros))
              && r.totalLength == outcome.lengthMicros
              && r.currentPosition == 0 && !r.isPlaying
              && r.inputStream && r.decodedStream
              && r.gainControl == outcome.gainSupported
              && r.currentFile == Some(path)
    ensures WellFormed(e) ==> WellFormed(r)
  {
    var clean := Cleanup(e);
    if !fs.Readable(path) then Cleanup(clean)
    else
      match outcome
      case Decoded(length, gain) =>
        var session := Engine(Some(Clip(false, 0, length)), true, true, gain, true, false, 0, length,
                             clean.volume, Some(path));
        if gain then SetVolume(session, session.volume) else session
      case _ => Cleanup(clean)
  }

  /** A load forgets everything of the session before it except the volume. */
  lemma LoadForgetsPreviousSession(e1: Engine, e2: Engine, path: string, fs: Files.FileSystem, outcome: LoadOutcome)
    requires e1.volume == e2.volume
    ensures Load(e1, path, fs, outcome) == Load(e2, path, fs, outcome)
  {
  }

  /** `play()`: ignored without a loaded clip or while already playing; otherwise
      starts the line at the remembered position. */
  function Play(e: Engine): (r: Engine)
    ensures !IsLoaded(e) || e.isPlaying ==> r == e
    ensures IsLoaded(e) && !e.isPlaying ==>
              && r.isPlaying && IsPlaying(r)
              && r.clip.value.position == e.currentPosition
              && r.currentPosition == e.currentPosition
              && r.totalLength == e.totalLength
    ensures WellFormed(e) ==> WellFormed(r)
  {
    if !IsLoaded(e) || e.isPlaying then e
    else
      var c := e.clip.value;
      e.(clip := Some(c.(position := e.currentPosition, running := true)), isPlaying := true)
  }

  /** `pause()`: only while playing, remembers the line's position and stops it. */
  function Pause(e: Engine): (r: Engine)
    ensures !IsLoaded(e) || !e.isPlaying ==> r == e
    ensures IsLoaded(e) && e.isPlaying ==>
              && IsLoaded(r) && !r.isPlaying && !r.clip.value.running
              && r.currentPosition == e.clip.value.position
              && r.clip.value.position == e.clip.value.position
              && r.totalLength == e.totalLength
    ensures WellFormed(e) ==> WellFormed(r)
  {
    if !IsLoaded(e) || !e.isPlaying then e
    else
      var c := e.clip.value;
      e.(currentPosition := c.position, clip := Some(c.(running := false)), isPlaying := false)
  }

  /** Pausing right after starting returns to the same position, stopped. */
  lemma PlayThenPause(e: Engine)
    requires IsLoaded(e) && !e.isPlaying
    ensures Pause(Play(e)).currentPosition == e.currentPosition
    ensures !Pause(Play(e)).isPlaying && !Pause(Play(e)).clip.value.running
    ensures Pause(Play(e)).clip.value.position == e.currentPosition
  {
  }

  /** `stop()`: rewinds to the start and stops; without a clip it only clears the
      flag and the position. */
  function Stop(e: Engine): (r: Engine)
    ensures !r.isPlaying && r.currentPosition == 0
    ensures r.isLoaded == e.isLoaded && r.totalLength == e.totalLength
    ensures IsLoaded(e) ==> r.clip == Some(Clip(false, 0, e.clip.value.length))
    ensures !IsLoaded(e) ==> r.clip == e.clip
    ensures WellFormed(e) ==> WellFormed(r)
  {
    if !IsLoaded(e) then e.(isPlaying := false, currentPosition := 0)
    else e.(clip := Some(e.clip.value.(running := false, position := 0)), currentPosition := 0, isPlaying := false)
  }

  /** The position `seek` moves to: `seconds` in microseconds, raised to 0 when
      negative, and pulled back to one second before the end (or to 0 for a clip
      shorter than a second) when at or past the end. */
  function SeekTarget(seconds: JavaLang.Int32, totalLength: nat): (target: nat)
    ensures seconds < 0 ==> target == 0
    ensures 0 <= seconds * MICROS_PER_SECOND < totalLength ==> target == seconds * MICROS_PER_SECOND
    ensures seconds * MICROS_PER_SECOND >= totalLength ==>
              target == if totalLength >= MICROS_PER_SECOND then totalLength - MICROS_PER_SECOND else 0
    ensures totalLength > 0 ==> target < totalLength
  {
    var requested := seconds * MICROS_PER_SECOND;
    if requested < 0 then 0
    else if requested >= totalLength then
      (if totalLength - MICROS_PER_SECOND < 0 then 0 else totalLength - MICROS_PER_SECOND)
    else requested
  }

  /** Seeking is not monotonic: on a 2.5-second clip, asking for second 2 keeps
      2.0 s, while asking for second 3 (past the end) lands on 1.5 s. */
  lemma SeekTargetNotMonotonic()
    ensures SeekTarget(2, 2_500_000) == 2_000_000
    ensures SeekTarget(3, 2_500_000) == 1_500_000
  {
  }

  /** `seek(seconds)`: ignored without a loaded clip. Otherwise stops the line if
      playing, moves it to the clamped target and restarts it if it was playing.
      A device fault ends with the engine not playing, at position 0. The
      fault is taken to be raised before `clip.stop()`, so the line itself keeps
      whatever running state it had; a fault after the stop would leave it
      stopped, and the model does not tell the two apart. */
  function Seek(e: Engine, seconds: JavaLang.Int32, fault: bool): (r: Engine)
    ensures !IsLoaded(e) ==> r == e
    ensures IsLoaded(e) && !fault ==>
              && r.isPlaying == e.isPlaying
              && r.currentPosition == SeekTarget(seconds, e.totalLength)
              && IsLoaded(r) && r.clip.value.position == r.currentPosition
              && (e.isPlaying ==> r.clip.value.running)
    ensures IsLoaded(e) && fault ==> IsLoaded(r) && !r.isPlaying && r.currentPosition == 0 && r.clip.value.position == 0
    ensures r.isLoaded == e.isLoaded && r.totalLength == e.totalLength
    ensures WellFormed(e) && e.totalLength > 0 ==> r.currentPosition < r.totalLength || !IsLoaded(e)
    ensures WellFormed(e) ==> WellFormed(r)
  {
    if !IsLoaded(e) then e
    else
      var c := e.clip.value;
      if fault then
        e.(isPlaying := false, currentPosition := 0, clip := Some(c.(position := 0)))
      else
        var target := SeekTarget(seconds, e.totalLength);
        var stopped := if e.isPlaying then c.(running := false) else c;
        var moved := stopped.(position := target);
        var restarted := if e.isPlaying then moved.(running := true) else moved;
        e.(clip := Some(restarted), currentPosition := target)
  }

  /** `setVolume(v)`: keeps `v` clamped to [0, 1]; the decibel mapping is not modelled. */
  function SetVolume(e: Engine, v: real): (r: Engine)
    ensures 0.0 <= r.volume <= 1.0
    ensures 0.0 <= v <= 1.0 ==> r.volume == v
    ensures v < 0.0 ==> r.volume == 0.0
    ensures v > 1.0 ==> r.volume == 1.0
    ensures r == e.(volume := r.volume)
    ensures WellFormed(e) ==> WellFormed(r)
  {
    var clamped := if v < 0.0 then 0.0 else if v > 1.0 then 1.0 else v;
    e.(volume := clamped)
  }

  /** The hardware moving the cursor of a running line (and possibly stopping at
      the end). Not a method of the engine: the environment's step. */
  function DeviceProgress(e: Engine, position: nat, stillRunning: bool): (r: Engine)
    ensures WellFormed(e) ==> WellFormed(r)
    ensures r.currentPosition == e.currentPosition && r.isPlaying == e.isPlaying
  {
    if e.clip.Some? && e.clip.value.running then
      e.(clip := Some(e.clip.value.(position := position, running := stillRunning)))
    else e
  }

  /** `isLoaded()` across the engine's operations: only a load of a readable,
      decodable file turns it on, only a teardown or a failed load turns it off,
      and everything else leaves it as it was. */
  lemma LoadedAcrossOperations(e: Engine, path: string, fs: Files.FileSystem, outcome: LoadOutcome,
                               seconds: JavaLang.Int32, fault: bool, v: real, position: nat, stillRunning: bool)
    ensures IsLoaded(Load(e, path, fs, outcome)) <==> fs.Readable(path) && outcome.Decoded?
    ensures !IsLoaded(Cleanup(e))
    ensures IsLoaded(Play(e)) == IsLoaded(e) && IsLoaded(Pause(e)) == IsLoaded(e)
    ensures IsLoaded(Stop(e)) == IsLoaded(e) && IsLoaded(Seek(e, seconds, fault)) == IsLoaded(e)
    ensures IsLoaded(SetVolume(e, v)) == IsLoaded(e)
    ensures IsLoaded(DeviceProgress(e, position, stillRunning)) == IsLoaded(e)
  {
  }

  /** `isPlaying()` across the engine's operations: `play()` of a loaded, stopped
      engine starts it; pausing, stopping, a teardown, a load, a faulting seek and
      the line running off its end all leave it false; a clean seek keeps it
      exactly when the engine was playing. */
  lemma PlayingAcrossOperations(e: Engine, path: string, fs: Files.FileSystem, outcome: LoadOutcome,
                                seconds: JavaLang.Int32, v: real, position: nat)
    ensures IsLoaded(e) && !e.isPlaying ==> IsPlaying(Play(e))
    ensures IsPlaying(e) ==> IsPlaying(Play(e))
    ensures !IsPlaying(Pause(e)) && !IsPlaying(Stop(e)) && !IsPlaying(Cleanup(e))
    ensures !IsPlaying(Load(e, path, fs, outcome))
    ensures !IsPlaying(Seek(e, seconds, true))
    ensures IsLoaded(e) ==> (IsPlaying(Seek(e, seconds, false)) <==> e.isPlaying)
    ensures IsPlaying(SetVolume(e, v)) == IsPlaying(e)
    ensures !IsPlaying(DeviceProgress(e, position, false))
  {
  }

  datatype Reading = Reading(engine: Engine, seconds: JavaLang.Int32)

  /** `getCurrentPosition()`: 0 without a loaded clip; otherwise refreshes the
      remembered position from a running line and returns it in whole seconds. */
  function GetCurrentPosition(e: Engine): (r: Reading)
    ensures !IsLoaded(e) ==> r == Reading(e, 0)
    ensures IsLoaded(e) && IsPlaying(e) ==> r.engine.currentPosition == e.clip.value.position
    ensures IsLoaded(e) && !IsPlaying(e) ==> r.engine == e
    ensures r.engine == e.(currentPosition := r.engine.currentPosition)
    ensures IsLoaded(e) && r.engine.currentPosition / MICROS_PER_SECOND <= JavaLang.INT_MAX ==>
              r.seconds * MICROS_PER_SECOND <= r.engine.currentPosition < (r.seconds + 1) * MICROS_PER_SECOND
    ensures WellFormed(e) ==> WellFormed(r.engine)
  {
    if !IsLoaded(e) then Reading(e, 0)
    else
      var pos := if e.isPlaying && e.clip.value.running then e.clip.value.position else e.currentPosition;
      Reading(e.(currentPosition := pos), JavaLang.NarrowToInt(JavaLang.Div(pos, MICROS_PER_SECOND)))
  }

  /** `getDuration()`: the length in whole seconds, 0 when not loaded. */
  function GetDuration(e: Engine): (seconds: JavaLang.Int32)
    ensures !e.isLoaded ==> seconds == 0
    ensures e.isLoaded && e.totalLength / MICROS_PER_SECOND <= JavaLang.INT_MAX ==>
              seconds * MICROS_PER_SECOND <= e.totalLength < (seconds + 1) * MICROS_PER_SECOND
  {
    if e.isLoaded then JavaLang.NarrowToInt(JavaLang.Div(e.totalLength, MICROS_PER_SECOND)) else 0
  }
}

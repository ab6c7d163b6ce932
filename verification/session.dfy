/** The whole player as one state: the playlist coordination, the audio engine
    and the catalog table, with the steps of `MusicPlayer` that touch more than
    one of them: the play/pause button, the end of a load worker, the catalog
    refresh and the progress timer. */
module Session {
  import Files
  import Shuffle
  import AudioEngine
  import Catalog
  import Coordinator
  import Progress
  import Optional
  import opened Song

  datatype App = App(player: Coordinator.Player, engine: AudioEngine.Engine, table: Catalog.Table)

  /** A step of the whole player and the background work it starts. */
  datatype Turn = Turn(app: App, effect: Coordinator.Effect)

  function Initial(table: Catalog.Table): App {
    App(Coordinator.Initial(), AudioEngine.Initial(), table)
  }

  /** What every reachable state satisfies. */
  predicate Inv(a: App) {
    Coordinator.Inv(a.player) && AudioEngine.WellFormed(a.engine) && Catalog.UniquePaths(a.table)
  }

  /** The catalog the player starts with is a table under the UNIQUE constraint
      on `file_path`. */
  lemma InitialInv(table: Catalog.Table)
    requires Catalog.UniquePaths(table)
    ensures Inv(Initial(table))
  {
    Coordinator.InitialInv();
    AudioEngine.InitialWellFormed();
  }

  /** The engine plays exactly when the player means to. */
  predicate InStep(a: App) {
    AudioEngine.IsLoaded(a.engine) && a.engine.isPlaying == a.player.isPlaying
    && (a.engine.isPlaying ==> a.engine.clip.value.running)
  }

  /** `togglePlayPause()`. To start, a player without a loaded clip first asks
      for the current track to be loaded; the engine's `play()` right after is
      then ignored, and the load worker starts the line once it has finished.
      To stop, the engine pauses. Either way the player's intent flips. */
  function TogglePlayPause(a: App, fs: Files.FileSystem): (r: Turn)
    ensures r.app.player.isPlaying == !a.player.isPlaying
    ensures r.app.table == a.table
    ensures a.player.isPlaying ==> r.effect == Coordinator.NoEffect && r.app.player == a.player.(isPlaying := false)
    ensures a.player.isPlaying && AudioEngine.IsLoaded(a.engine) ==>
              && AudioEngine.IsLoaded(r.app.engine) && !r.app.engine.isPlaying
              && (a.engine.isPlaying ==>
                    && !r.app.engine.clip.value.running
                    && r.app.engine.currentPosition == a.engine.clip.value.position)
              && (!a.engine.isPlaying ==> r.app.engine == a.engine)
    ensures !a.player.isPlaying && AudioEngine.IsLoaded(a.engine) ==>
              && r.effect == Coordinator.NoEffect && r.app.player == a.player.(isPlaying := true)
              && AudioEngine.IsLoaded(r.app.engine) && r.app.engine.isPlaying
              && (!a.engine.isPlaying ==>
                    && r.app.engine.clip.value.running
                    && r.app.engine.clip.value.position == a.engine.currentPosition)
              && (a.engine.isPlaying ==> r.app.engine == a.engine)
    ensures !a.player.isPlaying && !AudioEngine.IsLoaded(a.engine) ==>
              && r.app.engine == a.engine
              && (|a.player.playlist| == 0 ==> r.effect == Coordinator.NoEffect)
              && (Coordinator.Playable(r.app.player, fs) ==>
                    r.effect == Coordinator.LoadTrack(r.app.player.playlist[r.app.player.index].filePath))
              && (|a.player.playlist| > 0 && !Coordinator.Playable(r.app.player, fs) ==> r.effect == Coordinator.Refresh)
    ensures Inv(a) ==> Inv(r.app)
  {
    if !a.player.isPlaying then
      var s := if !AudioEngine.IsLoaded(a.engine) then Coordinator.LoadCurrentSong(a.player, fs)
               else Coordinator.Step(a.player, Coordinator.NoEffect);
      Turn(App(s.player.(isPlaying := true), AudioEngine.Play(a.engine), a.table), s.effect)
    else
      Turn(a.(player := a.player.(isPlaying := false), engine := AudioEngine.Pause(a.engine)), Coordinator.NoEffect)
  }

  /** With a loaded clip the button keeps the engine in step with the player. */
  lemma TogglePlayPauseKeepsStep(a: App, fs: Files.FileSystem)
    requires InStep(a)
    ensures InStep(TogglePlayPause(a, fs).app)
  {
  }

  /** Pressing the button twice on a paused, loaded player resumes and pauses
      again at the same position, and leaves the player as it was. */
  lemma TogglePlayPauseTwice(a: App, fs: Files.FileSystem)
    requires InStep(a) && !a.player.isPlaying
    ensures var r := TogglePlayPause(TogglePlayPause(a, fs).app, fs);
            && r.effect == Coordinator.NoEffect
            && r.app.player == a.player && r.app.table == a.table
            && InStep(r.app) && r.app.engine.currentPosition == a.engine.currentPosition
  {
    AudioEngine.PlayThenPause(a.engine);
  }

  /** Whether the engine holds a clip after the load worker reset it and loaded
      `path`. */
  function Loaded(a: App, path: string, fs: Files.FileSystem, outcome: AudioEngine.LoadOutcome): (e: AudioEngine.Engine)
    ensures AudioEngine.IsLoaded(e) <==> fs.Readable(path) && outcome.Decoded?
    ensures !AudioEngine.IsLoaded(e) ==> AudioEngine.Released(e)
    ensures AudioEngine.IsLoaded(e) ==> e.currentPosition == 0 && !e.isPlaying && e.currentFile == Optional.Some(path)
    ensures AudioEngine.WellFormed(a.engine) ==> AudioEngine.WellFormed(e)
  {
    AudioEngine.Load(AudioEngine.Cleanup(a.engine), path, fs, outcome)
  }

  /** The load worker's `done()` as written. A loaded clip is started when the
      player means to play. A failed load throws `IllegalStateException` inside
      the runnable handed to the event thread, outside the `try` whose handler
      would skip to the next track, so the failure changes nothing but the
      engine: the player still means to play and no further work starts. */
  function LoadFinishedAsWritten(a: App, path: string, fs: Files.FileSystem, outcome: AudioEngine.LoadOutcome): (r: Turn)
    ensures r.effect == Coordinator.NoEffect
    ensures r.app.player == a.player && r.app.table == a.table
    ensures AudioEngine.IsLoaded(r.app.engine) <==> fs.Readable(path) && outcome.Decoded?
    ensures AudioEngine.IsLoaded(r.app.engine) ==> (r.app.engine.isPlaying <==> a.player.isPlaying)
    ensures AudioEngine.IsLoaded(r.app.engine) && a.player.isPlaying ==>
              r.app.engine.clip.value.running && r.app.engine.clip.value.position == 0
    ensures Inv(a) ==> Inv(r.app)
  {
    var e := Loaded(a, path, fs, outcome);
    if AudioEngine.IsLoaded(e) && a.player.isPlaying then Turn(a.(engine := AudioEngine.Play(e)), Coordinator.NoEffect)
    else Turn(a.(engine := e), Coordinator.NoEffect)
  }

  /** The load worker's `done()` as its failure handler intends: a failed load
      with another track to go to skips to the next track; with one track it
      only clears the display, which the model does not hold. */
  function LoadFinished(a: App, path: string, fs: Files.FileSystem, outcome: AudioEngine.LoadOutcome, picks: seq<int>): (r: Turn)
    requires Coordinator.Inv(a.player) && Shuffle.ValidPicks(picks, |a.player.playlist|)
    ensures r.app.table == a.table
    ensures AudioEngine.IsLoaded(Loaded(a, path, fs, outcome)) || |a.player.playlist| <= 1 ==>
              r == LoadFinishedAsWritten(a, path, fs, outcome)
    ensures !AudioEngine.IsLoaded(Loaded(a, path, fs, outcome)) && |a.player.playlist| > 1 ==>
              && !AudioEngine.IsLoaded(r.app.engine)
              && r.effect != Coordinator.NoEffect
              && (r.effect.LoadTrack? ==> Coordinator.Playable(r.app.player, fs) && r.app.player.isPlaying)
    ensures Inv(a) ==> Inv(r.app)
  {
    var e := Loaded(a, path, fs, outcome);
    if AudioEngine.IsLoaded(e) || |a.player.playlist| <= 1 then LoadFinishedAsWritten(a, path, fs, outcome)
    else
      var s := Coordinator.NextSong(a.player, fs, picks);
      Turn(a.(player := s.player, engine := e), s.effect)
  }

  /** A failed load, as written, leaves a player that means to play with no clip:
      the progress timer then never fires again, so nothing moves the player on. */
  lemma FailedLoadStalls(a: App, path: string, fs: Files.FileSystem, outcome: AudioEngine.LoadOutcome,
                         m: Progress.Monitor, picks: seq<int>)
    requires Coordinator.Inv(a.player) && Shuffle.ValidPicks(picks, |a.player.playlist|)
    requires !(fs.Readable(path) && outcome.Decoded?)
    ensures var r := LoadFinishedAsWritten(a, path, fs, outcome);
            TimerTick(r.app, m, fs, picks) == Tock(r.app, m, Coordinator.NoEffect)
  {
  }

  /** Two readable tracks, the first of which will not decode: the worker as
      written leaves the player meaning to play track 0 with nothing loaded and
      no further work, where the intended handler loads track 1. */
  lemma UndecodableFirstTrack(t0: Track, t1: Track, fs: Files.FileSystem)
    requires fs.Readable(t0.filePath) && fs.Readable(t1.filePath)
    ensures var a := App(Coordinator.Player([t0, t1], 0, true, false, false, []), AudioEngine.Initial(), []);
            var w := LoadFinishedAsWritten(a, t0.filePath, fs, AudioEngine.UnsupportedFormat);
            var c := LoadFinished(a, t0.filePath, fs, AudioEngine.UnsupportedFormat, [0, 0]);
            && w.app.player.isPlaying && w.app.player.index == 0
            && !AudioEngine.IsLoaded(w.app.engine) && w.effect == Coordinator.NoEffect
            && c.app.player.isPlaying && c.app.player.index == 1
            && c.effect == Coordinator.LoadTrack(t1.filePath)
  {
    var a := App(Coordinator.Player([t0, t1], 0, true, false, false, []), AudioEngine.Initial(), []);
    assert Coordinator.Ready(a.player);
    assert Coordinator.Next(a.player, 0) == 1;
    Coordinator.NextSongTakesReadableSuccessor(a.player, fs, [0, 0]);
  }

  /** The catalog refresh a `Refresh` effect starts: `cleanupInvalidSongs()` in
      the background with the files as they are then (`before`), and, when it
      is done, `refreshPlaylistFromDatabase()`, which loads the valid playlist
      and repairs the index with the files as they are at that point (`after`). */
  function RunRefresh(a: App, before: Files.FileSystem, after: Files.FileSystem, picks: seq<int>): (r: Turn)
    requires Shuffle.ValidPicks(picks, |RefreshedPlaylist(a.table, before, after)|)
    ensures r.app.player.playlist == RefreshedPlaylist(a.table, before, after)
    ensures SortedByTitle(r.app.player.playlist)
    ensures forall x :: x in r.app.player.playlist <==>
              x in a.table && before.Readable(x.filePath) && after.Readable(x.filePath)
    ensures multiset(r.app.player.playlist) == multiset(r.app.table)
    ensures r.app.engine == a.engine
    ensures |r.app.player.playlist| > 0 && Coordinator.Inv(a.player) ==>
              && 0 <= r.app.player.index < |r.app.player.playlist|
              && r.effect == Coordinator.LoadTrack(r.app.player.playlist[r.app.player.index].filePath)
    ensures Inv(a) ==> Inv(r.app)
  {
    var cleaned := Catalog.CleanupInvalidSongs(a.table, before, before);
    var loaded := Catalog.LoadValidPlaylist(cleaned.table, after);
    var s := Coordinator.ReloadPlaylist(a.player, loaded.playlist, after, picks);
    RefreshedMembers(a.table, before, after);
    RefreshedTrackLoads(a.player, cleaned.table, after, picks);
    Turn(App(s.player, a.engine, loaded.table), s.effect)
  }

  /** The tracks a refresh keeps: those of the table readable both at the
      cleanup and at the reload. */
  lemma RefreshedMembers(t: Catalog.Table, before: Files.FileSystem, after: Files.FileSystem)
    ensures forall x :: x in RefreshedPlaylist(t, before, after) <==>
              x in t && before.Readable(x.filePath) && after.Readable(x.filePath)
  {
    var cleaned := Catalog.CleanupInvalidSongs(t, before, before);
    assert forall x :: x in cleaned.table <==> x in t && before.Readable(x.filePath);
  }

  /** A reload of tracks that can all be read starts a load of the current one. */
  lemma RefreshedTrackLoads(p: Coordinator.Player, t: Catalog.Table, fs: Files.FileSystem, picks: seq<int>)
    requires Shuffle.ValidPicks(picks, |Catalog.LoadValidPlaylist(t, fs).playlist|)
    ensures var songs := Catalog.LoadValidPlaylist(t, fs).playlist;
            var s := Coordinator.ReloadPlaylist(p, songs, fs, picks);
            |songs| > 0 && Coordinator.Inv(p) ==>
              && 0 <= s.player.index < |songs|
              && s.effect == Coordinator.LoadTrack(songs[s.player.index].filePath)
  {
    var songs := Catalog.LoadValidPlaylist(t, fs).playlist;
    var s := Coordinator.ReloadPlaylist(p, songs, fs, picks);
    if |songs| > 0 && Coordinator.Inv(p) {
      assert songs[s.player.index] in songs;
    }
  }

  /** The playlist a refresh ends with. */
  function RefreshedPlaylist(t: Catalog.Table, before: Files.FileSystem, after: Files.FileSystem): seq<Track> {
    Catalog.LoadValidPlaylist(Catalog.CleanupInvalidSongs(t, before, before).table, after).playlist
  }

  /** On files that do not change, refreshing a second time finds nothing more
      to remove: the table and the playlist stay as the first refresh left them. */
  lemma RefreshTwice(a: App, fs: Files.FileSystem, picks: seq<int>, picks2: seq<int>)
    requires Shuffle.ValidPicks(picks, |RefreshedPlaylist(a.table, fs, fs)|)
    requires Shuffle.ValidPicks(picks2, |RefreshedPlaylist(RunRefresh(a, fs, fs, picks).app.table, fs, fs)|)
    ensures var once := RunRefresh(a, fs, fs, picks).app;
            var twice := RunRefresh(once, fs, fs, picks2).app;
            twice.table == once.table && twice.player.playlist == once.player.playlist
  {
    var t := a.table;
    Catalog.CleanupOnStableFilesystemRemovesNothing(t, fs);
    var once := Catalog.LoadValidPlaylist(Catalog.CleanupInvalidSongs(t, fs, fs).table, fs);
    assert once.table == KeepReadable(fs, KeepReadable(fs, t));
    KeepReadableIdempotent(fs, t);
    Catalog.CleanupOnStableFilesystemRemovesNothing(once.table, fs);
    KeepReadableIdempotent(fs, once.table);
    Catalog.ReconciledPlaylistIsSortedTable(Catalog.CleanupInvalidSongs(t, fs, fs).table, fs);
    Catalog.ReconciledPlaylistIsSortedTable(Catalog.CleanupInvalidSongs(once.table, fs, fs).table, fs);
  }

  /** On files that do not change, a refresh ends the "file not found" chain: the
      next load of any track it left is a real load, never another refresh. */
  lemma RefreshThenLoadLoads(a: App, fs: Files.FileSystem, picks: seq<int>)
    requires Shuffle.ValidPicks(picks, |RefreshedPlaylist(a.table, fs, fs)|)
    requires |RefreshedPlaylist(a.table, fs, fs)| > 0
    ensures var p := RunRefresh(a, fs, fs, picks).app.player;
            Coordinator.LoadCurrentSong(p, fs).effect.LoadTrack?
  {
    var p := RunRefresh(a, fs, fs, picks).app.player;
    var i := Coordinator.LoadCurrentSong(p, fs).player.index;
    assert p.playlist[i] in p.playlist;
  }

  /** What a poll of the progress timer leaves: the whole player, the timer's
      fields and the work it started. */
  datatype Tock = Tock(app: App, monitor: Progress.Monitor, effect: Coordinator.Effect)

  /** One firing of the progress timer: ignored unless the player means to play
      and a clip is loaded; otherwise it reads the position and the duration and,
      when it decides the track has ended, runs `handleSongEnd()`. */
  function TimerTick(a: App, m: Progress.Monitor, fs: Files.FileSystem, picks: seq<int>): (r: Tock)
    requires Coordinator.Inv(a.player) && Shuffle.ValidPicks(picks, |a.player.playlist|)
    ensures !(a.player.isPlaying && AudioEngine.IsLoaded(a.engine)) ==> r == Tock(a, m, Coordinator.NoEffect)
    ensures r.app.table == a.table
    ensures r.effect != Coordinator.NoEffect ==> a.player.isPlaying && AudioEngine.IsLoaded(a.engine)
    ensures a.player.isPlaying && AudioEngine.IsLoaded(a.engine) ==>
              var reading := AudioEngine.GetCurrentPosition(a.engine);
              var t := Progress.Poll(m, true, reading.seconds, AudioEngine.GetDuration(reading.engine));
              && r.monitor == t.monitor
              && r.app.engine == reading.engine
              && (!t.songEnded ==> r.effect == Coordinator.NoEffect && r.app.player == a.player)
              && (t.songEnded ==> Coordinator.Step(r.app.player, r.effect) == Coordinator.SongEnd(a.player, fs, picks))
    ensures Inv(a) ==> Inv(r.app)
  {
    if !(a.player.isPlaying && AudioEngine.IsLoaded(a.engine)) then Tock(a, m, Coordinator.NoEffect)
    else
      var reading := AudioEngine.GetCurrentPosition(a.engine);
      var duration := AudioEngine.GetDuration(reading.engine);
      var t := Progress.Poll(m, true, reading.seconds, duration);
      var b := a.(engine := reading.engine);
      if t.songEnded then
        var s := Coordinator.SongEnd(b.player, fs, picks);
        Tock(b.(player := s.player), t.monitor, s.effect)
      else Tock(b, t.monitor, Coordinator.NoEffect)
  }

  /** A timer firing more than two seconds before the end of a playing track
      never moves the player on, however long the position has stalled. */
  lemma TimerTickFarFromTheEnd(a: App, m: Progress.Monitor, fs: Files.FileSystem, picks: seq<int>)
    requires Coordinator.Inv(a.player) && Shuffle.ValidPicks(picks, |a.player.playlist|)
    requires var reading := AudioEngine.GetCurrentPosition(a.engine);
             var duration := AudioEngine.GetDuration(reading.engine);
             0 <= duration && reading.seconds < duration - 2
    ensures var r := TimerTick(a, m, fs, picks);
            r.effect == Coordinator.NoEffect && r.app.player == a.player
  {
    var reading := AudioEngine.GetCurrentPosition(a.engine);
    Progress.EndIsNearTheEnd(m, true, reading.seconds, AudioEngine.GetDuration(reading.engine));
  }

  /** A timer firing in the last second of a playing track moves the player on:
      a non-empty playlist outside loop mode ends with a load or a refresh. */
  lemma TimerTickAtTheEnd(a: App, m: Progress.Monitor, fs: Files.FileSystem, picks: seq<int>)
    requires Coordinator.Inv(a.player) && Shuffle.ValidPicks(picks, |a.player.playlist|)
    requires a.player.isPlaying && AudioEngine.IsLoaded(a.engine) && |a.player.playlist| > 0
    requires var reading := AudioEngine.GetCurrentPosition(a.engine);
             var duration := AudioEngine.GetDuration(reading.engine);
             duration > 0 && reading.seconds >= duration - 1
    ensures TimerTick(a, m, fs, picks).effect != Coordinator.NoEffect
  {
    var reading := AudioEngine.GetCurrentPosition(a.engine);
    Progress.LastSecondEnds(m, reading.seconds, AudioEngine.GetDuration(reading.engine));
    var q := a.player.(isPlaying := false);
    assert Coordinator.SongEnd(a.player, fs, picks) == Coordinator.NextSong(q, fs, picks);
  }
}

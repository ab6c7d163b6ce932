/** The playlist coordination of `MusicPlayer`, without its user interface: which
    track is current, whether the player means to be playing, the shuffle and
    loop modes and the shuffle order. Asynchronous work a step starts (loading a
    file into the engine, cleaning the catalog and reloading the playlist) is
    returned as an `Effect` instead of being run. */
module Coordinator {
  import JavaLang
  import Files
  import Shuffle
  import opened Song

  datatype Player = Player(
    playlist: seq<Track>,
    index: int,            // currentSongIndex
    isPlaying: bool,
    shuffling: bool,
    looping: bool,
    order: seq<int>)       // shuffleOrder

  /** Work handed to a background worker. */
  datatype Effect =
    | NoEffect
    | LoadTrack(path: string)   // reset the engine and load this file
    | Refresh                   // clean unreadable rows from the catalog, then reload the playlist

  datatype Step = Step(player: Player, effect: Effect)

  function Initial(): Player {
    Player([], 0, false, false, false, [])
  }

  /** What every reachable player state satisfies. */
  predicate Inv(p: Player) {
    && p.index >= -1
    && (|p.playlist| > 0 ==> 0 <= p.index < |p.playlist|)
    && Shuffle.IsPermutation(p.order, |p.order|)
    && (!p.shuffling ==> p.order == [])
  }

  lemma InitialInv()
    ensures Inv(Initial())
  {
  }

  /** The current track can be opened: the loop's check before it stops searching. */
  predicate Playable(p: Player, fs: Files.FileSystem) {
    0 <= p.index < |p.playlist| && fs.Readable(p.playlist[p.index].filePath)
  }

  /** `rebuildShuffleOrder()`: a fresh random order of all the indices, and the
      current index brought back to 0 if it is past the end. */
  function RebuildShuffleOrder(p: Player, picks: seq<int>): (r: Player)
    requires Shuffle.ValidPicks(picks, |p.playlist|)
    ensures Shuffle.IsPermutation(r.order, |p.playlist|)
    ensures |p.playlist| == 0 ==> r.index == p.index
    ensures |p.playlist| > 0 ==> r.index < |p.playlist|
    ensures p.index < |p.playlist| ==> r.index == p.index
    ensures p.index >= |p.playlist| > 0 ==> r.index == 0
    ensures r == p.(order := r.order, index := r.index)
    ensures Inv(p) && p.shuffling ==> Inv(r)
  {
    if |p.playlist| == 0 then p.(order := [])
    else
      var n := |p.playlist|;
      p.(order := Shuffle.Shuffled(n, picks), index := if p.index >= n then 0 else p.index)
  }

  /** `toggleShuffle()`: switching on draws a fresh order, switching off drops it. */
  function ToggleShuffle(p: Player, picks: seq<int>): (r: Player)
    requires Shuffle.ValidPicks(picks, |p.playlist|)
    ensures r.shuffling == !p.shuffling
    ensures r.shuffling ==> Shuffle.IsPermutation(r.order, |p.playlist|)
    ensures !r.shuffling ==> r.order == []
    ensures r.playlist == p.playlist && r.looping == p.looping && r.isPlaying == p.isPlaying
    ensures Inv(p) ==> Inv(r) && r.index == p.index
  {
    var q := p.(shuffling := !p.shuffling);
    if q.shuffling then RebuildShuffleOrder(q, picks) else q.(order := [])
  }

  /** Switching shuffle on and off again restores the player. */
  lemma ToggleShuffleTwice(p: Player, picks: seq<int>, picks2: seq<int>)
    requires Inv(p) && !p.shuffling
    requires Shuffle.ValidPicks(picks, |p.playlist|) && Shuffle.ValidPicks(picks2, |p.playlist|)
    ensures ToggleShuffle(ToggleShuffle(p, picks), picks2) == p
  {
  }

  /** `toggleLoop()`. */
  function ToggleLoop(p: Player): (r: Player)
    ensures r.looping == !p.looping
    ensures r.playlist == p.playlist && r.index == p.index && r.isPlaying == p.isPlaying
    ensures r.shuffling == p.shuffling && r.order == p.order
    ensures Inv(p) ==> Inv(r)
  {
    p.(looping := !p.looping)
  }

  lemma ToggleLoopTwice(p: Player)
    ensures ToggleLoop(ToggleLoop(p)) == p
  {
  }

  /** `loadCurrentSong()`: brings an out-of-range index back to 0, then either
      starts loading the current file or, when it cannot be read, starts the
      catalog cleanup and playlist reload. */
  function LoadCurrentSong(p: Player, fs: Files.FileSystem): (r: Step)
    ensures |p.playlist| == 0 ==> r == Step(p, NoEffect)
    ensures r.player == p.(index := r.player.index)
    ensures |p.playlist| > 0 ==>
              && 0 <= r.player.index < |p.playlist|
              && (0 <= p.index < |p.playlist| ==> r.player.index == p.index)
              && (!(0 <= p.index < |p.playlist|) ==> r.player.index == 0)
              && (Playable(r.player, fs) ==> r.effect == LoadTrack(p.playlist[r.player.index].filePath))
              && (!Playable(r.player, fs) ==> r.effect == Refresh)
    ensures Inv(p) ==> Inv(r.player)
  {
    if |p.playlist| == 0 then Step(p, NoEffect)
    else
      var i := if p.index >= |p.playlist| || p.index < 0 then 0 else p.index;
      var q := p.(index := i);
      var path := p.playlist[i].filePath;
      if !fs.Readable(path) then Step(q, Refresh) else Step(q, LoadTrack(path))
  }

  /** The shuffle order is rebuilt by `nextSong` when it is empty, has the wrong
      length or lacks the current index. */
  predicate Stale(p: Player) {
    |p.order| == 0 || |p.order| != |p.playlist| || p.index !in p.order
  }

  /** A player the search can step from without rebuilding the order:
      consistent, non-empty, not looping, and with a usable order when shuffling. */
  predicate Ready(p: Player) {
    Inv(p) && |p.playlist| > 0 && !p.looping && (p.shuffling ==> !Stale(p))
  }

  /** The player after the staleness check of the loop body: a stale shuffle
      order is rebuilt, anything else is left alone. */
  function Prepared(p: Player, picks: seq<int>): (s: Player)
    requires Inv(p) && |p.playlist| > 0 && !p.looping && Shuffle.ValidPicks(picks, |p.playlist|)
    ensures Ready(s) && s.index == p.index
    ensures s == p.(order := s.order)
    ensures !(p.shuffling && Stale(p)) ==> s == p
  {
    if p.shuffling && Stale(p) then
      var s := RebuildShuffleOrder(p, picks);
      Shuffle.PermutationCovers(s.order, |p.playlist|);
      assert s.index in s.order;
      s
    else p
  }

  /** An index the search can stand on: a track of the playlist, and an element
      of the shuffle order when shuffling. */
  predicate OnRing(s: Player, i: int) {
    0 <= i < |s.playlist| && (s.shuffling ==> i in s.order)
  }

  /** The index after `i`: the element after `i` in the shuffle order, wrapping
      round, or the next index of the playlist, wrapping round. */
  function Next(s: Player, i: int): (j: int)
    requires Ready(s) && OnRing(s, i)
    ensures OnRing(s, j)
  {
    if s.shuffling then
      s.order[Shuffle.Wrap(JavaLang.IndexOf(s.order, i) + 1, |s.order|)]
    else Shuffle.Wrap(i + 1, |s.playlist|)
  }

  /** The track at index `i` can be opened. */
  predicate ReadableAt(s: Player, fs: Files.FileSystem, i: int) {
    0 <= i < |s.playlist| && fs.Readable(s.playlist[i].filePath)
  }

  /** Where the search loop stopped and how many attempts it counted. */
  datatype Outcome = Outcome(index: int, attempts: nat)

  /** The do-while loop of `nextSong` from the current index `i`: advance, stop
      at a readable track, else count the attempt and go on while fewer than `n`
      attempts were made and the candidate is not the starting index. Only the
      index changes inside the loop; the staleness check of the loop body is
      done once, by `Prepared`, before it. */
  function Search(s: Player, fs: Files.FileSystem, original: int, i: int, attempts: nat): (r: Outcome)
    requires Ready(s) && OnRing(s, i) && attempts < |s.playlist|
    ensures attempts <= r.attempts <= |s.playlist|
    ensures OnRing(s, r.index)
    ensures r.attempts < |s.playlist| ==> ReadableAt(s, fs, r.index) || r.index == original
    decreases |s.playlist| - attempts
  {
    var j := Next(s, i);
    if ReadableAt(s, fs, j) then Outcome(j, attempts)
    else if attempts + 1 < |s.playlist| && j != original then Search(s, fs, original, j, attempts + 1)
    else Outcome(j, attempts + 1)
  }

  /** `nextSong()`: nothing on an empty playlist; the same track again in loop
      mode; otherwise the first readable candidate, or a catalog refresh when all
      `n` attempts fail. Whenever a track is (re)loaded, the player means to play. */
  function NextSong(p: Player, fs: Files.FileSystem, picks: seq<int>): (r: Step)
    requires Inv(p) && Shuffle.ValidPicks(picks, |p.playlist|)
    ensures |p.playlist| == 0 ==> r == Step(p, NoEffect)
    ensures |p.playlist| > 0 && p.looping ==> r.player.index == p.index && r.player.order == p.order
    ensures |p.playlist| > 0 && p.looping ==>
              && r.player.isPlaying
              && (fs.Readable(p.playlist[p.index].filePath) ==> r.effect == LoadTrack(p.playlist[p.index].filePath))
              && (!fs.Readable(p.playlist[p.index].filePath) ==> r.effect == Refresh)
    ensures |p.playlist| > 0 ==> r.effect != NoEffect
    ensures r.effect.LoadTrack? ==>
              && Playable(r.player, fs)
              && r.effect.path == r.player.playlist[r.player.index].filePath
    ensures |p.playlist| > 0 && r.effect != Refresh ==> r.player.isPlaying
    ensures Inv(r.player)
    ensures r.player == p.(index := r.player.index, order := r.player.order, isPlaying := r.player.isPlaying)
  {
    if |p.playlist| == 0 then Step(p, NoEffect)
    else if p.looping then
      var s := LoadCurrentSong(p, fs);
      Step(s.player.(isPlaying := true), s.effect)
    else
      var s := Prepared(p, picks);
      var o := Search(s, fs, p.index, p.index, 0);
      if o.attempts >= |p.playlist| then Step(s.(index := o.index), Refresh)
      else
        var l := LoadCurrentSong(s.(index := o.index), fs);
        Step(l.player.(isPlaying := true), l.effect)
  }

  /** `previousSong()`: the same track in loop mode, the predecessor in the shuffle
      order (wrapping to its last element) or the sequential predecessor. The
      source fails on an empty shuffle order and divides by zero on an empty
      playlist in sequential mode, hence the two preconditions. */
  function PreviousSong(p: Player, fs: Files.FileSystem): (r: Step)
    requires !p.looping && p.shuffling ==> |p.order| > 0
    requires !p.looping && !p.shuffling ==> |p.playlist| > 0
    ensures r.player.isPlaying == p.isPlaying
    ensures r.player == p.(index := r.player.index)
    ensures p.looping && 0 <= p.index < |p.playlist| ==> r.player.index == p.index
    ensures 0 <= PreviousIndex(p) < |p.playlist| ==> r.player.index == PreviousIndex(p)
    ensures |p.playlist| > 0 ==> 0 <= r.player.index < |p.playlist|
    ensures |p.playlist| == 0 ==> r.effect == NoEffect
    ensures |p.playlist| > 0 ==>
              && (Playable(r.player, fs) ==> r.effect == LoadTrack(r.player.playlist[r.player.index].filePath))
              && (!Playable(r.player, fs) ==> r.effect == Refresh)
    ensures Inv(p) ==> Inv(r.player)
  {
    LoadCurrentSong(p.(index := PreviousIndex(p)), fs)
  }

  /** The index `previousSong` sets before it loads the track. */
  function PreviousIndex(p: Player): (i: int)
    requires !p.looping && p.shuffling ==> |p.order| > 0
    requires !p.looping && !p.shuffling ==> |p.playlist| > 0
    ensures p.looping ==> i == p.index
    ensures !p.looping && p.shuffling ==> i in p.order
    ensures !p.looping && p.shuffling && (p.index !in p.order || p.order[0] == p.index) ==>
              i == p.order[|p.order| - 1]
    ensures !p.looping && p.shuffling && p.index in p.order && p.order[0] != p.index ==>
              0 < JavaLang.IndexOf(p.order, p.index) && i == p.order[JavaLang.IndexOf(p.order, p.index) - 1]
    ensures !p.looping && !p.shuffling && 0 <= p.index < |p.playlist| ==>
              i == if p.index == 0 then |p.playlist| - 1 else p.index - 1
  {
    if p.looping then p.index
    else if p.shuffling then
      var before := JavaLang.IndexOf(p.order, p.index) - 1;
      var prev := if before < 0 then |p.order| - 1 else before;
      p.order[prev]
    else
      var n := |p.playlist|;
      JavaLang.Rem(p.index - 1 + n, n)
  }

  /** The index the reload settles on for a non-empty playlist before it
      re-selects it: an unchanged size keeps the index; a changed size keeps an
      in-range index, else takes 0, and goes back to the first track, stopped,
      if the file at that index is gone. */
  function Repaired(p: Player, songs: seq<Track>, fs: Files.FileSystem): (q: Player)
    requires |songs| > 0
    ensures q == p.(playlist := songs, index := q.index, isPlaying := q.isPlaying)
  {
    var q := p.(playlist := songs);
    if |songs| == |p.playlist| then q
    else
      var i := if p.index >= |songs| then 0 else if p.index < 0 then 0 else p.index;
      if !fs.fileExists(songs[i].filePath) then q.(index := 0, isPlaying := false)
      else q.(index := i)
  }

  /** The `done()` step of the playlist reload. An empty playlist has index -1
      and stops. Otherwise the index is repaired, and selecting it again in the
      playlist view, which the reload had emptied, fires the view's selection
      listener: it runs `loadCurrentSong()`, so every non-empty reload starts a
      load of the current track, or a refresh when that file cannot be read.
      Shuffle mode then redraws the order. */
  function ReloadPlaylist(p: Player, songs: seq<Track>, fs: Files.FileSystem, picks: seq<int>): (r: Step)
    requires Shuffle.ValidPicks(picks, |songs|)
    ensures r.player.playlist == songs
    ensures r.player.shuffling == p.shuffling && r.player.looping == p.looping
    ensures |songs| == 0 ==> r.player.index == -1 && !r.player.isPlaying && r.effect == NoEffect
    ensures |songs| > 0 && |songs| == |p.playlist| && Inv(p) ==>
              r.player.index == p.index && r.player.isPlaying == p.isPlaying
    ensures |songs| > 0 && |songs| != |p.playlist| ==>
              var i := if 0 <= p.index < |songs| then p.index else 0;
              && (fs.fileExists(songs[i].filePath) ==>
                    r.player.index == i && r.player.isPlaying == p.isPlaying)
              && (!fs.fileExists(songs[i].filePath) ==>
                    r.player.index == 0 && !r.player.isPlaying)
    ensures |songs| > 0 && (Inv(p) || |songs| != |p.playlist|) ==>
              && 0 <= r.player.index < |songs|
              && (fs.Readable(songs[r.player.index].filePath) ==> r.effect == LoadTrack(songs[r.player.index].filePath))
              && (!fs.Readable(songs[r.player.index].filePath) ==> r.effect == Refresh)
    ensures p.shuffling && |songs| > 0 ==> Shuffle.IsPermutation(r.player.order, |songs|)
    ensures Inv(p) ==> Inv(r.player)
  {
    if |songs| == 0 then Step(p.(playlist := songs, index := -1, isPlaying := false), NoEffect)
    else
      var q := Repaired(p, songs, fs);
      var s := if 0 <= q.index < |songs| then LoadCurrentSong(q, fs) else Step(q, NoEffect);
      assert 0 <= q.index < |songs| ==> s.player == q;
      var r := if p.shuffling then Step(RebuildShuffleOrder(s.player, picks), s.effect) else s;
      assert 0 <= q.index < |songs| ==> r.player.index == q.index;
      r
  }

  /** At start-up the playlist is still empty when the first track would be
      loaded, so the first reload is what loads it: its re-selection of index 0
      starts the load of track 0. */
  lemma StartupLoadsFirstTrack(songs: seq<Track>, fs: Files.FileSystem, picks: seq<int>)
    requires Shuffle.ValidPicks(picks, |songs|) && |songs| > 0
    requires forall x :: x in songs ==> fs.Readable(x.filePath)
    ensures ReloadPlaylist(Initial(), songs, fs, picks) == Step(Initial().(playlist := songs), LoadTrack(songs[0].filePath))
  {
    assert songs[0] in songs;
  }

  /** The index the search reaches after `k` passes from a ready player. */
  function Candidate(s: Player, k: nat): (i: int)
    requires Ready(s)
    ensures OnRing(s, i)
  {
    if k == 0 then s.index else Next(s, Candidate(s, k - 1))
  }

  /** The walk in closed form: `k` places round the shuffle order from the
      current index's position, or `k` places round the playlist. */
  lemma CandidateClosedForm(s: Player, k: nat)
    requires Ready(s)
    ensures s.shuffling ==>
              Candidate(s, k) == Shuffle.After(s.order, JavaLang.IndexOf(s.order, s.index), k)
    ensures !s.shuffling ==> Candidate(s, k) == Shuffle.Cycle(s.index, k, |s.playlist|)
  {
    if s.shuffling {
      ShuffledWalk(s, k);
    } else {
      SequentialWalk(s, k);
    }
  }

  /** In shuffle mode the step from the element at position `j` of the order
      goes to the element at the next position, wrapping round. */
  lemma NextInOrder(s: Player, j: int)
    requires Ready(s) && s.shuffling && 0 <= j < |s.order|
    ensures Next(s, s.order[j]) == s.order[Shuffle.Wrap(j + 1, |s.order|)]
  {
    Shuffle.PositionInPermutation(s.order, |s.order|, j);
  }

  lemma {:induction false} ShuffledWalk(s: Player, k: nat)
    requires Ready(s) && s.shuffling
    ensures Candidate(s, k) == Shuffle.After(s.order, JavaLang.IndexOf(s.order, s.index), k)
  {
    if k > 0 {
      var pos := JavaLang.IndexOf(s.order, s.index);
      ShuffledWalk(s, k - 1);
      NextInOrder(s, Shuffle.Cycle(pos, k - 1, |s.order|));
    }
  }

  lemma {:induction false} SequentialWalk(s: Player, k: nat)
    requires Ready(s) && !s.shuffling
    ensures Candidate(s, k) == Shuffle.Cycle(s.index, k, |s.playlist|)
  {
    if k > 0 {
      SequentialWalk(s, k - 1);
    }
  }

  /** The walk does not come back to its start before `n` steps. */
  lemma WalkLeavesStart(s: Player, k: nat)
    requires Ready(s) && 0 < k < |s.playlist|
    ensures Candidate(s, k) != s.index
  {
    CandidateClosedForm(s, k);
    if s.shuffling {
      Shuffle.AfterLeavesStart(s.order, |s.playlist|, JavaLang.IndexOf(s.order, s.index), k);
    }
  }

  /** Within `n` steps the walk reaches every index of the playlist. */
  lemma WalkCovers(s: Player, i: int)
    requires Ready(s) && 0 <= i < |s.playlist|
    ensures exists k :: 1 <= k <= |s.playlist| && Candidate(s, k) == i
  {
    var n := |s.playlist|;
    if s.shuffling {
      var pos := JavaLang.IndexOf(s.order, s.index);
      Shuffle.AfterCovers(s.order, n, pos, i);
      var k :| 1 <= k <= n && Shuffle.After(s.order, pos, k) == i;
      CandidateClosedForm(s, k);
    } else {
      var k := if i > s.index then i - s.index else i - s.index + n;
      CandidateClosedForm(s, k);
    }
  }

  /** The search from step `a` of the walk stops at the first readable step
      after `a`, or after step `n` when none of the steps after `a` is readable. */
  lemma SearchWalk(s: Player, fs: Files.FileSystem, a: nat)
    requires Ready(s) && a < |s.playlist|
    ensures var r := Search(s, fs, s.index, Candidate(s, a), a);
              && (r.attempts < |s.playlist| ==> r.index == Candidate(s, r.attempts + 1) && ReadableAt(s, fs, r.index))
              && (forall k :: a < k <= r.attempts ==> !ReadableAt(s, fs, Candidate(s, k)))
  {
    SearchStops(s, fs, a);
    SearchSkips(s, fs, a);
  }

  lemma {:induction false} SearchStops(s: Player, fs: Files.FileSystem, a: nat)
    requires Ready(s) && a < |s.playlist|
    ensures var r := Search(s, fs, s.index, Candidate(s, a), a);
              r.attempts < |s.playlist| ==> r.index == Candidate(s, r.attempts + 1) && ReadableAt(s, fs, r.index)
    decreases |s.playlist| - a
  {
    assert Candidate(s, a + 1) == Next(s, Candidate(s, a));
    if a + 1 < |s.playlist| {
      WalkLeavesStart(s, a + 1);
      if !ReadableAt(s, fs, Candidate(s, a + 1)) {
        SearchStops(s, fs, a + 1);
      }
    }
  }

  lemma {:induction false} SearchSkips(s: Player, fs: Files.FileSystem, a: nat)
    requires Ready(s) && a < |s.playlist|
    ensures var r := Search(s, fs, s.index, Candidate(s, a), a);
              forall k :: a < k <= r.attempts ==> !ReadableAt(s, fs, Candidate(s, k))
    decreases |s.playlist| - a
  {
    assert Candidate(s, a + 1) == Next(s, Candidate(s, a));
    if a + 1 < |s.playlist| {
      WalkLeavesStart(s, a + 1);
      if !ReadableAt(s, fs, Candidate(s, a + 1)) {
        SearchSkips(s, fs, a + 1);
      }
    }
  }

  /** The outcome of `nextSong` outside loop mode: it refreshes the catalog exactly
      when no track of the playlist can be read, and otherwise loads the first
      readable track along the walk, meaning to play it. */
  lemma NextSongOutcome(p: Player, fs: Files.FileSystem, picks: seq<int>)
    requires Inv(p) && |p.playlist| > 0 && !p.looping && Shuffle.ValidPicks(picks, |p.playlist|)
    ensures var r := NextSong(p, fs, picks);
            var s := Prepared(p, picks);
              && (r.effect == Refresh <==> forall i :: 0 <= i < |p.playlist| ==> !fs.Readable(p.playlist[i].filePath))
              && (r.effect == Refresh ==> r.player.isPlaying == p.isPlaying)
              && (r.effect != Refresh ==>
                    exists k :: 1 <= k <= |p.playlist|
                      && r.player == s.(index := Candidate(s, k), isPlaying := true)
                      && r.effect == LoadTrack(p.playlist[r.player.index].filePath)
                      && forall j :: 1 <= j < k ==> !ReadableAt(s, fs, Candidate(s, j)))
  {
    var n := |p.playlist|;
    var s := Prepared(p, picks);
    SearchWalk(s, fs, 0);
    var o := Search(s, fs, p.index, p.index, 0);
    if o.attempts >= n {
      forall i | 0 <= i < n
        ensures !fs.Readable(p.playlist[i].filePath)
      {
        WalkCovers(s, i);
      }
    } else {
      assert o.index == Candidate(s, o.attempts + 1);
    }
  }

  /** Sequential mode moves to `(i + 1) mod n` when that track can be read. */
  lemma NextSongSequential(p: Player, fs: Files.FileSystem, picks: seq<int>)
    requires Inv(p) && |p.playlist| > 0 && !p.looping && !p.shuffling && Shuffle.ValidPicks(picks, |p.playlist|)
    requires fs.Readable(p.playlist[JavaLang.Rem(p.index + 1, |p.playlist|)].filePath)
    ensures NextSong(p, fs, picks).player.index == JavaLang.Rem(p.index + 1, |p.playlist|)
    ensures NextSong(p, fs, picks).player.isPlaying
  {
    Shuffle.WrapIsRemainder(p.index + 1, |p.playlist|);
    SearchWalk(p, fs, 0);
  }

  /** Shuffle mode with a usable order moves to the element after the current
      index in the order, wrapping round, when that track can be read. */
  lemma NextSongShuffled(p: Player, fs: Files.FileSystem, picks: seq<int>)
    requires Inv(p) && |p.playlist| > 0 && !p.looping && p.shuffling && !Stale(p)
    requires Shuffle.ValidPicks(picks, |p.playlist|)
    requires var next := p.order[JavaLang.Rem(JavaLang.IndexOf(p.order, p.index) + 1, |p.order|)];
             0 <= next < |p.playlist| && fs.Readable(p.playlist[next].filePath)
    ensures NextSong(p, fs, picks).player.index == p.order[JavaLang.Rem(JavaLang.IndexOf(p.order, p.index) + 1, |p.order|)]
    ensures NextSong(p, fs, picks).player.order == p.order
  {
    Shuffle.WrapIsRemainder(JavaLang.IndexOf(p.order, p.index) + 1, |p.order|);
    SearchWalk(p, fs, 0);
  }

  /** The example of an order [2, 0, 1] at index 0: the next track is track 1. */
  lemma NextSongShuffleExample(t0: Track, t1: Track, t2: Track, fs: Files.FileSystem)
    requires fs.Readable(t1.filePath)
    ensures NextSong(Player([t0, t1, t2], 0, false, true, false, [2, 0, 1]), fs, [0, 0, 0]).player.index == 1
  {
    var p := Player([t0, t1, t2], 0, false, true, false, [2, 0, 1]);
    assert p.order[1] == 0;
    assert JavaLang.IndexOf(p.order, 0) == 1;
    NextSongShuffled(p, fs, [0, 0, 0]);
  }

  /** When the track after the current one can be read, `nextSong` moves there
      at once and means to play it. */
  lemma NextSongTakesReadableSuccessor(p: Player, fs: Files.FileSystem, picks: seq<int>)
    requires Ready(p) && Shuffle.ValidPicks(picks, |p.playlist|)
    requires ReadableAt(p, fs, Next(p, p.index))
    ensures NextSong(p, fs, picks).player == p.(index := Next(p, p.index), isPlaying := true)
  {
    SearchWalk(p, fs, 0);
  }

  /** `previousSong` steps back over one step of `nextSong`'s walk. */
  lemma PreviousUndoesStep(p: Player, playing: bool)
    requires Ready(p)
    ensures PreviousIndex(p.(index := Next(p, p.index), isPlaying := playing)) == p.index
  {
    var n := |p.playlist|;
    var j := Next(p, p.index);
    if p.shuffling {
      var pos := JavaLang.IndexOf(p.order, p.index);
      Shuffle.AfterStep(p.order, n, pos, 1);
      assert j == Shuffle.After(p.order, pos, 1);
    } else {
      Shuffle.BackIsRemainder(j, n);
    }
  }

  /** One step of `nextSong`'s walk undoes `previousSong`. */
  lemma StepUndoesPrevious(p: Player, fs: Files.FileSystem)
    requires Ready(p)
    ensures var q := PreviousSong(p, fs).player;
            Ready(q) && Next(q, q.index) == p.index
  {
    var n := |p.playlist|;
    var q := PreviousSong(p, fs).player;
    if p.shuffling {
      var pos := JavaLang.IndexOf(p.order, p.index);
      var prev := if pos == 0 then n - 1 else pos - 1;
      assert q.index == p.order[prev];
      Shuffle.PositionInPermutation(p.order, n, prev);
    } else {
      Shuffle.BackIsRemainder(p.index, n);
    }
  }

  /** With every track readable, going back undoes going forward. */
  lemma PreviousUndoesNext(p: Player, fs: Files.FileSystem, picks: seq<int>)
    requires Ready(p) && Shuffle.ValidPicks(picks, |p.playlist|)
    requires forall i :: 0 <= i < |p.playlist| ==> fs.Readable(p.playlist[i].filePath)
    ensures PreviousSong(NextSong(p, fs, picks).player, fs).player.index == p.index
  {
    NextSongTakesReadableSuccessor(p, fs, picks);
    PreviousUndoesStep(p, true);
  }

  /** With every track readable, going forward undoes going back. */
  lemma NextUndoesPrevious(p: Player, fs: Files.FileSystem, picks: seq<int>)
    requires Ready(p) && Shuffle.ValidPicks(picks, |p.playlist|)
    requires forall i :: 0 <= i < |p.playlist| ==> fs.Readable(p.playlist[i].filePath)
    ensures NextSong(PreviousSong(p, fs).player, fs, picks).player.index == p.index
  {
    StepUndoesPrevious(p, fs);
    NextSongTakesReadableSuccessor(PreviousSong(p, fs).player, fs, picks);
  }

  /** `handleSongEnd()` followed by `nextSong()`: the player stops meaning to
      play, then moves on; it ends playing again exactly when a track is loaded
      or reloaded rather than the catalog refreshed. In loop mode the same track
      is loaded again and plays. */
  function SongEnd(p: Player, fs: Files.FileSystem, picks: seq<int>): (r: Step)
    requires Inv(p) && Shuffle.ValidPicks(picks, |p.playlist|)
    ensures Inv(r.player)
    ensures |p.playlist| > 0 && !p.looping ==> (r.player.isPlaying <==> r.effect != Refresh)
    ensures |p.playlist| == 0 ==> !r.player.isPlaying && r.effect == NoEffect
    ensures |p.playlist| > 0 && p.looping ==>
              && r.player == p.(isPlaying := true)
              && (fs.Readable(p.playlist[p.index].filePath) ==> r.effect == LoadTrack(p.playlist[p.index].filePath))
              && (!fs.Readable(p.playlist[p.index].filePath) ==> r.effect == Refresh)
  {
    var q := p.(isPlaying := false);
    if |q.playlist| > 0 && !q.looping then
      NextSongOutcome(q, fs, picks);
      NextSong(q, fs, picks)
    else NextSong(q, fs, picks)
  }
}

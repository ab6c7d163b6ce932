# Harmony Music Player — a Dafny model of its playback core

The project models the parts of the Harmony desktop music player that decide
what plays. The user interface is not modelled.

- **The audio engine (`AudioPlayer`).** One optional clip, plus the engine's
  loaded and playing flags, its position and length in microseconds, and its
  volume. Every synchronized method is a pure transition function.
- **The catalog (`DatabaseManager`).** The `Songs` table is a sequence of
  tracks whose file paths are unique. The model covers:
  - the batch add;
  - the reconciliation that drops unreadable files and returns the rest
    ordered by title;
  - the cleanup that runs after it;
  - the validity query.
- **The playlist coordination of `MusicPlayer`.** This covers:
  - the shuffle order, drawn from a supplied sequence of random choices;
  - loop and shuffle modes;
  - next and previous track, including the bounded search for a playable
    track;
  - the index clamp before a load;
  - the index repair after a reload;
  - the play/pause button;
  - the end of a load worker;
  - the progress timer that detects the end of a track;
  - the `m:ss` time format.

The filesystem is a parameter: a pair of "exists" and "can read" predicates.
`java.util.Random` is a sequence of choices, the k-th lying in `[0, n - k)`.
The outcome of decoding a file is a parameter too, and so are device faults
and the hardware cursor.

Background work is returned as an effect rather than run:
- `LoadTrack(path)` stands for the load worker;
- `Refresh` stands for the catalog cleanup followed by the playlist reload.

The `Session` module runs those completions as separate steps.

Modules:
- `JavaLang`: truncating `/` and `%`, the `(int)` cast, and `indexOf` / `lastIndexOf`.
- `Files`: the filesystem predicates and `File.getName`.
- `Optional`: an option type.
- `Song`: the track record and the `ORDER BY title` order.
- `Catalog`: the table operations.
- `AudioEngine`: the engine.
- `Shuffle`: permutations drawn from random choices, and stepping round a ring.
- `Coordinator`: the playlist logic.
- `Progress`: the end-of-track poll.
- `TimeFormat`: `formatTime`.
- `Session`: the whole player as one state.

## Model

| member | source | states |
|---|---|---|
| JavaLang.Div | src/com/musicplayer/MusicPlayer.java:985 | Java's `/` truncates toward zero: the remainder it leaves has the dividend's sign and is smaller than the divisor |
| JavaLang.Rem | src/com/musicplayer/MusicPlayer.java:986 | Java's `%` satisfies `a == (a / b) * b + r`, takes the dividend's sign, and agrees with the mathematical remainder on non-negative dividends |
| JavaLang.NarrowToInt | src/com/musicplayer/audio/AudioPlayer.java:254 | the `(int)` cast of a `long` keeps in-range values and otherwise differs by a multiple of 2^32 |
| JavaLang.IndexOf | src/com/musicplayer/MusicPlayer.java:1025 | `indexOf` answers -1 exactly when the element is absent, and otherwise a position holding it |
| JavaLang.IndexOfIsFirst | src/com/musicplayer/MusicPlayer.java:1025 | no position before the one `indexOf` answers holds the element |
| JavaLang.LastIndexOf | src/com/musicplayer/database/DatabaseManager.java:172 | `lastIndexOf` answers -1 exactly when the character is absent, and otherwise a position holding it with none after it |
| Files.FileName | src/com/musicplayer/database/DatabaseManager.java:170 | `getName` is the suffix of the path after its last separator and holds no separator |
| Song.TitleLeqTotal | src/com/musicplayer/database/DatabaseManager.java:101 | any two titles are comparable under the BINARY order `ORDER BY title` uses |
| Song.TitleLeqTransitive | src/com/musicplayer/database/DatabaseManager.java:101 | the title order is transitive |
| Song.InsertKeepsSorted | src/com/musicplayer/database/DatabaseManager.java:101 | inserting a track into a title-sorted list keeps it sorted |
| Song.SortByTitle | src/com/musicplayer/database/DatabaseManager.java:101 | the rows in title order are a permutation of the table, sorted by title |
| Song.KeepReadable | src/com/musicplayer/database/DatabaseManager.java:107-122 | the reading loop keeps exactly the rows whose file exists and can be read, each at most as often as it was given, and never more rows than it was given |
| Song.KeepReadableIdempotent | src/com/musicplayer/database/DatabaseManager.java:107-122 | filtering the readable rows a second time keeps them all |
| Song.KeepReadableSort | src/com/musicplayer/database/DatabaseManager.java:101-122 | filtering the rows in title order gives the readable rows of the table in title order |
| Catalog.DefaultTitle | src/com/musicplayer/database/DatabaseManager.java:170-172 | a new row's title is a prefix of the file name: empty only for an empty name, stopping at the last `.` when the name is cut, and the whole name only when no `.` follows the first character |
| Catalog.AddSongs | src/com/musicplayer/database/DatabaseManager.java:154-200 | the batch add only appends rows, and the count it returns equals the number of rows appended and is at most the number of files |
| Catalog.AddSongsInsertsReadableFiles | src/com/musicplayer/database/DatabaseManager.java:163-181 | every appended row is a readable file of the batch, titled from its name, with artist "Unknown Artist" and album "Unknown Album" |
| Catalog.AddSongsKeepsPathsUnique | src/com/musicplayer/database/DatabaseManager.java:174-189 | a path already stored, or met earlier in the same batch, is skipped, so the UNIQUE constraint on `file_path` keeps holding |
| Catalog.AddSongsPaths | src/com/musicplayer/database/DatabaseManager.java:163-190 | after the add, the stored paths are the old ones plus the readable paths of the batch |
| Catalog.AddedCountIsNewPaths | src/com/musicplayer/database/DatabaseManager.java:179-180 | the returned count is the number of readable batch paths that were not stored before |
| Catalog.UniquePathCountAtMostOne | src/com/musicplayer/database/DatabaseManager.java:79 | under the UNIQUE constraint, a path names at most one row |
| Catalog.DeleteEachIsDeleteWhere | src/com/musicplayer/database/DatabaseManager.java:126-133 | issuing one `DELETE ... WHERE file_path = ?` per path removes exactly the rows whose path is in the list |
| Catalog.InvalidPaths | src/com/musicplayer/database/DatabaseManager.java:107-121 | the paths the reading loop collects for deletion are exactly those of the unreadable rows |
| Catalog.DeleteInvalidKeepsReadable | src/com/musicplayer/database/DatabaseManager.java:124-137 | the deletes `loadValidPlaylist` issues leave exactly the readable rows, in stored order |
| Catalog.LoadValidPlaylist | src/com/musicplayer/database/DatabaseManager.java:98-146 | the returned playlist is sorted by title, holds exactly the readable rows, and is a permutation of the table the deletes leave; that table has no unreadable row, and a table with unique paths keeps them unique |
| Catalog.ReconciledPlaylistIsSortedTable | src/com/musicplayer/database/DatabaseManager.java:101-137 | the playlist returned is the table left behind, sorted by title |
| Catalog.DeleteWhere | src/com/musicplayer/database/DatabaseManager.java:124-137 | the deletes keep exactly the rows whose path is not among the deleted paths, and keep unique paths unique |
| Catalog.KeepReadableKeepsPathsUnique | src/com/musicplayer/database/DatabaseManager.java:79 | the readable rows of a table with unique paths have unique paths |
| Catalog.LoadValidPlaylistIdempotent | src/com/musicplayer/database/DatabaseManager.java:107-137 | with the files unchanged, a second reconciliation deletes nothing and returns the same playlist |
| Catalog.RemoveUnreadable | src/com/musicplayer/database/DatabaseManager.java:218-230 | the re-check deletes exactly the rows of the given songs whose file is now unreadable, and counts exactly the songs it finds unreadable, so 0 exactly when every song is readable; unique paths stay unique |
| Catalog.CleanupInvalidSongs | src/com/musicplayer/database/DatabaseManager.java:208-241 | after the cleanup the table holds exactly the rows that were in it and are readable both when the rows were loaded and when they were re-checked; the count is the number of rows readable at load time and unreadable at the re-check; unique paths stay unique |
| Catalog.RemovedCount | src/com/musicplayer/database/DatabaseManager.java:218-226 | the songs the re-check walks, the reconciled table in title order, have as many unreadable entries as the reconciled table itself |
| Catalog.CleanupOnStableFilesystemRemovesNothing | src/com/musicplayer/database/DatabaseManager.java:209-230 | on unchanged files the cleanup removes 0 rows, and leaves the table the reconciliation left |
| Catalog.IsValidSongPath | src/com/musicplayer/database/DatabaseManager.java:249-268 | a path is valid exactly when some row has it and the file is readable |
| Catalog.CountPathPositive | src/com/musicplayer/database/DatabaseManager.java:250-258 | `COUNT(*) > 0` exactly when some row has the path |
| AudioEngine.InitialWellFormed | src/com/musicplayer/audio/AudioPlayer.java:8-17 | a new engine holds no clip, no streams and nothing loaded, at volume 0.8, and satisfies the engine invariant |
| AudioEngine.Cleanup | src/com/musicplayer/audio/AudioPlayer.java:74-120 | the teardown leaves no clip, no streams, no gain control, neither loaded nor playing, position and length 0, and keeps the volume |
| AudioEngine.CleanupIdempotent | src/com/musicplayer/audio/AudioPlayer.java:122-128 | `reset` and `dispose` twice are the same as once |
| AudioEngine.Load | src/com/musicplayer/audio/AudioPlayer.java:19-72 | the load succeeds exactly for a readable file that decodes; on success the clip is open and stopped at position 0 with the decoded length; every failure ends torn down |
| AudioEngine.LoadForgetsPreviousSession | src/com/musicplayer/audio/AudioPlayer.java:19-21 | the outcome of a load does not depend on the session before it, apart from the volume |
| AudioEngine.Play | src/com/musicplayer/audio/AudioPlayer.java:130-145 | `play` changes nothing without a loaded clip or while playing; otherwise it starts the line at the remembered position |
| AudioEngine.Pause | src/com/musicplayer/audio/AudioPlayer.java:147-162 | `pause` changes nothing unless playing; otherwise it stores the line's position and stops it |
| AudioEngine.PlayThenPause | src/com/musicplayer/audio/AudioPlayer.java:130-162 | a pause straight after a play returns to the same position, stopped |
| AudioEngine.Stop | src/com/musicplayer/audio/AudioPlayer.java:164-185 | `stop` always ends not playing at position 0, and rewinds a loaded clip to 0 |
| AudioEngine.SeekTarget | src/com/musicplayer/audio/AudioPlayer.java:195-203 | the target is the request in microseconds, raised to 0 when negative, and pulled back to one second before the end (or to 0) when at or past the end; it is below a positive length |
| AudioEngine.SeekTargetNotMonotonic | src/com/musicplayer/audio/AudioPlayer.java:198-203 | asking for a later second can land earlier: seconds 2 and 3 of a 2.5 s clip land on 2.0 s and 1.5 s |
| AudioEngine.LoadedAcrossOperations | src/com/musicplayer/audio/AudioPlayer.java:268-270 | `isLoaded()` turns on only through a load of a readable, decodable file, off through a teardown, and no other operation changes it |
| AudioEngine.PlayingAcrossOperations | src/com/musicplayer/audio/AudioPlayer.java:272-274 | `isPlaying()` becomes true when a loaded, stopped engine plays; pause, stop, teardown, load, a faulting seek and the line running off its end make it false; a clean seek keeps it exactly when the engine was playing |
| AudioEngine.Seek | src/com/musicplayer/audio/AudioPlayer.java:187-225 | `seek` does nothing without a clip; otherwise it moves to the clamped target and keeps the playing state, and a device fault ends not playing, at position 0 |
| AudioEngine.SetVolume | src/com/musicplayer/audio/AudioPlayer.java:227-228 | the stored volume is the request clamped to [0, 1], and nothing else changes |
| AudioEngine.GetCurrentPosition | src/com/musicplayer/audio/AudioPlayer.java:246-259 | 0 without a clip; otherwise the position is refreshed from a running line and reported in whole seconds, rounded down |
| AudioEngine.GetDuration | src/com/musicplayer/audio/AudioPlayer.java:261-266 | 0 when not loaded; otherwise the length in whole seconds, rounded down |
| Shuffle.Range | src/com/musicplayer/MusicPlayer.java:1100-1103 | the list of indices starts as 0, 1, ..., n-1 |
| Shuffle.RemoveAt | src/com/musicplayer/MusicPlayer.java:1106 | `indices.remove(i)` is one element shorter, drops exactly the i-th element, and keeps a duplicate-free list duplicate-free |
| Shuffle.Draw | src/com/musicplayer/MusicPlayer.java:1104-1107 | the drawing loop moves every remaining index to the order exactly once |
| Shuffle.Shuffled | src/com/musicplayer/MusicPlayer.java:1095-1111 | for any in-range random choices the shuffle order is a permutation of [0, n) |
| Shuffle.PicksFor | src/com/musicplayer/MusicPlayer.java:1104-1107 | for every arrangement of the remaining indices there are in-range choices that draw it |
| Shuffle.EveryOrderIsReachable | src/com/musicplayer/MusicPlayer.java:1095-1111 | every permutation of [0, n) is the shuffle order of some random choices |
| Shuffle.PermutationCovers | src/com/musicplayer/MusicPlayer.java:1021-1022 | a permutation of [0, n) contains every index, so a fresh order always contains the current index |
| Shuffle.PositionInPermutation | src/com/musicplayer/MusicPlayer.java:1025 | in a permutation, `indexOf` of the element at position j is j |
| Shuffle.WrapIsRemainder | src/com/musicplayer/MusicPlayer.java:1026 | `(i + 1) % n` steps once round the ring, wrapping to 0 |
| Shuffle.BackIsRemainder | src/com/musicplayer/MusicPlayer.java:1072 | `(i - 1 + n) % n` steps once back round the ring, wrapping to n - 1 |
| Shuffle.Cycle | src/com/musicplayer/MusicPlayer.java:1026-1029 | k single steps round a ring of n positions add k modulo n |
| Shuffle.AfterLeavesStart | src/com/musicplayer/MusicPlayer.java:1043 | fewer than n steps round a permutation never return to the starting element |
| Shuffle.AfterCovers | src/com/musicplayer/MusicPlayer.java:1015-1043 | between 1 and n steps round a permutation reach every index |
| Shuffle.AfterStep | src/com/musicplayer/MusicPlayer.java:1025-1027 | the element k steps round sits at position start + k, and the next step reaches k + 1 steps |
| Coordinator.InitialInv | src/com/musicplayer/MusicPlayer.java:54-66 | the initial player satisfies the player invariant |
| Coordinator.RebuildShuffleOrder | src/com/musicplayer/MusicPlayer.java:1095-1111 | the new order is a permutation of [0, n), empty for an empty playlist; an index at or past the end of a non-empty playlist goes back to 0 and any other index stays |
| Coordinator.ToggleShuffle | src/com/musicplayer/MusicPlayer.java:1082-1093 | shuffle mode flips; switching on draws a permutation and switching off drops the order; the current index stays |
| Coordinator.ToggleShuffleTwice | src/com/musicplayer/MusicPlayer.java:1082-1093 | switching shuffle on and off again restores the player |
| Coordinator.ToggleLoop | src/com/musicplayer/MusicPlayer.java:1113-1118 | loop mode flips and nothing else changes |
| Coordinator.ToggleLoopTwice | src/com/musicplayer/MusicPlayer.java:1113-1118 | toggling loop mode twice restores the player |
| Coordinator.LoadCurrentSong | src/com/musicplayer/MusicPlayer.java:1127-1163 | an empty playlist does nothing; otherwise an out-of-range index goes to 0; a readable current file starts a load and an unreadable one starts the catalog refresh |
| Coordinator.Prepared | src/com/musicplayer/MusicPlayer.java:1019-1024 | a stale shuffle order (empty, of the wrong length, or lacking the current index) is rebuilt, after which the search can step from the current index |
| Coordinator.Next | src/com/musicplayer/MusicPlayer.java:1019-1030 | one step of the search stays on the playlist, and in shuffle mode on the order |
| Coordinator.Search | src/com/musicplayer/MusicPlayer.java:1015-1043 | the candidate loop makes at most n attempts, and one that stops early stops on a readable track or back at the start |
| Coordinator.NextSong | src/com/musicplayer/MusicPlayer.java:1007-1060 | an empty playlist does nothing; loop mode stays on the track; otherwise a readable track is loaded or the catalog refreshed, a loaded track always plays, and the invariant holds; in loop mode the player keeps its index, plays, and reloads the current track when it can be read or refreshes the catalog when it cannot |
| Coordinator.PreviousIndex | src/com/musicplayer/MusicPlayer.java:1062-1074 | loop mode keeps the index; shuffle mode takes the element before the current index in the order, or the last element when the index is first or missing from the order; sequential mode takes the previous track, wrapping from 0 to the last |
| Coordinator.PreviousSong | src/com/musicplayer/MusicPlayer.java:1062-1080 | `previousSong` never changes whether the player means to play, and moves to the previous index whenever that index is on the playlist; an empty playlist starts no work, and otherwise the new current track is loaded when it can be read and the catalog refreshed when it cannot |
| Coordinator.ReloadPlaylist | src/com/musicplayer/MusicPlayer.java:238-289 | an empty playlist gives index -1, stops and starts no work; an unchanged size leaves the index; a changed size keeps an in-range index, else 0, and goes back to track 0, stopped, exactly when the file there is gone; re-selecting the index then loads the current track, or refreshes when it cannot be read; shuffle mode redraws a permutation |
| Coordinator.Repaired | src/com/musicplayer/MusicPlayer.java:253-275 | the repair changes only the playlist, the index and whether the player means to play |
| Coordinator.StartupLoadsFirstTrack | src/com/musicplayer/MusicPlayer.java:492-503 | the first reload at start-up, of readable tracks, selects track 0 and starts its load, leaving the player otherwise as created |
| Coordinator.CandidateClosedForm | src/com/musicplayer/MusicPlayer.java:1019-1030 | after k steps the search stands k places round the shuffle order, or k places round the playlist |
| Coordinator.NextInOrder | src/com/musicplayer/MusicPlayer.java:1025-1027 | in shuffle mode the step from position j of the order goes to position j + 1, wrapping |
| Coordinator.ShuffledWalk | src/com/musicplayer/MusicPlayer.java:1025-1027 | k shuffle steps from the current index reach the element k places after its position in the order |
| Coordinator.SequentialWalk | src/com/musicplayer/MusicPlayer.java:1029 | k sequential steps reach `(i + k) mod n` |
| Coordinator.WalkLeavesStart | src/com/musicplayer/MusicPlayer.java:1043 | the search does not come back to the starting index before n steps |
| Coordinator.WalkCovers | src/com/musicplayer/MusicPlayer.java:1015-1046 | within n steps the search reaches every track of the playlist |
| Coordinator.SearchWalk | src/com/musicplayer/MusicPlayer.java:1032-1043 | the loop stops at the first readable track along the walk, having found every earlier one unreadable |
| Coordinator.SearchStops | src/com/musicplayer/MusicPlayer.java:1037-1038 | when the loop stops before n attempts, it stops on the readable track just after the last failed attempt |
| Coordinator.SearchSkips | src/com/musicplayer/MusicPlayer.java:1042-1043 | every attempt the loop counts was an unreadable track |
| Coordinator.NextSongOutcome | src/com/musicplayer/MusicPlayer.java:1032-1055 | outside loop mode the catalog is refreshed exactly when no track can be read; otherwise the first readable track along the walk is loaded and plays |
| Coordinator.NextSongSequential | src/com/musicplayer/MusicPlayer.java:1029 | sequential mode moves to `(i + 1) % n` when that track can be read |
| Coordinator.NextSongShuffled | src/com/musicplayer/MusicPlayer.java:1019-1027 | with a usable order, shuffle mode moves to the element after the current index in the order, wrapping, and keeps the order |
| Coordinator.NextSongShuffleExample | src/com/musicplayer/MusicPlayer.java:1025-1027 | with order [2, 0, 1] at index 0, the next track is track 1 |
| Coordinator.NextSongTakesReadableSuccessor | src/com/musicplayer/MusicPlayer.java:1015-1038 | when the next track can be read, `nextSong` moves there at once and plays it |
| Coordinator.PreviousUndoesStep | src/com/musicplayer/MusicPlayer.java:1062-1072 | the previous index of the next index is the current index, in shuffle and sequential mode |
| Coordinator.StepUndoesPrevious | src/com/musicplayer/MusicPlayer.java:1062-1072 | the next index of the previous index is the current index |
| Coordinator.PreviousUndoesNext | src/com/musicplayer/MusicPlayer.java:1007-1080 | with every track readable, `previousSong` after `nextSong` returns to the starting track |
| Coordinator.NextUndoesPrevious | src/com/musicplayer/MusicPlayer.java:1007-1080 | with every track readable, `nextSong` after `previousSong` returns to the starting track |
| Coordinator.SongEnd | src/com/musicplayer/MusicPlayer.java:961-969 | outside loop mode, after the end of a track the player plays again exactly when the next track is loaded rather than the catalog refreshed; on an empty playlist it stops and starts no work; in loop mode the player stays on the track and plays, and the track is loaded again when it can be read or the catalog refreshed when it cannot |
| Progress.Poll | src/com/musicplayer/MusicPlayer.java:919-940 | a poll is ignored unless playing and loaded; a moved position resets the stuck counter and a repeated one increments it; the end is signalled exactly in the last second of a non-empty track, or within two seconds of the end once the position has stalled for more than four polls |
| Progress.EndIsNearTheEnd | src/com/musicplayer/MusicPlayer.java:934-938 | the end of a track is only signalled within two seconds of its duration |
| Progress.StallGatesTheLastBand | src/com/musicplayer/MusicPlayer.java:936-938 | before the last second, a poll signals the end only once the position has stalled for more than four polls, and always does so within two seconds of the end |
| Progress.LastSecondEnds | src/com/musicplayer/MusicPlayer.java:934-935 | a poll in the last second of a non-empty track signals the end |
| Progress.InactivePollsChangeNothing | src/com/musicplayer/MusicPlayer.java:920-922 | polls while paused or unloaded change nothing and signal nothing |
| Progress.Polls | src/com/musicplayer/MusicPlayer.java:925-931 | after k polls at one position the counter is k - 1 when the position moved, else the old count plus k |
| Progress.StallNearTheEndEnds | src/com/musicplayer/MusicPlayer.java:936-938 | a position stuck within two seconds of the end signals the end by the sixth poll |
| Progress.ZeroDurationStallEnds | src/com/musicplayer/MusicPlayer.java:936-938 | the stall branch fires on a zero-second clip too, as it has no positive-duration check |
| Progress.StallFarFromTheEndRuns | src/com/musicplayer/MusicPlayer.java:934-938 | a position stuck further than two seconds from the end never signals the end |
| TimeFormat.Numeral | src/com/musicplayer/MusicPlayer.java:987 | `%d` of a non-negative value is a non-empty string of digits without a leading zero |
| TimeFormat.NumeralRoundTrip | src/com/musicplayer/MusicPlayer.java:987 | reading a printed numeral back gives the number |
| TimeFormat.ZeroPadded2 | src/com/musicplayer/MusicPlayer.java:987 | `%02d` pads 0 to 9 with one zero, prints two-digit values as their two digits, and leaves negative values unpadded |
| TimeFormat.FormatTime | src/com/musicplayer/MusicPlayer.java:984-988 | the text always holds the colon between minutes and seconds |
| TimeFormat.FormatTimeOfCount | src/com/musicplayer/MusicPlayer.java:984-988 | for s >= 0 the text is `s / 60`, a colon, and `s % 60` as exactly two digits |
| TimeFormat.FormatTimeOfNegative | src/com/musicplayer/MusicPlayer.java:984-988 | with Java's truncating operators, -65 seconds prints as "-1:-5" |
| TimeFormat.FormatTimeRoundTrip | src/com/musicplayer/MusicPlayer.java:984-988 | reading the text of a non-negative count back as minutes * 60 + seconds gives the count |
| Session.InitialInv | src/com/musicplayer/MusicPlayer.java:103-114 | the initial player and engine, with a table honouring the UNIQUE constraint on `file_path`, satisfy the session invariant |
| Session.TogglePlayPause | src/com/musicplayer/MusicPlayer.java:990-1005 | the button flips whether the player means to play; pausing pauses a playing engine; starting with a clip starts the line where it stopped; starting without a clip starts a load of a readable current track, or a refresh |
| Session.TogglePlayPauseKeepsStep | src/com/musicplayer/MusicPlayer.java:990-1005 | with a clip loaded, the button keeps the engine playing exactly when the player means to play |
| Session.TogglePlayPauseTwice | src/com/musicplayer/MusicPlayer.java:990-1005 | pressing the button twice on a paused, loaded player returns to the same position, paused, with the player unchanged |
| Session.Loaded | src/com/musicplayer/MusicPlayer.java:1172-1183 | after the load worker's reset and load, the engine holds a clip exactly when the file is readable and decodes, and that clip is at position 0 |
| Session.LoadFinishedAsWritten | src/com/musicplayer/MusicPlayer.java:1185-1212 | as written, the load worker's completion starts a loaded clip when the player means to play; on a failed load it changes nothing but the engine and starts no work |
| Session.LoadFinished | src/com/musicplayer/MusicPlayer.java:1185-1229 | as intended, a failed load with more than one track goes on to the next track or a refresh; otherwise it behaves as written |
| Session.FailedLoadStalls | src/com/musicplayer/MusicPlayer.java:1195-1212 | after a failed load as written, the progress timer ignores every poll, so nothing moves the player on |
| Session.UndecodableFirstTrack | src/com/musicplayer/MusicPlayer.java:1185-1229 | with two readable tracks and an undecodable first one, the completion as written leaves the player meaning to play track 0 with nothing loaded, where the intended one loads track 1 |
| Session.RunRefresh | src/com/musicplayer/MusicPlayer.java:300-320 | the playlist after a refresh is sorted by title and holds exactly the tracks of the table readable both at the cleanup and at the reload, the catalog table holding the same tracks; the reload then starts a load of the current track, never another refresh |
| Session.RefreshedMembers | src/com/musicplayer/MusicPlayer.java:300-320 | a refresh keeps exactly the table's tracks readable at the cleanup and at the reload |
| Session.RefreshedTrackLoads | src/com/musicplayer/MusicPlayer.java:278 | a reload of a reconciled, non-empty playlist loads the current track |
| Session.RefreshTwice | src/com/musicplayer/MusicPlayer.java:300-320 | on unchanged files a second refresh leaves the table and the playlist as the first left them |
| Session.RefreshThenLoadLoads | src/com/musicplayer/MusicPlayer.java:1140-1163 | on unchanged files, loading the current track after a refresh that leaves tracks starts a real load, never a second refresh |
| Session.TimerTick | src/com/musicplayer/MusicPlayer.java:919-969 | a timer firing is ignored unless the player means to play and a clip is loaded; otherwise the monitor becomes the one the poll of the engine's position and duration returns, and unless that poll ends the track the player is unchanged and no work starts, while an ending poll hands over to `songEnd` |
| Session.TimerTickFarFromTheEnd | src/com/musicplayer/MusicPlayer.java:934-969 | a firing more than two seconds before the end of a playing track leaves the player as it is and starts no work, however long the position has stalled |
| Session.TimerTickAtTheEnd | src/com/musicplayer/MusicPlayer.java:934-969 | a firing in the last second of a playing track of a non-empty playlist starts a load or a refresh |

## Left out

- The Swing interface is not modelled: panels, renderers, fonts, dialogs, album art, window dragging, `CustomButton` and `CustomSlider`. `updateUIForEmptyPlaylist` only changes labels, so it is a no-op here.
- Threading (`SwingWorker`, `Timer`, `invokeLater`) is not modelled. Each asynchronous completion is a separate sequential step, and `Effect` names the work a step starts.
- The `playlist.size() == songsAddedCount` check after adding files (MusicPlayer.java:366) reads the playlist before the asynchronous reload has finished, so it is not modelled.
- The `audioPlayer.play()` that `nextSong` and `previousSong` call right after `loadCurrentSong` is not modelled. It acts on the engine before the asynchronous load has replaced the clip. The load worker's completion starts the new clip instead (`Session.LoadFinished`).
- The playlist view's selection listener (MusicPlayer.java:492-503) is modelled only where the reload re-selects the current index (line 278), as the load that `Coordinator.ReloadPlaylist` starts. When the current file is gone, the reload also calls `loadCurrentSong` directly (line 270), and that call selects the index again (line 1169), so the same load starts twice. The model starts it once. `nextSong` and `previousSong` select the index again too (lines 1058 and 1079), which repeats a refresh that `loadCurrentSong` has already started; that repeat is not modelled either. The listener's own `audioPlayer.play()` is left out for the same reason as the one in `nextSong`.
- `AudioEngine.Seek`: on a device fault the line keeps its running state, as if the fault came before `clip.stop()`. A fault after the stop would leave the line stopped. Either way the engine ends not playing, at position 0.
- `TimeFormat.FormatTime`: `String.format` uses the default locale, whose digits need not be the ASCII `0`-`9`. The model prints ASCII digits, which holds for locales that use them.
- The seek bar's change listener (MusicPlayer.java:716-727) is user interface wiring and is not modelled. `AudioEngine.Seek` is modelled.
- JDBC plumbing is not modelled: connections, SQL exceptions, the `id` and `added_at` columns, and the file-path index. An insert error other than the UNIQUE violation is logged and committed, so it is treated as never happening.
- `ORDER BY title` breaks ties in an order SQLite leaves unspecified. The model breaks them by stored order, a stable sort.
- `File.getAbsolutePath` is not modelled. The batch add is given the paths it stores, and the separator is `/`.
- Exceptions thrown by `Clip` inside `play`, `pause` and `stop` are not modelled. For `seek`, a device fault is a parameter.
- `AudioEngine.SetVolume`: the decibel mapping and `FloatControl` clamping are floating point and not modelled. Only the [0, 1] clamp of the stored volume is, over `real`.
- `Progress.Poll`: the `int` stuck counter is unbounded here. Wrap-around would take more than 2^31 polls of half a second.
- `Coordinator.Search`: the staleness check inside the `nextSong` loop is done once, before the loop. A rebuilt order is a permutation holding every index, so the check cannot fire again after the first pass (`Shuffle.PermutationCovers`).
- `Coordinator.PreviousSong`: two preconditions are made explicit. The source divides by zero on an empty playlist in sequential mode, and reads position -1 of an empty shuffle order.
- `Coordinator.NextSong`: requires the player invariant (`Coordinator.Inv`). Under it, an index of -1 occurs only with an empty playlist, the case the source returns on first.
- `JavaLang.IndexOf`: its contract does not say the position is the first. That is `JavaLang.IndexOfIsFirst`.
- `Progress.EndIsNearTheEnd`: stated for non-negative durations, the only ones `getDuration` gives for clips shorter than 2^31 seconds.
- `AudioEngine.SeekTarget`: a target inside the clip is kept exactly, even within its last second. Only a target at or past the end is pulled back, to one second before it (AudioPlayer.java:198-203).

## Findings

| source | as written | input that shows it | evidently intended | confidence | as-written member | corrected member |
|---|---|---|---|---|---|---|
| src/com/musicplayer/MusicPlayer.java:1185-1229 | When the load leaves no clip, `done()` throws `IllegalStateException` inside the runnable it hands to the event thread. The `try` around it has already exited, so the handler that skips to the next track (lines 1214-1229) never runs. The player keeps meaning to play with nothing loaded, and the progress timer ignores it from then on. | two readable tracks, playing from track 0, whose file does not decode (`UnsupportedFormat`) | a failed load with more than one track skips to the next track | not executed | Session.LoadFinishedAsWritten, Session.UndecodableFirstTrack | Session.LoadFinished |

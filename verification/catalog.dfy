/** The persistent catalog (`DatabaseManager`): the `Songs` table as a sequence of
    rows in stored (rowid) order, with the operations the player runs against it.
    The filesystem is a parameter; SQL plumbing and timestamps are not modelled. */
module Catalog {
  import JavaLang
  import Files
  import opened Song

  type Table = seq<Track>

  const UNKNOWN_ARTIST: string := "Unknown Artist"
  const UNKNOWN_ALBUM: string := "Unknown Album"

  /** The file paths stored in a table (or held by a list of tracks). */
  function Paths(t: seq<Track>): set<string> {
    set r | r in t :: r.filePath
  }

  /** The table's `file_path ... UNIQUE` constraint. */
  predicate UniquePaths(t: Table) {
    forall i, j :: 0 <= i < j < |t| ==> t[i].filePath != t[j].filePath
  }

  // ---------------------------------------------------------------------------
  // Adding files

  /** The title given to a new row: the file name up to its last '.', unless that
      '.' is the first character (or there is none), in which case the whole name. */
  function DefaultTitle(fileName: string): (title: string)
    ensures title <= fileName
    ensures |title| == 0 <==> |fileName| == 0
    ensures |title| < |fileName| ==> fileName[|title|] == '.' && '.' !in fileName[|title| + 1..]
    ensures |title| == |fileName| ==> forall k :: 0 < k < |fileName| ==> fileName[k] != '.'
  {
    var dot := JavaLang.LastIndexOf(fileName, '.');
    if dot > 0 then
      fileName[..dot]
    else
      NoDotAfterFirst(fileName, dot);
      fileName
  }

  lemma NoDotAfterFirst(fileName: string, dot: int)
    requires dot == JavaLang.LastIndexOf(fileName, '.') && dot <= 0
    ensures forall k :: 0 < k < |fileName| ==> fileName[k] != '.'
  {
    if dot == 0 {
      var rest := fileName[1..];
      assert '.' !in rest;
      assert forall k :: 0 < k < |fileName| ==> fileName[k] == rest[k - 1];
    } else {
      assert '.' !in fileName;
    }
  }

  /** The row inserted for a readable file. */
  function NewRow(path: string): Track {
    Track(DefaultTitle(Files.FileName(path)), UNKNOWN_ARTIST, UNKNOWN_ALBUM, path)
  }

  datatype Added = Added(table: Table, count: nat)

  /** `addSongsToDatabase`: each file in turn is skipped when it is not readable,
      skipped when its path is already stored (the UNIQUE constraint rejects the
      insert), and otherwise appended as a new row and counted. */
  function AddSongs(t: Table, files: seq<string>, fs: Files.FileSystem): (r: Added)
    ensures |r.table| == |t| + r.count
    ensures r.count <= |files|
    ensures r.table[..|t|] == t
    decreases |files|
  {
    if |files| == 0 then Added(t, 0)
    else
      var front := files[..|files| - 1];
      var path := files[|files| - 1];
      var prev := AddSongs(t, front, fs);
      if !fs.Readable(path) || path in Paths(prev.table) then prev
      else
        var table := prev.table + [NewRow(path)];
        assert table[..|t|] == prev.table[..|t|];
        Added(table, prev.count + 1)
  }

  /** A row `addSongsToDatabase` may insert for a batch: a readable file of the
      batch, titled from its name, with the placeholder artist and album. */
  predicate Inserted(row: Track, files: seq<string>, fs: Files.FileSystem) {
    row == NewRow(row.filePath) && row.filePath in files && fs.Readable(row.filePath)
  }

  /** Every row the batch appends is a readable file of the batch, with the
      derived title and the placeholder artist and album. */
  lemma {:induction false} AddSongsInsertsReadableFiles(t: Table, files: seq<string>, fs: Files.FileSystem)
    ensures forall k :: |t| <= k < |AddSongs(t, files, fs).table| ==> Inserted(AddSongs(t, files, fs).table[k], files, fs)
    decreases |files|
  {
    if |files| > 0 {
      var front := files[..|files| - 1];
      var path := files[|files| - 1];
      assert files == front + [path];
      AddSongsInsertsReadableFiles(t, front, fs);
      var prev := AddSongs(t, front, fs);
      var r := AddSongs(t, files, fs);
      forall k | |t| <= k < |r.table|
        ensures Inserted(r.table[k], files, fs)
      {
        if k < |prev.table| {
          assert r.table[k] == prev.table[k];
          assert Inserted(prev.table[k], front, fs);
          assert r.table[k].filePath in files;
        } else {
          assert r.table[k] == NewRow(path);
        }
      }
    }
  }

  /** The batch keeps file paths unique. */
  lemma {:induction false} AddSongsKeepsPathsUnique(t: Table, files: seq<string>, fs: Files.FileSystem)
    requires UniquePaths(t)
    ensures UniquePaths(AddSongs(t, files, fs).table)
    decreases |files|
  {
    if |files| > 0 {
      var front := files[..|files| - 1];
      var path := files[|files| - 1];
      AddSongsKeepsPathsUnique(t, front, fs);
      var prev := AddSongs(t, front, fs);
      if fs.Readable(path) && path !in Paths(prev.table) {
        AppendRow(prev.table, NewRow(path));
      }
    }
  }

  /** After the batch the table holds every path it held before and every
      readable path of the batch, and no other path. */
  lemma {:induction false} AddSongsPaths(t: Table, files: seq<string>, fs: Files.FileSystem)
    ensures Paths(AddSongs(t, files, fs).table) == Paths(t) + ReadablePaths(files, fs)
    decreases |files|
  {
    if |files| == 0 {
      assert ReadablePaths(files, fs) == {};
    } else {
      var front := files[..|files| - 1];
      var path := files[|files| - 1];
      assert files == front + [path];
      AddSongsPaths(t, front, fs);
      ReadablePathsSnoc(front, path, fs);
      var prev := AddSongs(t, front, fs);
      if fs.Readable(path) && path !in Paths(prev.table) {
        AppendRow(prev.table, NewRow(path));
      }
    }
  }

  /** The readable paths among a batch of files. */
  function ReadablePaths(files: seq<string>, fs: Files.FileSystem): set<string> {
    set p | p in files && fs.Readable(p)
  }

  lemma ReadablePathsSnoc(front: seq<string>, path: string, fs: Files.FileSystem)
    ensures ReadablePaths(front + [path], fs)
         == ReadablePaths(front, fs) + (if fs.Readable(path) then {path} else {})
    ensures forall p :: p in front ==> p in front + [path]
  {
    assert (front + [path])[..|front|] == front;
    assert forall p :: p in front + [path] <==> p in front || p == path;
  }

  /** Appending a row adds its path; a fresh path keeps the paths unique. */
  lemma AppendRow(t: Table, row: Track)
    ensures Paths(t + [row]) == Paths(t) + {row.filePath}
    ensures UniquePaths(t) && row.filePath !in Paths(t) ==> UniquePaths(t + [row])
  {
    assert forall r :: r in t + [row] <==> r in t || r == row;
    if UniquePaths(t) && row.filePath !in Paths(t) {
      forall i, j | 0 <= i < j < |t + [row]|
        ensures (t + [row])[i].filePath != (t + [row])[j].filePath
      {
        if j == |t| {
          assert t[i] in t;
        }
      }
    }
  }

  /** The readable paths of a batch that the table does not hold yet. */
  function NewPaths(t: Table, files: seq<string>, fs: Files.FileSystem): set<string> {
    set p | p in files && fs.Readable(p) && p !in Paths(t)
  }

  /** The count is the number of distinct readable paths of the batch that were not
      stored before: a duplicate, in the table or earlier in the batch, adds nothing. */
  lemma {:induction false} AddedCountIsNewPaths(t: Table, files: seq<string>, fs: Files.FileSystem)
    ensures AddSongs(t, files, fs).count == |NewPaths(t, files, fs)|
    decreases |files|
  {
    if |files| == 0 {
      assert NewPaths(t, files, fs) == {};
    } else {
      var front := files[..|files| - 1];
      var path := files[|files| - 1];
      assert files == front + [path];
      AddedCountIsNewPaths(t, front, fs);
      var prev := AddSongs(t, front, fs);
      var before := NewPaths(t, front, fs);
      assert path in Paths(prev.table) <==> path in Paths(t) || (path in front && fs.Readable(path)) by {
        AddSongsPaths(t, front, fs);
      }
      NewPathsSnoc(t, front, path, fs);
      if fs.Readable(path) && path !in Paths(t) && path !in front {
        assert path !in before;
        assert AddSongs(t, files, fs).count == prev.count + 1;
      } else {
        assert AddSongs(t, files, fs).count == prev.count;
        assert NewPaths(t, files, fs) == before;
      }
    }
  }

  lemma NewPathsSnoc(t: Table, front: seq<string>, path: string, fs: Files.FileSystem)
    ensures NewPaths(t, front + [path], fs)
         == NewPaths(t, front, fs) + (if fs.Readable(path) && path !in Paths(t) then {path} else {})
  {
    assert forall p :: p in front + [path] <==> p in front || p == path;
  }

  // ---------------------------------------------------------------------------
  // Deleting rows

  /** The rows whose path is not in `gone`, in stored order. */
  function DeleteWhere(t: Table, gone: set<string>): (r: Table)
    ensures forall x :: x in r <==> x in t && x.filePath !in gone
    ensures UniquePaths(t) ==> UniquePaths(r)
  {
    if |t| == 0 then []
    else
      assert t == [t[0]] + t[1..];
      var rest := DeleteWhere(t[1..], gone);
      if t[0].filePath in gone then rest
      else
        PrependRow(t, rest);
        [t[0]] + rest
  }

  /** A stored row's path is on no other row, so it may head any selection of
      the rows after it. */
  lemma PrependRow(t: Table, rest: Table)
    requires |t| > 0
    requires forall x :: x in rest ==> x in t[1..]
    ensures UniquePaths(t) ==> UniquePaths(t[1..])
    ensures UniquePaths(t) && UniquePaths(rest) ==> UniquePaths([t[0]] + rest)
  {
    if UniquePaths(t) {
      forall i, j | 0 <= i < j < |t| - 1
        ensures t[1..][i].filePath != t[1..][j].filePath
      {
        assert t[1..][i] == t[i + 1] && t[1..][j] == t[j + 1];
      }
      if UniquePaths(rest) {
        var u := [t[0]] + rest;
        forall i, j | 0 <= i < j < |u|
          ensures u[i].filePath != u[j].filePath
        {
          if i == 0 {
            assert u[j] in rest;
            var k :| 0 <= k < |t| - 1 && t[1..][k] == u[j];
            assert t[k + 1] == u[j];
          } else {
            assert u[i] == rest[i - 1] && u[j] == rest[j - 1];
          }
        }
      }
    }
  }

  /** The reading loop's filter keeps the stored paths unique. */
  lemma {:induction false} KeepReadableKeepsPathsUnique(fs: Files.FileSystem, t: Table)
    ensures UniquePaths(t) ==> UniquePaths(KeepReadable(fs, t))
  {
    if |t| > 0 && UniquePaths(t) {
      PrependRow(t, KeepReadable(fs, t[1..]));
      KeepReadableKeepsPathsUnique(fs, t[1..]);
    }
  }

  /** One `DELETE FROM Songs WHERE file_path = ?` per path, in the given order. */
  function DeleteEach(t: Table, paths: seq<string>): Table
    decreases |paths|
  {
    if |paths| == 0 then t else DeleteEach(DeleteWhere(t, {paths[0]}), paths[1..])
  }

  lemma {:induction false} DeleteWhereTwice(t: Table, a: set<string>, b: set<string>)
    ensures DeleteWhere(DeleteWhere(t, a), b) == DeleteWhere(t, a + b)
  {
    if |t| > 0 {
      DeleteWhereTwice(t[1..], a, b);
      var rest := DeleteWhere(t[1..], a);
      if t[0].filePath in a {
        assert DeleteWhere(t, a) == rest;
        assert DeleteWhere(t, a + b) == [] + DeleteWhere(t[1..], a + b);
      } else {
        var once := DeleteWhere(t, a);
        assert once == [t[0]] + rest;
        assert once[0] == t[0] && once[1..] == rest;
      }
    }
  }

  /** The delete loop removes exactly the rows whose path it was given. */
  lemma {:induction false} DeleteEachIsDeleteWhere(t: Table, paths: seq<string>)
    ensures DeleteEach(t, paths) == DeleteWhere(t, set p | p in paths)
    decreases |paths|
  {
    if |paths| == 0 {
      assert (set p | p in paths) == {};
      DeleteWhereNothing(t);
    } else {
      var first := DeleteWhere(t, {paths[0]});
      var later := set p | p in paths[1..];
      DeleteEachIsDeleteWhere(first, paths[1..]);
      DeleteWhereTwice(t, {paths[0]}, later);
      PathsSplit(paths);
    }
  }

  /** The paths of a non-empty list are its first path and the paths after it. */
  lemma PathsSplit(paths: seq<string>)
    requires |paths| > 0
    ensures (set p | p in paths) == {paths[0]} + (set p | p in paths[1..])
  {
    assert paths == [paths[0]] + paths[1..];
  }

  lemma {:induction false} DeleteWhereNothing(t: Table)
    ensures DeleteWhere(t, {}) == t
  {
    if |t| > 0 {
      DeleteWhereNothing(t[1..]);
      assert t == [t[0]] + t[1..];
    }
  }

  /** Deleting the paths that are unreadable leaves exactly the readable rows. */
  lemma {:induction false} DeleteUnreadable(t: Table, gone: set<string>, fs: Files.FileSystem)
    requires forall x :: x in t ==> (x.filePath in gone <==> !fs.Readable(x.filePath))
    ensures DeleteWhere(t, gone) == KeepReadable(fs, t)
  {
    if |t| > 0 {
      assert t[0] in t;
      assert forall x :: x in t[1..] ==> x in t;
      DeleteUnreadable(t[1..], gone, fs);
    }
  }

  // ---------------------------------------------------------------------------
  // Reconciliation

  /** The paths of the unreadable rows, in the order the query returned them. */
  function InvalidPaths(fs: Files.FileSystem, rows: seq<Track>): (r: seq<string>)
    ensures forall p :: p in r <==> exists x :: x in rows && x.filePath == p && !fs.Readable(p)
  {
    if |rows| == 0 then []
    else
      assert rows == [rows[0]] + rows[1..];
      (if fs.Readable(rows[0].filePath) then [] else [rows[0].filePath]) + InvalidPaths(fs, rows[1..])
  }

  datatype Reconciled = Reconciled(playlist: seq<Track>, table: Table)

  /** The deletes `loadValidPlaylist` issues leave exactly the readable rows. */
  lemma DeleteInvalidKeepsReadable(t: Table, fs: Files.FileSystem)
    ensures DeleteEach(t, InvalidPaths(fs, SortByTitle(t))) == KeepReadable(fs, t)
  {
    var rows := SortByTitle(t);
    var invalid := InvalidPaths(fs, rows);
    var gone := set p | p in invalid;
    DeleteEachIsDeleteWhere(t, invalid);
    forall x | x in t
      ensures x.filePath in gone <==> !fs.Readable(x.filePath)
    {
      assert x in multiset(rows);
      assert x in rows;
    }
    DeleteUnreadable(t, gone, fs);
  }

  /** `loadValidPlaylist`: reads every row ordered by title, keeps the readable
      ones as the playlist and deletes the rest from the table. */
  function LoadValidPlaylist(t: Table, fs: Files.FileSystem): (r: Reconciled)
    ensures SortedByTitle(r.playlist)
    ensures multiset(r.playlist) == multiset(r.table)
    ensures forall x :: x in r.playlist <==> x in t && fs.Readable(x.filePath)
    ensures r.table == KeepReadable(fs, t)
    ensures UniquePaths(t) ==> UniquePaths(r.table)
  {
    KeepReadableKeepsPathsUnique(fs, t);
    var rows := SortByTitle(t);
    var kept := KeepReadable(fs, t);
    DeleteInvalidKeepsReadable(t, fs);
    KeepReadableSort(fs, t);
    var playlist := KeepReadable(fs, rows);
    assert playlist == SortByTitle(kept);
    forall x ensures x in playlist <==> x in kept {
      assert x in playlist <==> x in multiset(playlist);
      assert x in kept <==> x in multiset(kept);
    }
    Reconciled(playlist, DeleteEach(t, InvalidPaths(fs, rows)))
  }

  /** The playlist is the readable rows of the stored table, sorted by title. */
  lemma ReconciledPlaylistIsSortedTable(t: Table, fs: Files.FileSystem)
    ensures LoadValidPlaylist(t, fs).playlist == SortByTitle(LoadValidPlaylist(t, fs).table)
  {
    KeepReadableSort(fs, t);
  }

  /** With the filesystem unchanged, a second reconciliation deletes nothing and
      returns the same playlist. */
  lemma LoadValidPlaylistIdempotent(t: Table, fs: Files.FileSystem)
    ensures LoadValidPlaylist(LoadValidPlaylist(t, fs).table, fs) == LoadValidPlaylist(t, fs)
  {
    var once := LoadValidPlaylist(t, fs);
    KeepReadableIdempotent(fs, t);
    KeepReadableSort(fs, t);
    KeepReadableSort(fs, once.table);
    KeepReadableIdempotent(fs, SortByTitle(t));
  }

  datatype Cleaned = Cleaned(table: Table, removed: nat)

  /** The re-check loop of `cleanupInvalidSongs`: each song whose file is not
      readable now has its path deleted and is counted. */
  function RemoveUnreadable(t: Table, songs: seq<Track>, fs: Files.FileSystem): (r: Cleaned)
    ensures r.removed == |songs| - |KeepReadable(fs, songs)|
    ensures r.removed == 0 <==> forall x :: x in songs ==> fs.Readable(x.filePath)
    ensures forall x :: x in r.table <==> x in t && !(x.filePath in Paths(songs) && !fs.Readable(x.filePath))
    ensures UniquePaths(t) ==> UniquePaths(r.table)
    decreases |songs|
  {
    if |songs| == 0 then Cleaned(t, 0)
    else
      var s := songs[0];
      assert songs == [s] + songs[1..];
      if fs.Readable(s.filePath) then RemoveUnreadable(t, songs[1..], fs)
      else
        var rest := RemoveUnreadable(DeleteWhere(t, {s.filePath}), songs[1..], fs);
        Cleaned(rest.table, rest.removed + 1)
  }

  /** `cleanupInvalidSongs`: reconciles with the filesystem as it is at load time,
      then re-checks the returned songs against the filesystem as it is afterwards. */
  function CleanupInvalidSongs(t: Table, atLoad: Files.FileSystem, atCheck: Files.FileSystem): (r: Cleaned)
    ensures r.removed == |KeepReadable(atLoad, t)| - |KeepReadable(atCheck, KeepReadable(atLoad, t))|
    ensures forall x :: x in r.table <==> x in t && atLoad.Readable(x.filePath) && atCheck.Readable(x.filePath)
    ensures UniquePaths(t) ==> UniquePaths(r.table)
    ensures r.removed == 0 <==>
              forall x :: x in t && atLoad.Readable(x.filePath) ==> atCheck.Readable(x.filePath)
  {
    var loaded := LoadValidPlaylist(t, atLoad);
    assert |loaded.playlist| == |loaded.table| by {
      assert |multiset(loaded.playlist)| == |multiset(loaded.table)|;
    }
    var r := RemoveUnreadable(loaded.table, loaded.playlist, atCheck);
    assert forall x :: x in r.table ==> atCheck.Readable(x.filePath) by {
      forall x | x in r.table ensures atCheck.Readable(x.filePath) {
        assert x in loaded.playlist;
      }
    }
    forall x | x in loaded.table && atCheck.Readable(x.filePath)
      ensures x in r.table
    {
      assert x in multiset(loaded.table);
    }
    RemovedCount(t, atLoad, atCheck);
    r
  }

  /** The re-check counts the loaded songs it finds unreadable: the playlist it
      walks is the reconciled table in title order, which has as many readable
      entries as the table itself. */
  lemma RemovedCount(t: Table, atLoad: Files.FileSystem, atCheck: Files.FileSystem)
    ensures var loaded := LoadValidPlaylist(t, atLoad);
            |loaded.playlist| - |KeepReadable(atCheck, loaded.playlist)|
            == |KeepReadable(atLoad, t)| - |KeepReadable(atCheck, KeepReadable(atLoad, t))|
  {
    var loaded := LoadValidPlaylist(t, atLoad);
    var kept := KeepReadable(atLoad, t);
    ReconciledPlaylistIsSortedTable(t, atLoad);
    assert loaded.playlist == SortByTitle(kept);
    KeepReadableSort(atCheck, kept);
    assert |SortByTitle(kept)| == |kept| by {
      assert |multiset(SortByTitle(kept))| == |multiset(kept)|;
    }
    var k2 := KeepReadable(atCheck, kept);
    assert |SortByTitle(k2)| == |k2| by {
      assert |multiset(SortByTitle(k2))| == |multiset(k2)|;
    }
  }

  /** Run on a stable filesystem, the cleanup finds nothing left to remove: the
      reconciliation it starts with has already deleted every unreadable row. */
  lemma CleanupOnStableFilesystemRemovesNothing(t: Table, fs: Files.FileSystem)
    ensures CleanupInvalidSongs(t, fs, fs).removed == 0
    ensures CleanupInvalidSongs(t, fs, fs).table == LoadValidPlaylist(t, fs).table
  {
    var loaded := LoadValidPlaylist(t, fs);
    NothingRemovedKeepsTable(loaded.table, loaded.playlist, fs);
  }

  lemma {:induction false} NothingRemovedKeepsTable(t: Table, songs: seq<Track>, fs: Files.FileSystem)
    requires forall x :: x in songs ==> fs.Readable(x.filePath)
    ensures RemoveUnreadable(t, songs, fs).table == t
    decreases |songs|
  {
    if |songs| > 0 {
      assert songs[0] in songs;
      assert forall x :: x in songs[1..] ==> x in songs;
      NothingRemovedKeepsTable(t, songs[1..], fs);
    }
  }

  /** `isValidSongPath`: the number of rows with that path. */
  function CountPath(t: Table, path: string): (n: nat)
    ensures n <= |t|
  {
    if |t| == 0 then 0 else (if t[0].filePath == path then 1 else 0) + CountPath(t[1..], path)
  }

  /** `isValidSongPath`: some row has the path, and the file is readable. */
  function IsValidSongPath(t: Table, fs: Files.FileSystem, path: string): (valid: bool)
    ensures valid <==> path in Paths(t) && fs.Readable(path)
  {
    CountPathPositive(t, path);
    CountPath(t, path) > 0 && fs.Readable(path)
  }

  lemma {:induction false} CountPathPositive(t: Table, path: string)
    ensures CountPath(t, path) > 0 <==> path in Paths(t)
  {
    if |t| > 0 {
      CountPathPositive(t[1..], path);
      assert t == [t[0]] + t[1..];
      assert Paths(t) == {t[0].filePath} + Paths(t[1..]);
    }
  }

  /** Under the uniqueness constraint a path names at most one row. */
  lemma {:induction false} UniquePathCountAtMostOne(t: Table, path: string)
    requires UniquePaths(t)
    ensures CountPath(t, path) <= 1
  {
    if |t| > 0 {
      UniquePathCountAtMostOne(t[1..], path);
      if t[0].filePath == path {
        CountPathPositive(t[1..], path);
        assert path !in Paths(t[1..]);
      }
    }
  }
}

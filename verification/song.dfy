/** A track of the playlist, and the order the catalog lists tracks in
    (`ORDER BY title ASC` under SQLite's default BINARY collation). */
module Song {
  import Files

  /** One catalog row / playlist entry. The file path is the identity. */
  datatype Track = Track(title: string, artist: string, album: string, filePath: string)

  /** BINARY collation: code-point lexicographic order, a proper prefix first.
      (UTF-8 byte order and code-point order agree, so this is what `memcmp` sees.) */
  predicate TitleLeq(a: string, b: string)
  {
    |a| == 0 || (|b| > 0 && (a[0] < b[0] || (a[0] == b[0] && TitleLeq(a[1..], b[1..]))))
  }

  lemma {:induction false} TitleLeqTotal(a: string, b: string)
    ensures TitleLeq(a, b) || TitleLeq(b, a)
  {
    if |a| > 0 && |b| > 0 && a[0] == b[0] {
      TitleLeqTotal(a[1..], b[1..]);
    }
  }

  lemma {:induction false} TitleLeqTransitive(a: string, b: string, c: string)
    requires TitleLeq(a, b) && TitleLeq(b, c)
    ensures TitleLeq(a, c)
  {
    if |a| > 0 && a[0] == b[0] && b[0] == c[0] {
      TitleLeqTransitive(a[1..], b[1..], c[1..]);
    }
  }

  predicate SortedByTitle(s: seq<Track>) {
    forall i, j :: 0 <= i < j < |s| ==> TitleLeq(s[i].title, s[j].title)
  }

  /** A track no later than every track of a sorted list can go in front of it. */
  lemma PrependSorted(t: Track, s: seq<Track>)
    requires SortedByTitle(s)
    requires forall j :: 0 <= j < |s| ==> TitleLeq(t.title, s[j].title)
    ensures SortedByTitle([t] + s)
  {
    var r := [t] + s;
    forall i, j | 0 <= i < j < |r|
      ensures TitleLeq(r[i].title, r[j].title)
    {
      assert r[j] == s[j - 1];
      if i > 0 {
        assert r[i] == s[i - 1];
      }
    }
  }

  /** Places `t` before the first track whose title is not below it. */
  function InsertByTitle(t: Track, s: seq<Track>): (r: seq<Track>)
    ensures multiset(r) == multiset(s) + multiset{t}
  {
    if |s| == 0 then [t]
    else if TitleLeq(t.title, s[0].title) then [t] + s
    else
      assert s == [s[0]] + s[1..];
      [s[0]] + InsertByTitle(t, s[1..])
  }

  /** Inserting into a sorted list keeps it sorted. */
  lemma {:induction false} InsertKeepsSorted(t: Track, s: seq<Track>)
    requires SortedByTitle(s)
    ensures SortedByTitle(InsertByTitle(t, s))
  {
    if |s| == 0 {
    } else if TitleLeq(t.title, s[0].title) {
      forall j | 0 <= j < |s|
        ensures TitleLeq(t.title, s[j].title)
      {
        if j > 0 {
          TitleLeqTransitive(t.title, s[0].title, s[j].title);
        }
      }
      PrependSorted(t, s);
    } else {
      var rest := InsertByTitle(t, s[1..]);
      InsertKeepsSorted(t, s[1..]);
      TitleLeqTotal(t.title, s[0].title);
      forall j | 0 <= j < |rest|
        ensures TitleLeq(s[0].title, rest[j].title)
      {
        assert rest[j] in multiset(rest);
        if rest[j] != t {
          assert rest[j] in multiset(s[1..]);
          var k :| 0 <= k < |s[1..]| && s[1..][k] == rest[j];
          assert s[k + 1] == rest[j];
        }
      }
      PrependSorted(s[0], rest);
    }
  }

  /** The rows of a query `ORDER BY title`, ties kept in stored order. */
  function SortByTitle(s: seq<Track>): (r: seq<Track>)
    ensures multiset(r) == multiset(s)
    ensures SortedByTitle(r)
  {
    if |s| == 0 then []
    else
      assert s == [s[0]] + s[1..];
      InsertKeepsSorted(s[0], SortByTitle(s[1..]));
      InsertByTitle(s[0], SortByTitle(s[1..]))
  }

  /** The tracks whose file is readable, in their original order. */
  function KeepReadable(fs: Files.FileSystem, s: seq<Track>): (r: seq<Track>)
    ensures |r| <= |s|
    ensures forall t :: t in r <==> t in s && fs.Readable(t.filePath)
    ensures multiset(r) <= multiset(s)
  {
    if |s| == 0 then []
    else
      assert s == [s[0]] + s[1..];
      if fs.Readable(s[0].filePath) then [s[0]] + KeepReadable(fs, s[1..])
      else KeepReadable(fs, s[1..])
  }

  /** Keeping the readable tracks twice keeps the same tracks. */
  lemma {:induction false} KeepReadableIdempotent(fs: Files.FileSystem, s: seq<Track>)
    ensures KeepReadable(fs, KeepReadable(fs, s)) == KeepReadable(fs, s)
  {
    if |s| > 0 {
      KeepReadableIdempotent(fs, s[1..]);
      if fs.Readable(s[0].filePath) {
        assert ([s[0]] + KeepReadable(fs, s[1..]))[1..] == KeepReadable(fs, s[1..]);
      }
    }
  }

  /** Filtering commutes with one insertion step of the stable sort. */
  lemma {:induction false} KeepReadableInsert(fs: Files.FileSystem, t: Track, s: seq<Track>)
    requires SortedByTitle(s)
    ensures KeepReadable(fs, InsertByTitle(t, s))
         == if fs.Readable(t.filePath) then InsertByTitle(t, KeepReadable(fs, s)) else KeepReadable(fs, s)
  {
    if |s| == 0 {
    } else if TitleLeq(t.title, s[0].title) {
      assert ([t] + s)[1..] == s;
      KeptFollow(fs, t, s);
    } else {
      var rest := InsertByTitle(t, s[1..]);
      assert ([s[0]] + rest)[1..] == rest;
      KeepReadableInsert(fs, t, s[1..]);
      if fs.Readable(s[0].filePath) {
        var f := KeepReadable(fs, s[1..]);
        assert ([s[0]] + f)[1..] == f;
      }
    }
  }

  /** A track no later than the head of a sorted list is no later than the
      first of its readable tracks. */
  lemma KeptFollow(fs: Files.FileSystem, t: Track, s: seq<Track>)
    requires SortedByTitle(s) && |s| > 0 && TitleLeq(t.title, s[0].title)
    ensures var f := KeepReadable(fs, s); |f| > 0 ==> TitleLeq(t.title, f[0].title)
  {
    var f := KeepReadable(fs, s);
    if |f| > 0 {
      assert f[0] in s;
      var k :| 0 <= k < |s| && s[k] == f[0];
      if k > 0 {
        TitleLeqTransitive(t.title, s[0].title, s[k].title);
      }
    }
  }

  /** Sorting the readable tracks gives the readable tracks of the sorted list. */
  lemma {:induction false} KeepReadableSort(fs: Files.FileSystem, s: seq<Track>)
    ensures KeepReadable(fs, SortByTitle(s)) == SortByTitle(KeepReadable(fs, s))
  {
    if |s| > 0 {
      KeepReadableSort(fs, s[1..]);
      KeepReadableInsert(fs, s[0], SortByTitle(s[1..]));
    }
  }
}

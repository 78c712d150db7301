/**
 * The keep-latest rule of `AudioExtractor.cleanup_old_files`: the regular
 * files of the directory, newest first (Python's stable sort on the
 * modification time, reversed), of which everything after the first
 * `keep_latest` is scheduled for deletion.
 */
module Retention {
  import opened Text

  /** One entry of `os.listdir`, with what `os.path.isfile` and `os.path.getmtime` say about it. */
  datatype DirEntry = DirEntry(name: string, isFile: bool, mtime: int)

  /** One `(path, mtime)` pair of the `files` list. */
  datatype FileEntry = FileEntry(path: string, mtime: int)

  /** Joining two path components the POSIX way: an absolute `b` replaces `a`, otherwise one separator goes between. */
  function JoinPath(a: string, b: string): string {
    if StartsWith(b, "/") then b
    else if a == "" || EndsWith(a, "/") then a + b
    else a + "/" + b
  }

  /** The `files` list the first loop builds: the regular files, in listing order. */
  function CollectFiles(dir: string, listing: seq<DirEntry>): seq<FileEntry>
    decreases |listing|
  {
    if listing == [] then []
    else
      var e := listing[|listing| - 1];
      CollectFiles(dir, listing[..|listing| - 1]) + (if e.isFile then [FileEntry(JoinPath(dir, e.name), e.mtime)] else [])
  }

  // ---------------------------------------------------------------------------
  // Sorting by modification time, newest first

  predicate SortedDesc(s: seq<FileEntry>) {
    forall i, j :: 0 <= i < j < |s| ==> s[i].mtime >= s[j].mtime
  }

  /** Puts `x` after every entry at least as new, so entries of equal time keep their order. */
  function Insert(s: seq<FileEntry>, x: FileEntry): (r: seq<FileEntry>)
    ensures |r| == |s| + 1
    decreases |s|
  {
    if s == [] then [x]
    else if s[0].mtime < x.mtime then [x] + s
    else [s[0]] + Insert(s[1..], x)
  }

  /** The list after the sort: newest first, ties in their original order. */
  function SortByMtimeDesc(s: seq<FileEntry>): seq<FileEntry>
    decreases |s|
  {
    if s == [] then [] else Insert(SortByMtimeDesc(s[..|s| - 1]), s[|s| - 1])
  }

  lemma {:induction false} InsertKeepsSorted(s: seq<FileEntry>, x: FileEntry)
    requires SortedDesc(s)
    ensures SortedDesc(Insert(s, x))
    ensures multiset(Insert(s, x)) == multiset(s) + multiset{x}
    ensures Insert(s, x)[0] == (if s == [] || s[0].mtime < x.mtime then x else s[0])
    decreases |s|
  {
    if s != [] && s[0].mtime >= x.mtime {
      InsertKeepsSorted(s[1..], x);
      assert s == [s[0]] + s[1..];
    }
  }

  /** The sort orders newest first and is a permutation of its input. */
  lemma {:induction false} SortSortsAndPermutes(s: seq<FileEntry>)
    ensures SortedDesc(SortByMtimeDesc(s))
    ensures multiset(SortByMtimeDesc(s)) == multiset(s)
    decreases |s|
  {
    if s != [] {
      var n := |s| - 1;
      SortSortsAndPermutes(s[..n]);
      InsertKeepsSorted(SortByMtimeDesc(s[..n]), s[n]);
      assert s == s[..n] + [s[n]];
    }
  }

  lemma SortIsSorted(s: seq<FileEntry>)
    ensures SortedDesc(SortByMtimeDesc(s))
  {
    SortSortsAndPermutes(s);
  }

  /** The entries of modification time `t`, in order. */
  function WithTime(s: seq<FileEntry>, t: int): seq<FileEntry>
    decreases |s|
  {
    if s == [] then [] else (if s[0].mtime == t then [s[0]] else []) + WithTime(s[1..], t)
  }

  lemma {:induction false} WithTimeConcat(a: seq<FileEntry>, b: seq<FileEntry>, t: int)
    ensures WithTime(a + b, t) == WithTime(a, t) + WithTime(b, t)
    decreases |a|
  {
    if a != [] {
      WithTimeConcat(a[1..], b, t);
      assert (a + b)[1..] == a[1..] + b;
    } else {
      assert a + b == b;
    }
  }

  lemma {:induction false} InsertWithTime(s: seq<FileEntry>, x: FileEntry, t: int)
    requires SortedDesc(s)
    ensures WithTime(Insert(s, x), t) == WithTime(s, t) + (if x.mtime == t then [x] else [])
    decreases |s|
  {
    if s == [] {
    } else if s[0].mtime < x.mtime {
      if x.mtime == t {
        NoneWithTime(s, t);
      }
    } else {
      InsertWithTime(s[1..], x, t);
    }
  }

  lemma {:induction false} NoneWithTime(s: seq<FileEntry>, t: int)
    requires forall i :: 0 <= i < |s| ==> s[i].mtime < t
    ensures WithTime(s, t) == []
    decreases |s|
  {
    if s != [] {
      NoneWithTime(s[1..], t);
    }
  }

  /** The sort is stable: the entries of any one modification time come out in the order they went in. */
  lemma {:induction false} SortIsStable(s: seq<FileEntry>, t: int)
    ensures WithTime(SortByMtimeDesc(s), t) == WithTime(s, t)
    decreases |s|
  {
    if s != [] {
      var n := |s| - 1;
      var init, x := s[..n], s[n];
      var sorted := SortByMtimeDesc(init);
      assert SortByMtimeDesc(s) == Insert(sorted, x);
      SortIsStable(init, t);
      SortIsSorted(init);
      InsertWithTime(sorted, x, t);
      assert s == init + [x];
      WithTimeConcat(init, [x], t);
      assert WithTime([x], t) == (if x.mtime == t then [x] else []) by {
        assert [x][1..] == [];
      }
    }
  }

  // ---------------------------------------------------------------------------
  // Keeping the newest `keep_latest`

  /** Where the slice `files[k:]` starts for a list of length `n`: a negative `k` counts from the end. */
  function SliceStart(n: nat, k: int): (start: nat)
    ensures start <= n
  {
    if k >= 0 then (if k <= n then k else n)
    else if n + k >= 0 then n + k else 0
  }

  /** The files scheduled for deletion, `files[keep_latest:]`. */
  function Scheduled(files: seq<FileEntry>, keepLatest: int): seq<FileEntry> {
    files[SliceStart(|files|, keepLatest)..]
  }

  /** The files kept, `files[:keep_latest]`. */
  function Kept(files: seq<FileEntry>, keepLatest: int): seq<FileEntry> {
    files[..SliceStart(|files|, keepLatest)]
  }

  /**
   * The kept and scheduled files split the list without loss; for
   * `keep_latest >= 0` the number scheduled is `max(0, len(files) - keep_latest)`,
   * and a negative `keep_latest` schedules the last `min(len(files), -keep_latest)`
   * files.
   */
  lemma ScheduledCount(files: seq<FileEntry>, keepLatest: int)
    ensures Kept(files, keepLatest) + Scheduled(files, keepLatest) == files
    ensures keepLatest >= 0 ==>
      |Scheduled(files, keepLatest)| == (if |files| > keepLatest then |files| - keepLatest else 0)
    ensures keepLatest < 0 ==>
      |Scheduled(files, keepLatest)| == (if -keepLatest < |files| then -keepLatest else |files|)
  {
  }

  /** On the sorted list every kept file is at least as new as every file scheduled for deletion. */
  lemma KeptAreNewest(files: seq<FileEntry>, keepLatest: int)
    requires SortedDesc(files)
    ensures forall a, b :: (0 <= a < |Kept(files, keepLatest)| && 0 <= b < |Scheduled(files, keepLatest)|
      ==> Kept(files, keepLatest)[a].mtime >= Scheduled(files, keepLatest)[b].mtime)
  {
    var st := SliceStart(|files|, keepLatest);
    forall a, b | 0 <= a < |Kept(files, keepLatest)| && 0 <= b < |Scheduled(files, keepLatest)|
      ensures Kept(files, keepLatest)[a].mtime >= Scheduled(files, keepLatest)[b].mtime
    {
      assert Kept(files, keepLatest)[a] == files[a];
      assert Scheduled(files, keepLatest)[b] == files[st + b];
    }
  }

  /** The paths of a list of files. */
  function Paths(files: seq<FileEntry>): (ps: seq<string>)
    ensures |ps| == |files| && forall i :: 0 <= i < |files| ==> ps[i] == files[i].path
  {
    seq(|files|, i requires 0 <= i < |files| => files[i].path)
  }
}

/** Local retention: listing the snapshot files of a folder newest first by
    modification time, and deleting every file past a given position. */
module Rotation {
  import opened Seqs
  import opened LocalFs

  /** One element of the list `orderedReccentFiles` returns. */
  datatype FileStat = FileStat(file: string, mtime: int)

  function FileNames(s: seq<FileStat>): (names: seq<string>)
    ensures |names| == |s|
    ensures forall i :: 0 <= i < |s| ==> names[i] == s[i].file
  {
    if s == [] then [] else [s[0].file] + FileNames(s[1..])
  }

  /** The comparator `(a, b) => b.mtime - a.mtime` is negative exactly when `a` is newer. */
  predicate Newer(a: FileStat, b: FileStat)
  {
    b.mtime - a.mtime < 0
  }

  lemma NewerIsStrictWeakOrder()
    ensures StrictWeakOrder(Newer)
  {
  }

  /** What `orderedReccentFiles(folder)` promises: each regular file of the folder
      exactly once, with its modification time, newest first. Directories (such as
      the `monthly` folder inside `daily`) are not listed. */
  ghost predicate NewestFirst(ordered: seq<FileStat>, entries: map<Path, Entry>, folder: Path)
  {
    && Distinct(FileNames(ordered))
    && (forall n :: n in RegularFiles(entries, folder) <==> n in FileNames(ordered))
    && (forall i :: 0 <= i < |ordered| ==>
          folder + [ordered[i].file] in entries && entries[folder + [ordered[i].file]] == Entry(true, ordered[i].mtime))
    && (forall i, j :: 0 <= i < j < |ordered| ==> ordered[i].mtime >= ordered[j].mtime)
  }

  /** The `lstatSync(...).isFile()` filter of the listing. */
  function FilesOnly(entries: map<Path, Entry>, folder: Path, listing: seq<string>): (files: seq<string>)
    ensures forall n :: n in files <==> n in listing && folder + [n] in entries && entries[folder + [n]].isFile
  {
    Filter(listing, n => folder + [n] in entries && entries[folder + [n]].isFile)
  }

  /** The `.map(file => ({file, mtime}))` step. */
  function Stats(entries: map<Path, Entry>, folder: Path, files: seq<string>): (stats: seq<FileStat>)
    requires forall n :: n in files ==> folder + [n] in entries
    ensures FileNames(stats) == files
    ensures forall i :: 0 <= i < |stats| ==> stats[i].mtime == entries[folder + [files[i]]].mtime
  {
    if files == [] then []
    else [FileStat(files[0], entries[folder + [files[0]]].mtime)] + Stats(entries, folder, files[1..])
  }

  /** The filter/map/sort pipeline of `orderedReccentFiles`, on a given listing. */
  function OrderRecent(entries: map<Path, Entry>, folder: Path, listing: seq<string>): seq<FileStat>
  {
    var files := FilesOnly(entries, folder, listing);
    Sort(Stats(entries, folder, files), Newer)
  }

  /** Whatever order the directory is listed in, the pipeline yields the regular
      files newest first. */
  lemma OrderRecentIsNewestFirst(entries: map<Path, Entry>, folder: Path, listing: seq<string>)
    requires Distinct(listing)
    requires forall n :: n in listing <==> folder + [n] in entries
    ensures NewestFirst(OrderRecent(entries, folder, listing), entries, folder)
  {
    var files := FilesOnly(entries, folder, listing);
    var stats := Stats(entries, folder, files);
    var ordered := Sort(stats, Newer);
    NewerIsStrictWeakOrder();
    SortSorted(stats, Newer);
    assert forall i, j :: 0 <= i < j < |ordered| ==> !Newer(ordered[j], ordered[i]);
    FilterIsDistinct(listing, n => folder + [n] in entries && entries[folder + [n]].isFile);
    StatsDistinct(entries, folder, files);
    PermutationDistinct(stats, ordered);
    PermutedStats(entries, folder, files, ordered);
  }

  lemma StatsDistinct(entries: map<Path, Entry>, folder: Path, files: seq<string>)
    requires forall n :: n in files ==> folder + [n] in entries
    requires Distinct(files)
    ensures Distinct(Stats(entries, folder, files))
  {
    var stats := Stats(entries, folder, files);
    forall i, j | 0 <= i < j < |stats| ensures stats[i] != stats[j] {
      assert FileNames(stats)[i] != FileNames(stats)[j];
    }
  }

  /** Any reordering of the stats of distinct regular files lists each regular file
      once with its own modification time. */
  lemma PermutedStats(entries: map<Path, Entry>, folder: Path, files: seq<string>, ordered: seq<FileStat>)
    requires forall n :: n in files <==> folder + [n] in entries && entries[folder + [n]].isFile
    requires multiset(ordered) == multiset(Stats(entries, folder, files))
    requires Distinct(ordered)
    ensures Distinct(FileNames(ordered))
    ensures forall n :: n in RegularFiles(entries, folder) <==> n in FileNames(ordered)
    ensures forall i :: 0 <= i < |ordered| ==>
          folder + [ordered[i].file] in entries && entries[folder + [ordered[i].file]] == Entry(true, ordered[i].mtime)
  {
    forall i | 0 <= i < |ordered|
      ensures folder + [ordered[i].file] in entries && entries[folder + [ordered[i].file]] == Entry(true, ordered[i].mtime)
    {
      StatOfPermutation(entries, folder, files, ordered, i);
    }
    NamesOfStatsDistinct(entries, folder, ordered);
    forall n | n in RegularFiles(entries, folder) ensures n in FileNames(ordered) {
      FileOfPermutation(entries, folder, files, ordered, n);
    }
  }

  /** Stats taken from one folder with different entries have different names. */
  lemma NamesOfStatsDistinct(entries: map<Path, Entry>, folder: Path, ordered: seq<FileStat>)
    requires Distinct(ordered)
    requires forall i :: 0 <= i < |ordered| ==>
          folder + [ordered[i].file] in entries && entries[folder + [ordered[i].file]] == Entry(true, ordered[i].mtime)
    ensures Distinct(FileNames(ordered))
  {
    var names := FileNames(ordered);
    forall i, j | 0 <= i < j < |ordered| ensures names[i] != names[j] {
      assert ordered[i] != ordered[j];
    }
  }

  lemma FileOfPermutation(entries: map<Path, Entry>, folder: Path, files: seq<string>, ordered: seq<FileStat>, n: string)
    requires n in files
    requires forall n :: n in files ==> folder + [n] in entries
    requires multiset(ordered) == multiset(Stats(entries, folder, files))
    ensures n in FileNames(ordered)
  {
    var stats := Stats(entries, folder, files);
    var k :| 0 <= k < |files| && files[k] == n;
    assert FileNames(stats)[k] == n;
    assert stats[k] in multiset(ordered);
    var i :| 0 <= i < |ordered| && ordered[i] == stats[k];
    assert FileNames(ordered)[i] == n;
  }

  lemma StatOfPermutation(entries: map<Path, Entry>, folder: Path, files: seq<string>, ordered: seq<FileStat>, i: nat)
    requires forall n :: n in files <==> folder + [n] in entries && entries[folder + [n]].isFile
    requires multiset(ordered) == multiset(Stats(entries, folder, files))
    requires i < |ordered|
    ensures folder + [ordered[i].file] in entries && entries[folder + [ordered[i].file]] == Entry(true, ordered[i].mtime)
  {
    var stats := Stats(entries, folder, files);
    assert ordered[i] in multiset(stats);
    var k :| 0 <= k < |stats| && stats[k] == ordered[i];
    assert FileNames(stats)[k] == files[k];
    assert files[k] in files;
  }

  /** Number of files `keepMostRecentFiles(folder, k)` leaves among `n`: all of them
      unless `n > k`, and otherwise what is in front of `slice(k)`. */
  function Kept(n: nat, k: int): (c: nat)
    ensures c <= n
    ensures k >= 0 ==> c == if n <= k then n else k
    ensures k < 0 ==> c == if n + k < 0 then 0 else n + k
  {
    if n > k then ClampIndex(k, n) else n
  }

  /** The paths `keepMostRecentFiles(folder, k)` unlinks, given the newest-first list. */
  function PrunedPaths(ordered: seq<FileStat>, folder: Path, k: int): (paths: set<Path>)
    ensures forall i :: Kept(|ordered|, k) <= i < |ordered| ==> folder + [ordered[i].file] in paths
    ensures forall p :: p in paths ==> exists i :: Kept(|ordered|, k) <= i < |ordered| && p == folder + [ordered[i].file]
  {
    if |ordered| > k then
      var doomed := SliceFrom(ordered, k);
      assert forall i :: Kept(|ordered|, k) <= i < |ordered| ==> ordered[i] == doomed[i - Kept(|ordered|, k)];
      set i | 0 <= i < |doomed| :: folder + [doomed[i].file]
    else {}
  }

  /** With at most `k` regular files in the folder nothing is deleted. */
  lemma PruneNothingWhenFew(entries: map<Path, Entry>, folder: Path, ordered: seq<FileStat>, k: int)
    requires NewestFirst(ordered, entries, folder)
    requires |RegularFiles(entries, folder)| <= k
    ensures PrunedPaths(ordered, folder, k) == {}
  {
    NamesCardinality(FileNames(ordered));
    assert (set n | n in FileNames(ordered)) == RegularFiles(entries, folder);
  }

  lemma {:induction false} NamesCardinality(s: seq<string>)
    requires Distinct(s)
    ensures |set n | n in s| == |s|
  {
    if s != [] {
      NamesCardinality(s[1..]);
      assert (set n | n in s) == (set n | n in s[1..]) + {s[0]};
      assert s[0] !in s[1..];
    }
  }

  /** What `keepMostRecentFiles(folder, k)` leaves behind: the regular files of the
      folder are exactly the first `Kept(n, k)` of the newest-first list (for `k >= 0`
      the `k` newest, or all when there are no more than `k`), none of them older than
      a deleted one, and nothing outside the deleted files changes. */
  lemma PruneKeepsNewest(entries: map<Path, Entry>, folder: Path, ordered: seq<FileStat>, k: int)
    requires NewestFirst(ordered, entries, folder)
    ensures var after := entries - PrunedPaths(ordered, folder, k);
      && (forall n :: n in RegularFiles(after, folder) <==> n in FileNames(ordered[..Kept(|ordered|, k)]))
      && |RegularFiles(after, folder)| == Kept(|ordered|, k)
      && (forall p :: p in PrunedPaths(ordered, folder, k) ==>
            p in entries && entries[p].isFile && |p| == |folder| + 1 && p[..|folder|] == folder)
      && (forall p :: p in entries && p !in PrunedPaths(ordered, folder, k) ==> p in after && after[p] == entries[p])
      && (forall i, j :: 0 <= i < Kept(|ordered|, k) <= j < |ordered| ==> ordered[i].mtime >= ordered[j].mtime)
  {
    var after := entries - PrunedPaths(ordered, folder, k);
    var c := Kept(|ordered|, k);
    PruneSurvivors(entries, folder, ordered, k);
    var names := FileNames(ordered);
    assert Distinct(FileNames(ordered[..c])) by {
      assert forall i :: 0 <= i < c ==> FileNames(ordered[..c])[i] == names[i];
    }
    NamesCardinality(FileNames(ordered[..c]));
    assert RegularFiles(after, folder) == (set n | n in FileNames(ordered[..c]));
    PrunedAreFolderFiles(entries, folder, ordered, k);
  }

  /** A regular file of the folder survives exactly when it is among the first
      `Kept(n, k)` of the list. */
  lemma PruneSurvivors(entries: map<Path, Entry>, folder: Path, ordered: seq<FileStat>, k: int)
    requires NewestFirst(ordered, entries, folder)
    ensures forall n :: n in RegularFiles(entries - PrunedPaths(ordered, folder, k), folder) <==>
                        n in FileNames(ordered[..Kept(|ordered|, k)])
  {
    forall n ensures n in RegularFiles(entries - PrunedPaths(ordered, folder, k), folder) <==>
                     n in FileNames(ordered[..Kept(|ordered|, k)])
    {
      if n in FileNames(ordered[..Kept(|ordered|, k)]) {
        KeptSurvives(entries, folder, ordered, k, n);
      }
      if n in RegularFiles(entries - PrunedPaths(ordered, folder, k), folder) {
        SurvivorWasKept(entries, folder, ordered, k, n);
      }
    }
  }

  lemma KeptSurvives(entries: map<Path, Entry>, folder: Path, ordered: seq<FileStat>, k: int, n: string)
    requires NewestFirst(ordered, entries, folder)
    requires n in FileNames(ordered[..Kept(|ordered|, k)])
    ensures n in RegularFiles(entries - PrunedPaths(ordered, folder, k), folder)
  {
    var c := Kept(|ordered|, k);
    var names := FileNames(ordered);
    var i :| 0 <= i < c && FileNames(ordered[..c])[i] == n;
    assert names[i] == n;
    forall j | c <= j < |ordered| ensures folder + [n] != folder + [ordered[j].file] {
      assert names[j] != n;
      assert (folder + [ordered[j].file])[|folder|] == ordered[j].file;
    }
  }

  lemma SurvivorWasKept(entries: map<Path, Entry>, folder: Path, ordered: seq<FileStat>, k: int, n: string)
    requires NewestFirst(ordered, entries, folder)
    requires n in RegularFiles(entries - PrunedPaths(ordered, folder, k), folder)
    ensures n in FileNames(ordered[..Kept(|ordered|, k)])
  {
    var c := Kept(|ordered|, k);
    var names := FileNames(ordered);
    assert n in RegularFiles(entries, folder);
    var i :| 0 <= i < |ordered| && names[i] == n;
    assert i < c;
    assert FileNames(ordered[..c])[i] == n;
  }

  /** Only regular files directly inside the folder are deleted. */
  lemma PrunedAreFolderFiles(entries: map<Path, Entry>, folder: Path, ordered: seq<FileStat>, k: int)
    requires NewestFirst(ordered, entries, folder)
    ensures forall p :: p in PrunedPaths(ordered, folder, k) ==>
              p in entries && entries[p].isFile && |p| == |folder| + 1 && p[..|folder|] == folder
  {
    forall p | p in PrunedPaths(ordered, folder, k)
      ensures p in entries && entries[p].isFile && |p| == |folder| + 1 && p[..|folder|] == folder
    {
      var i :| Kept(|ordered|, k) <= i < |ordered| && p == folder + [ordered[i].file];
      assert p[..|folder|] == folder;
    }
  }

  /** What `keepMostRecentFiles` unlinks when there are more than `k` files: the
      tail `slice(k)` of the list, distinct regular files of the folder. */
  lemma DoomedTail(entries: map<Path, Entry>, folder: Path, ordered: seq<FileStat>, k: int)
    requires NewestFirst(ordered, entries, folder) && |ordered| > k
    ensures var doomed := SliceFrom(ordered, k);
      && Distinct(FileNames(doomed))
      && (forall j :: 0 <= j < |doomed| ==>
            folder + [doomed[j].file] in entries && entries[folder + [doomed[j].file]].isFile)
  {
    var doomed := SliceFrom(ordered, k);
    var c := Kept(|ordered|, k);
    assert forall j :: 0 <= j < |doomed| ==> doomed[j] == ordered[c + j];
    forall i, j | 0 <= i < j < |doomed| ensures FileNames(doomed)[i] != FileNames(doomed)[j] {
      assert FileNames(doomed)[i] == FileNames(ordered)[c + i];
      assert FileNames(doomed)[j] == FileNames(ordered)[c + j];
    }
  }

  /** The pruned paths are those of the tail, all inside the folder. */
  lemma PrunedTail(entries: map<Path, Entry>, folder: Path, ordered: seq<FileStat>, k: int)
    requires NewestFirst(ordered, entries, folder) && |ordered| > k
    ensures var doomed := SliceFrom(ordered, k);
      PrunedPaths(ordered, folder, k) == (set j | 0 <= j < |doomed| :: folder + [doomed[j].file])
    ensures forall p :: p in PrunedPaths(ordered, folder, k) ==> ChildOf(p, folder)
  {
    PrunedAreFolderFiles(entries, folder, ordered, k);
  }

  /** Keeping at least one file always keeps a file strictly newer than all the others,
      and leaves no more than `k` regular files. */
  lemma NewestSurvives(entries: map<Path, Entry>, folder: Path, ordered: seq<FileStat>, k: int, b: string)
    requires NewestFirst(ordered, entries, folder)
    requires k >= 1
    requires b in RegularFiles(entries, folder)
    requires forall n :: n in RegularFiles(entries, folder) && n != b ==>
               entries[folder + [n]].mtime < entries[folder + [b]].mtime
    ensures folder + [b] in entries - PrunedPaths(ordered, folder, k)
    ensures |RegularFiles(entries - PrunedPaths(ordered, folder, k), folder)| <= k
  {
    PruneKeepsNewest(entries, folder, ordered, k);
    var names := FileNames(ordered);
    var i :| 0 <= i < |ordered| && names[i] == b;
    assert ordered[0].mtime >= ordered[i].mtime;
    assert names[0] in RegularFiles(entries, folder);
    assert names[0] == b;
    var c := Kept(|ordered|, k);
    assert FileNames(ordered[..c])[0] == b;
    assert b in RegularFiles(entries - PrunedPaths(ordered, folder, k), folder);
  }

  /** The names `listDailyDumps` and `listMonthlyDumps` return: each regular file of the
      folder once, newest first. */
  ghost predicate NewestFirstNames(files: seq<string>, entries: map<Path, Entry>, folder: Path)
  {
    && Distinct(files)
    && (forall n :: n in RegularFiles(entries, folder) <==> n in files)
    && (forall i :: 0 <= i < |files| ==> folder + [files[i]] in entries)
    && (forall i, j :: 0 <= i < j < |files| ==> entries[folder + [files[i]]].mtime >= entries[folder + [files[j]]].mtime)
  }

  lemma NamesNewestFirst(ordered: seq<FileStat>, entries: map<Path, Entry>, folder: Path)
    requires NewestFirst(ordered, entries, folder)
    ensures NewestFirstNames(FileNames(ordered), entries, folder)
  {
  }

  /** A file written at a time later than every file of the folder is the newest one. */
  lemma CopyIsNewest(entries: map<Path, Entry>, folder: Path, name: string, time: int)
    requires forall n :: n in FilesOf(entries, folder) ==> FilesOf(entries, folder)[n] < time
    ensures var after := entries[folder + [name] := Entry(true, time)];
      && name in RegularFiles(after, folder)
      && forall n :: n in RegularFiles(after, folder) && n != name ==> after[folder + [n]].mtime < after[folder + [name]].mtime
  {
    var after := entries[folder + [name] := Entry(true, time)];
    FilesAfterWrite(entries, folder, name, time);
    forall n | n in RegularFiles(after, folder) && n != name
      ensures after[folder + [n]].mtime < after[folder + [name]].mtime
    {
      assert n in FilesOf(after, folder);
      assert FilesOf(after, folder)[n] == FilesOf(entries, folder)[n];
    }
  }

  /** A file whose time is later than that of every other file of its folder is the
      newest one, read on `FilesOf`. */
  lemma NewestByFiles(entries: map<Path, Entry>, folder: Path, name: string, time: int, others: map<string, int>)
    requires FilesOf(entries, folder) == others[name := time]
    requires forall n :: n in others ==> others[n] < time
    ensures name in RegularFiles(entries, folder)
    ensures forall n :: n in RegularFiles(entries, folder) && n != name ==>
              entries[folder + [n]].mtime < entries[folder + [name]].mtime
  {
    assert name in FilesOf(entries, folder);
    forall n | n in RegularFiles(entries, folder) && n != name
      ensures entries[folder + [n]].mtime < entries[folder + [name]].mtime
    {
      assert n in FilesOf(entries, folder);
      assert n in others;
    }
  }

  /** `b` is a file whose time is later than that of every other file. */
  ghost predicate Newest(files: map<string, int>, b: string)
  {
    b in files && forall n :: n in files && n != b ==> files[n] < files[b]
  }

  /** What pruning a set of files, each with its time, to `k` promises: with at most
      `k` files nothing goes; every file left was there before, with the same time;
      exactly `Kept(n, k)` files are left, none of them older than a removed one; and
      when at least one file is kept, a file strictly newer than all the others stays.
      Which of several files with the same time stay depends on the listing order,
      which is why the survivors are pinned down by count and age rather than by name. */
  ghost predicate PrunedFiles(before: map<string, int>, after: map<string, int>, k: int)
  {
    && (|before| <= k ==> after == before)
    && (forall n :: n in after ==> n in before && after[n] == before[n])
    && |after| == Kept(|before|, k)
    && (forall s, r :: s in after && r in before && r !in after ==> before[s] >= before[r])
    && (forall b :: k >= 1 && Newest(before, b) ==> b in after && |after| <= k)
  }

  /** The same, read on the regular files of one folder. */
  ghost predicate PrunedTo(before: map<Path, Entry>, after: map<Path, Entry>, folder: Path, k: int)
  {
    PrunedFiles(FilesOf(before, folder), FilesOf(after, folder), k)
  }

  /** `keepMostRecentFiles` read on the files of the folder: with no more than `k` of
      them nothing changes; the survivors are files that were there, unchanged, exactly
      `Kept(n, k)` of them and none older than a deleted one; and for `k >= 1` a file
      strictly newer than all the others survives. */
  lemma PruneOutcome(entries: map<Path, Entry>, folder: Path, ordered: seq<FileStat>, k: int)
    requires NewestFirst(ordered, entries, folder)
    ensures PrunedTo(entries, entries - PrunedPaths(ordered, folder, k), folder, k)
  {
    var after := entries - PrunedPaths(ordered, folder, k);
    ListedCount(entries, folder, ordered);
    PruneCount(entries, folder, ordered, k);
    PruneByAge(entries, folder, ordered, k);
    if |RegularFiles(entries, folder)| <= k {
      PruneNothingWhenFew(entries, folder, ordered, k);
      assert after == entries;
    }
    forall b | k >= 1 && Newest(FilesOf(entries, folder), b)
      ensures b in FilesOf(after, folder) && |RegularFiles(after, folder)| <= k
    {
      forall n | n in RegularFiles(entries, folder) && n != b
        ensures entries[folder + [n]].mtime < entries[folder + [b]].mtime
      {
        assert n in FilesOf(entries, folder);
      }
      NewestSurvives(entries, folder, ordered, k, b);
      assert b in RegularFiles(after, folder);
    }
  }
  /** The folder held as many regular files as the list has entries. */
  lemma ListedCount(entries: map<Path, Entry>, folder: Path, ordered: seq<FileStat>)
    requires NewestFirst(ordered, entries, folder)
    ensures |FilesOf(entries, folder)| == |ordered|
  {
    NamesCardinality(FileNames(ordered));
    assert (set n | n in FileNames(ordered)) == FilesOf(entries, folder).Keys;
  }

  /** The folder keeps `Kept(n, k)` regular files. */
  lemma PruneCount(entries: map<Path, Entry>, folder: Path, ordered: seq<FileStat>, k: int)
    requires NewestFirst(ordered, entries, folder)
    ensures |FilesOf(entries - PrunedPaths(ordered, folder, k), folder)| == Kept(|ordered|, k)
  {
    var after := entries - PrunedPaths(ordered, folder, k);
    PruneKeepsNewest(entries, folder, ordered, k);
    assert FilesOf(after, folder).Keys == RegularFiles(after, folder);
  }

  /** A surviving file is no older than a deleted one. */
  lemma SurvivorNoOlder(entries: map<Path, Entry>, folder: Path, ordered: seq<FileStat>, k: int, s: string, r: string)
    requires NewestFirst(ordered, entries, folder)
    requires s in RegularFiles(entries - PrunedPaths(ordered, folder, k), folder)
    requires r in RegularFiles(entries, folder)
    requires r !in RegularFiles(entries - PrunedPaths(ordered, folder, k), folder)
    ensures entries[folder + [s]].mtime >= entries[folder + [r]].mtime
  {
    var c := Kept(|ordered|, k);
    var names := FileNames(ordered);
    SurvivorWasKept(entries, folder, ordered, k, s);
    var i :| 0 <= i < c && FileNames(ordered[..c])[i] == s;
    assert names[i] == s;
    var j :| 0 <= j < |ordered| && names[j] == r;
    assert j >= c by {
      if j < c {
        KeptSurvives(entries, folder, ordered, k, r);
        assert false;
      }
    }
  }

  /** No surviving file is older than a deleted one, read on the files of the folder. */
  lemma PruneByAge(entries: map<Path, Entry>, folder: Path, ordered: seq<FileStat>, k: int)
    requires NewestFirst(ordered, entries, folder)
    ensures var before := FilesOf(entries, folder);
            var after := FilesOf(entries - PrunedPaths(ordered, folder, k), folder);
            forall s, r :: s in after && r in before && r !in after ==> before[s] >= before[r]
  {
    var pruned := entries - PrunedPaths(ordered, folder, k);
    var before := FilesOf(entries, folder);
    var after := FilesOf(pruned, folder);
    forall s, r | s in after && r in before && r !in after
      ensures before[s] >= before[r]
    {
      SurvivorNoOlder(entries, folder, ordered, k, s, r);
    }
  }
}

/** `DbDumper`: takes a dump, keeps the newest dumps of its folder, keeps the first
    dump of each month in `monthly`, and sends the dump to an FTP server where the
    same two rotations run on names. The disk is a `Disk`, the FTP server a value
    passed in and out, the clock reading `now` a parameter shared by every call of
    one run, and the outcome of the `mariadb-dump` pipe a parameter. */
module Dumper {
  import opened Seqs
  import opened LocalFs
  import opened Rotation
  import Clock
  import MonthPattern
  import DumpNames
  import Ftp
  import JsText

  /** The `dumper` section of the options; every field is optional. The cron
      expression and `dumpOnDataBaseUpdate` are not used here. */
  datatype DumperConfig = DumperConfig(
    dumpPath: Option<string>,
    numberFilesToKeep: Option<int>,
    numberMonthlyFilesToKeep: Option<int>,
    ftpHost: Option<string>,
    ftpPort: Option<int>,
    ftpUser: Option<string>,
    ftpPassword: Option<string>,
    ftpPath: Option<string>,
    ftpSecure: Option<Ftp.Secure>)

  /** `n || fallback` for an optional number: absent and 0 give the fallback, any other
      value (negative ones included) is kept. */
  function CountOr(n: Option<int>, fallback: int): (r: int)
    ensures n.Some? && n.value != 0 ==> r == n.value
    ensures fallback != 0 ==> r != 0
    ensures n.Some? && n.value < 0 ==> r == n.value
    ensures r == fallback || (n.Some? && r == n.value)
  {
    if n.Some? && n.value != 0 then n.value else fallback
  }

  /** `typeof s === 'string' && s.length > 0`, which is also what makes `s || x` pick `s`. */
  predicate Given(s: Option<string>)
  {
    s.Some? && s.value != ""
  }

  /** `path.join(cwd(), dumpPath || './backup/', manual ? 'manual' : 'daily')`. */
  function DumpFolderPath(home: Path, dumpPath: Option<string>, manual: bool): (p: Path)
    requires Clean(home)
    ensures Clean(p)
    ensures p == Join(home, if Given(dumpPath) then dumpPath.value else "./backup/") + [if manual then "manual" else "daily"]
  {
    var base := if Given(dumpPath) then dumpPath.value else "./backup/";
    var leaf := if manual then "manual" else "daily";
    NormalizeAppendPlain(home, JsText.Split(base, '/'), leaf);
    Normalize(home, JsText.Split(base, '/') + [leaf])
  }

  /** `path.join(dumpFolder(), 'monthly')`. */
  function MonthlyFolderPath(home: Path, dumpPath: Option<string>, manual: bool): (p: Path)
    requires Clean(home)
    ensures p == DumpFolderPath(home, dumpPath, manual) + ["monthly"]
  {
    JoinName(DumpFolderPath(home, dumpPath, manual), "monthly");
    Join(DumpFolderPath(home, dumpPath, manual), "monthly")
  }

  /** A manual dumper and a scheduled one with the same options work in different
      folders: no file directly inside the manual folder is one of the daily or the
      monthly folder, so pruning one never deletes from the others. */
  lemma FoldersApart(home: Path, dumpPath: Option<string>, n: string, m: string)
    requires Clean(home)
    ensures DumpFolderPath(home, dumpPath, true) + [n] != DumpFolderPath(home, dumpPath, false) + [m]
    ensures DumpFolderPath(home, dumpPath, true) + [n] != MonthlyFolderPath(home, dumpPath, false) + [m]
    ensures DumpFolderPath(home, dumpPath, false) + [n] != MonthlyFolderPath(home, dumpPath, false) + [m]
  {
    var manual := DumpFolderPath(home, dumpPath, true);
    var daily := DumpFolderPath(home, dumpPath, false);
    assert |manual| == |daily|;
    assert (manual + [n])[|manual| - 1] == "manual";
    assert (daily + [m])[|daily| - 1] == "daily";
  }

  /** How a `mariadb-dump | gzip > file` pipe ends: the write stream finishes (also when
      `mariadb-dump` itself failed, as only write-stream errors are listened to), or it
      errors after or before creating the file. */
  datatype WriteOutcome = Finished | FailedAfterOpen | FailedBeforeOpen

  /** How the promise of `dumpDatabase` ends: resolved with a value; rejected, when
      `dumpFolder()` throws before the pipe is set up; or never, when `onSuccess` throws
      inside the write stream's `finish` handler, as `resolve(true)` is then never
      reached. The async handler's own promise is rejected and nothing handles it,
      which ends the process on Node 15 and later unless the application handles
      unhandled rejections; the model does not capture the process ending. */
  datatype Settlement = Resolved(value: bool) | Rejected | Pending

  /** Neither the database name nor the postfix holds a '/', so the dump's name is a
      single path component. */
  predicate Flat(dbName: string, postfix: string)
  {
    '/' !in dbName && '/' !in postfix
  }

  /** Then `path.join(dumpFolder(), fileName)` is the file `fileName` of that folder. */
  lemma FlatTarget(home: Path, dumpPath: Option<string>, manual: bool, dbName: string, postfix: string, now: Clock.DateTime)
    requires Clean(home) && Clock.Valid(now) && Flat(dbName, postfix)
    ensures var folder := DumpFolderPath(home, dumpPath, manual);
      Join(folder, DumpNames.DumpName(dbName, postfix, now)) == folder + [DumpNames.DumpName(dbName, postfix, now)]
  {
    var name := DumpNames.DumpName(dbName, postfix, now);
    DumpNames.DumpNameOneComponent(dbName, postfix, now);
    JoinName(DumpFolderPath(home, dumpPath, manual), name);
  }

  /** The files of the dump folder after `WriteDump` on one of its names. */
  lemma WrittenFiles(before: map<Path, Entry>, after: map<Path, Entry>, folder: Path, name: string,
                     finished: bool, time: int)
    requires finished ==> after == before[folder + [name] := Entry(true, time)]
    requires !finished ==> after == if IsDir(before, folder + [name]) then before else before - {folder + [name]}
    ensures finished ==> FilesOf(after, folder) == FilesOf(before, folder)[name := time]
    ensures !finished ==> FilesOf(after, folder) == FilesOf(before, folder) - {name}
  {
    if finished {
      FilesAfterWrite(before, folder, name, time);
    } else if IsDir(before, folder + [name]) {
      assert name !in FilesOf(before, folder);
      assert FilesOf(before, folder) - {name} == FilesOf(before, folder);
    } else {
      FilesAfterDelete(before, folder, name);
    }
  }

  /** A dump written at `time`, later than every other file of the folder, is the newest
      file there, so a pruning that keeps the newest file keeps it. */
  lemma DumpSurvives(before: map<Path, Entry>, dumped: map<Path, Entry>, after: map<Path, Entry>, folder: Path,
                     name: string, time: int, k: int)
    requires FilesOf(dumped, folder) == FilesOf(before, folder)[name := time]
    requires PrunedTo(dumped, after, folder, k)
    ensures k >= 1 && (forall n :: n in FilesOf(before, folder) && n != name ==> FilesOf(before, folder)[n] < time)
            ==> name in FilesOf(after, folder) && |RegularFiles(after, folder)| <= k
  {
    if k >= 1 && (forall n :: n in FilesOf(before, folder) && n != name ==> FilesOf(before, folder)[n] < time) {
      assert Newest(FilesOf(dumped, folder), name);
    }
  }

  class DbDumper {
    const dbName: string
    const settings: DumperConfig
    /** The process's working directory, `cwd()`. */
    const home: Path
    const filesToKeep: int
    const monthlyFilesToKeep: int
    const manual: bool
    /** Whether the constructor started the cron job. */
    const scheduled: bool

    /** What every operation needs: a normal working directory and a database name the
        monthly pattern reads literally. */
    predicate Valid()
    {
      && Clean(home) && MonthPattern.PlainText(dbName)
      && filesToKeep == CountOr(settings.numberFilesToKeep, 5)
      && monthlyFilesToKeep == CountOr(settings.numberMonthlyFilesToKeep, 6)
    }

    constructor(dbName: string, settings: DumperConfig, home: Path, scheduleImmediately: bool, manual: bool)
      requires Clean(home) && MonthPattern.PlainText(dbName)
      ensures Valid()
      ensures this.dbName == dbName && this.settings == settings && this.home == home && this.manual == manual
      ensures filesToKeep == CountOr(settings.numberFilesToKeep, 5)
      ensures monthlyFilesToKeep == CountOr(settings.numberMonthlyFilesToKeep, 6)
      ensures scheduled <==> scheduleImmediately && filesToKeep >= 1
    {
      this.dbName := dbName;
      this.settings := settings;
      this.home := home;
      filesToKeep := CountOr(settings.numberFilesToKeep, 5);
      monthlyFilesToKeep := CountOr(settings.numberMonthlyFilesToKeep, 6);
      this.manual := manual;
      scheduled := scheduleImmediately && CountOr(settings.numberFilesToKeep, 5) >= 1;
    }

    /** `dumpFolder()`: the folder, created with its missing ancestors. Recursive
        `mkdirSync` throws (`ok` false) when an ancestor is a regular file; a path that
        exists is left as it is, even a file, since `existsSync` skips the `mkdirSync`. */
    method DumpFolder(fs: Disk) returns (ok: bool, folder: Path)
      requires Valid() && fs.Valid()
      modifies fs
      ensures fs.Valid()
      ensures folder == DumpFolderPath(home, settings.dumpPath, manual)
      ensures ok <==> !UnderFile(old(fs.entries), folder)
      ensures ok ==> folder in fs.entries
      ensures ok && folder !in old(fs.entries) ==> IsDir(fs.entries, folder)
      ensures !ok || folder in old(fs.entries) ==> fs.entries == old(fs.entries)
      ensures OnlyDirsAdded(old(fs.entries), fs.entries)
      ensures forall p :: p in fs.entries && p !in old(fs.entries) ==> |p| <= |folder|
    {
      folder := DumpFolderPath(home, settings.dumpPath, manual);
      ok := fs.EnsureFolder(folder, 0);
    }

    /** `monthlyDumpFolder()`: `dumpFolder()`, whose failure propagates, then the same
        for `monthly` inside it. */
    method MonthlyDumpFolder(fs: Disk) returns (ok: bool, folder: Path)
      requires Valid() && fs.Valid()
      modifies fs
      ensures fs.Valid()
      ensures folder == MonthlyFolderPath(home, settings.dumpPath, manual)
      ensures ok <==> !UnderFile(old(fs.entries), folder)
      ensures ok ==> folder in fs.entries
      ensures ok && folder !in old(fs.entries) ==> IsDir(fs.entries, folder)
      ensures !ok || folder in old(fs.entries) ==> fs.entries == old(fs.entries)
      ensures OnlyDirsAdded(old(fs.entries), fs.entries)
      ensures forall p :: p in fs.entries && p !in old(fs.entries) ==> |p| <= |folder|
    {
      var daily;
      ok, daily := DumpFolder(fs);
      folder := Join(daily, "monthly");
      JoinName(daily, "monthly");
      UnderFileSnoc(old(fs.entries), daily, "monthly");
      if !ok {
        return;
      }
      ghost var created := fs.entries;
      UnderFileWithDirs(old(fs.entries), created, folder);
      assert folder[..|daily|] == daily;
      assert folder in old(fs.entries) ==> IsDir(old(fs.entries), daily);
      assert folder !in created ==> folder !in old(fs.entries);
      ok := fs.EnsureFolder(folder, 0);
      DirsCompose(old(fs.entries), created, fs.entries);
    }

    /** `dumpFileName(postfix)`, the postfix "" standing for an absent one. */
    method DumpFileName(now: Clock.DateTime, postfix: string) returns (fileName: string)
      requires Clock.Valid(now)
      ensures fileName == DumpNames.DumpName(dbName, postfix, now)
    {
      fileName := dbName;
      if postfix != "" {
        fileName := fileName + "_" + postfix;
      }
      fileName := fileName + "_" + Clock.Format(now) + ".sql.gz";
    }

    /** `orderedReccentFiles(folder)`: the regular files, newest first, whatever order
        the directory is read in; `readdirSync` throws unless `folder` is a directory. */
    method OrderedRecentFiles(fs: Disk, folder: Path) returns (ok: bool, ordered: seq<FileStat>)
      requires fs.Valid()
      ensures ok <==> IsDir(fs.entries, folder)
      ensures ok ==> NewestFirst(ordered, fs.entries, folder)
    {
      var names;
      ordered := [];
      ok, names := fs.ReadDir(folder);
      if ok {
        ordered := OrderRecent(fs.entries, folder, names);
        OrderRecentIsNewestFirst(fs.entries, folder, names);
      }
    }

    /** `listDailyDumps()`: throws when the dump folder is, or lies below, a file. */
    method ListDailyDumps(fs: Disk) returns (ok: bool, files: seq<string>)
      requires Valid() && fs.Valid()
      modifies fs
      ensures fs.Valid()
      ensures ok <==> !Obstructed(old(fs.entries), DumpFolderPath(home, settings.dumpPath, manual))
      ensures ok ==> NewestFirstNames(files, fs.entries, DumpFolderPath(home, settings.dumpPath, manual))
      ensures OnlyDirsAdded(old(fs.entries), fs.entries)
    {
      files := [];
      var folder;
      ok, folder := DumpFolder(fs);
      if !ok {
        return;
      }
      var ordered;
      ok, ordered := OrderedRecentFiles(fs, folder);
      if ok {
        NamesNewestFirst(ordered, fs.entries, folder);
        files := FileNames(ordered);
      }
    }

    /** `listMonthlyDumps()`: throws when the monthly folder is, or lies below, a file. */
    method ListMonthlyDumps(fs: Disk) returns (ok: bool, files: seq<string>)
      requires Valid() && fs.Valid()
      modifies fs
      ensures fs.Valid()
      ensures ok <==> !Obstructed(old(fs.entries), MonthlyFolderPath(home, settings.dumpPath, manual))
      ensures ok ==> NewestFirstNames(files, fs.entries, MonthlyFolderPath(home, settings.dumpPath, manual))
      ensures OnlyDirsAdded(old(fs.entries), fs.entries)
    {
      files := [];
      var folder;
      ok, folder := MonthlyDumpFolder(fs);
      if !ok {
        return;
      }
      var ordered;
      ok, ordered := OrderedRecentFiles(fs, folder);
      if ok {
        NamesNewestFirst(ordered, fs.entries, folder);
        files := FileNames(ordered);
      }
    }

    /** `keepMostRecentFiles(folder, k)`: unlinks `slice(k)` of the newest-first list,
        one file after the other; it throws, removing nothing, unless `folder` is a
        directory. */
    method KeepMostRecentFiles(fs: Disk, folder: Path, k: int) returns (ok: bool, ghost ordered: seq<FileStat>)
      requires fs.Valid()
      modifies fs
      ensures fs.Valid()
      ensures ok <==> IsDir(old(fs.entries), folder)
      ensures !ok ==> fs.entries == old(fs.entries)
      ensures ok ==> NewestFirst(ordered, old(fs.entries), folder)
      ensures ok ==> fs.entries == old(fs.entries) - PrunedPaths(ordered, folder, k)
      ensures ChangesOnlyIn(old(fs.entries), fs.entries, folder)
    {
      var listed;
      ok, listed := OrderedRecentFiles(fs, folder);
      ordered := listed;
      if !ok {
        return;
      }
      ghost var before := fs.entries;
      if |listed| > k {
        DoomedTail(fs.entries, folder, listed, k);
        PrunedTail(fs.entries, folder, listed, k);
        UnlinkEach(fs, folder, SliceFrom(listed, k));
      }
      PrunedAreFolderFiles(before, folder, ordered, k);
      assert forall p :: p in PrunedPaths(ordered, folder, k) ==> ChildOf(p, folder);
      RemovalChangesOnlyIn(before, PrunedPaths(ordered, folder, k), folder);
    }

    /** The `forEach` of `keepMostRecentFiles`: `unlinkSync` on each file in turn. */
    method UnlinkEach(fs: Disk, folder: Path, doomed: seq<FileStat>)
      requires fs.Valid()
      requires Distinct(FileNames(doomed))
      requires forall j :: 0 <= j < |doomed| ==>
                 folder + [doomed[j].file] in fs.entries && fs.entries[folder + [doomed[j].file]].isFile
      modifies fs
      ensures fs.Valid()
      ensures fs.entries == old(fs.entries) - (set j | 0 <= j < |doomed| :: folder + [doomed[j].file])
    {
      var i := 0;
      while i < |doomed|
        invariant 0 <= i <= |doomed|
        invariant fs.Valid()
        invariant fs.entries == old(fs.entries) - (set j | 0 <= j < i :: folder + [doomed[j].file])
      {
        var path := folder + [doomed[i].file];
        forall j | 0 <= j < i ensures folder + [doomed[j].file] != path {
          assert FileNames(doomed)[j] != FileNames(doomed)[i];
          assert (folder + [doomed[j].file])[|folder|] == doomed[j].file;
        }
        var ok := fs.Unlink(path);
        assert (set j | 0 <= j < i + 1 :: folder + [doomed[j].file])
            == (set j | 0 <= j < i :: folder + [doomed[j].file]) + {path};
        i := i + 1;
      }
    }

    /** Some name directly inside `folder` matches the monthly pattern of `now`. */
    ghost predicate MonthArchived(entries: map<Path, Entry>, folder: Path, now: Clock.DateTime)
      requires Valid() && Clock.Valid(now)
    {
      exists n :: folder + [n] in entries && MonthPattern.MonthlyMatch(dbName, now, n)
    }

    /** When `monthlyStorage` throws for a dump named `name`: the monthly folder cannot
        be a directory, or the month has no dump there yet and `name` is taken there by a
        directory, so that `copyFileSync` fails. */
    ghost predicate MonthlyFails(entries: map<Path, Entry>, name: string, now: Clock.DateTime)
      requires Valid() && Clock.Valid(now)
    {
      var folder := MonthlyFolderPath(home, settings.dumpPath, manual);
      || Obstructed(entries, folder)
      || (!MonthArchived(entries, folder, now) && IsDir(entries, folder + [name]))
    }

    /** `monthlyStorage(file)`: when no name in the monthly folder matches the month of
        `now`, copies the dump in under its own name and prunes the folder to
        `monthlyFilesToKeep`; otherwise it only makes sure the folder exists. It throws,
        changing nothing, exactly in the cases `MonthlyFails` names. When the copy matches
        the pattern (a dump taken without postfix does) and survives the pruning (at
        least one file kept, the copy the newest) the month then counts as archived, so
        a second call in the same month leaves the folder alone. */
    method MonthlyStorage(fs: Disk, file: Path, now: Clock.DateTime) returns (ok: bool)
      requires Valid() && Clock.Valid(now) && fs.Valid()
      requires file in fs.entries && fs.entries[file].isFile
      modifies fs
      ensures fs.Valid()
      ensures ok <==> !MonthlyFails(old(fs.entries), Basename(file), now)
      ensures !ok ==> fs.entries == old(fs.entries)
      ensures ChangesOnlyIn(old(fs.entries), fs.entries, MonthlyFolderPath(home, settings.dumpPath, manual))
      ensures MonthArchived(old(fs.entries), MonthlyFolderPath(home, settings.dumpPath, manual), now) ==>
                OnlyDirsAdded(old(fs.entries), fs.entries)
      ensures var folder := MonthlyFolderPath(home, settings.dumpPath, manual);
              ok && !MonthArchived(old(fs.entries), folder, now) ==>
                PrunedFiles(FilesOf(old(fs.entries), folder)[Basename(file) := Clock.Instant(now)],
                            FilesOf(fs.entries, folder), monthlyFilesToKeep)
      ensures var folder := MonthlyFolderPath(home, settings.dumpPath, manual);
              && ok
              && !MonthArchived(old(fs.entries), folder, now)
              && monthlyFilesToKeep >= 1
              && MonthPattern.MonthlyMatch(dbName, now, Basename(file))
              && (forall n :: n in FilesOf(old(fs.entries), folder) ==> FilesOf(old(fs.entries), folder)[n] < Clock.Instant(now))
              ==> MonthArchived(fs.entries, folder, now)
    {
      var made, folder := MonthlyDumpFolder(fs);
      if !made {
        return false;
      }
      ghost var created := fs.entries;
      CreatedAlike(old(fs.entries), created, folder, Basename(file), now);
      assert (folder + [Basename(file)])[..|folder|] == folder;
      ok := StoreIn(fs, file, folder, now);
      DirsChangeNothingElse(old(fs.entries), created, folder);
      ChangesCompose(old(fs.entries), created, fs.entries, folder);
    }

    /** Making only directories no longer than `folder` changes nothing below it. */
    lemma CreatedAlike(before: map<Path, Entry>, created: map<Path, Entry>, folder: Path, name: string,
                       now: Clock.DateTime)
      requires Valid() && Clock.Valid(now)
      requires OnlyDirsAdded(before, created)
      requires forall p :: p in created && p !in before ==> |p| <= |folder|
      ensures MonthArchived(created, folder, now) <==> MonthArchived(before, folder, now)
      ensures IsDir(created, folder + [name]) <==> IsDir(before, folder + [name])
      ensures FilesOf(created, folder) == FilesOf(before, folder)
    {
      forall n ensures folder + [n] in created <==> folder + [n] in before {
        assert |folder + [n]| == |folder| + 1;
      }
      ArchivedAlike(created, before, folder, now);
      FilesUnderNewDirs(before, created, folder);
    }

    /** What `monthlyStorage` does once the monthly folder exists: `readdirSync`, which
        throws unless it is a directory, then the copy when the month has no dump there. */
    method StoreIn(fs: Disk, file: Path, folder: Path, now: Clock.DateTime) returns (ok: bool)
      requires Valid() && Clock.Valid(now) && fs.Valid()
      requires file in fs.entries && fs.entries[file].isFile
      modifies fs
      ensures fs.Valid()
      ensures ok <==> IsDir(old(fs.entries), folder)
                      && (MonthArchived(old(fs.entries), folder, now) || !IsDir(old(fs.entries), folder + [Basename(file)]))
      ensures !ok || MonthArchived(old(fs.entries), folder, now) ==> fs.entries == old(fs.entries)
      ensures ChangesOnlyIn(old(fs.entries), fs.entries, folder)
      ensures ok && !MonthArchived(old(fs.entries), folder, now) ==>
                PrunedFiles(FilesOf(old(fs.entries), folder)[Basename(file) := Clock.Instant(now)],
                            FilesOf(fs.entries, folder), monthlyFilesToKeep)
      ensures && ok
              && !MonthArchived(old(fs.entries), folder, now)
              && monthlyFilesToKeep >= 1
              && MonthPattern.MonthlyMatch(dbName, now, Basename(file))
              && (forall n :: n in FilesOf(old(fs.entries), folder) ==> FilesOf(old(fs.entries), folder)[n] < Clock.Instant(now))
              ==> MonthArchived(fs.entries, folder, now)
    {
      var names;
      ok, names := fs.ReadDir(folder);
      if !ok {
        return;
      }
      var existing := MonthPattern.Matching(dbName, now, names);
      if |existing| < 1 {
        NotArchivedWithoutMatch(old(fs.entries), old(fs.entries), folder, names, now);
        ok := ArchiveCopy(fs, file, folder, now);
      } else {
        assert existing[0] in names;
      }
    }

    lemma NotArchivedWithoutMatch(before: map<Path, Entry>, after: map<Path, Entry>, folder: Path,
                                  names: seq<string>, now: Clock.DateTime)
      requires Valid() && Clock.Valid(now)
      requires OnlyDirsAdded(before, after)
      requires forall n :: n in names <==> folder + [n] in after
      requires MonthPattern.Matching(dbName, now, names) == []
      ensures !MonthArchived(before, folder, now)
    {
      forall n | folder + [n] in before ensures !MonthPattern.MonthlyMatch(dbName, now, n) {
        assert n in names;
      }
    }

    /** The copy and the pruning of `monthlyStorage`: `copyFileSync` fails, changing
        nothing, when the copy's name is a directory; otherwise the folder is pruned to
        `monthlyFilesToKeep` files with the copy counted among them. */
    method ArchiveCopy(fs: Disk, file: Path, folder: Path, now: Clock.DateTime) returns (ok: bool)
      requires Valid() && Clock.Valid(now) && fs.Valid()
      requires IsDir(fs.entries, folder)
      requires file in fs.entries && fs.entries[file].isFile
      modifies fs
      ensures fs.Valid()
      ensures ok <==> !IsDir(old(fs.entries), folder + [Basename(file)])
      ensures !ok ==> fs.entries == old(fs.entries)
      ensures ChangesOnlyIn(old(fs.entries), fs.entries, folder)
      ensures ok ==> PrunedFiles(FilesOf(old(fs.entries), folder)[Basename(file) := Clock.Instant(now)],
                                 FilesOf(fs.entries, folder), monthlyFilesToKeep)
      ensures ok && monthlyFilesToKeep >= 1
              && (forall n :: n in FilesOf(old(fs.entries), folder) ==> FilesOf(old(fs.entries), folder)[n] < Clock.Instant(now))
              ==> folder + [Basename(file)] in fs.entries
    {
      var copy := Basename(file);
      assert (folder + [copy])[..|folder|] == folder;
      ok := fs.CopyFile(file, folder + [copy], Clock.Instant(now));
      if !ok {
        return;
      }
      ghost var copied := fs.entries;
      FilesAfterWrite(old(fs.entries), folder, copy, Clock.Instant(now));
      var pruned;
      ghost var ordered;
      pruned, ordered := KeepMostRecentFiles(fs, folder, monthlyFilesToKeep);
      assert pruned;
      PruneOutcome(copied, folder, ordered, monthlyFilesToKeep);
      ChangesCompose(old(fs.entries), copied, fs.entries, folder);
      if monthlyFilesToKeep >= 1
         && (forall n :: n in FilesOf(old(fs.entries), folder) ==> FilesOf(old(fs.entries), folder)[n] < Clock.Instant(now))
      {
        CopyIsNewest(old(fs.entries), folder, copy, Clock.Instant(now));
        NewestSurvives(copied, folder, ordered, monthlyFilesToKeep, copy);
      }
    }

    /** The connection options of `sendDumpToFTP`, built field by field. */
    method ConnectionConfig() returns (config: Ftp.ConnectionConfig)
      requires Given(settings.ftpHost)
      ensures config.host == settings.ftpHost.value
      ensures config.user.Some? <==> Given(settings.ftpUser)
      ensures config.user.Some? ==> config.user == settings.ftpUser
      ensures config.password.Some? <==> Given(settings.ftpPassword)
      ensures config.password.Some? ==> config.password == settings.ftpPassword
      ensures config.secure == if settings.ftpSecure.Some? then settings.ftpSecure.value else Ftp.ExplicitTls
      ensures config.port.Some? <==> settings.ftpPort.Some? && settings.ftpPort.value > 0
      ensures config.port.Some? ==> config.port == settings.ftpPort
    {
      config := Ftp.ConnectionConfig(settings.ftpHost.value, None, None, None, Ftp.ExplicitTls);
      if Given(settings.ftpUser) {
        config := config.(user := settings.ftpUser);
      }
      if Given(settings.ftpPassword) {
        config := config.(password := settings.ftpPassword);
      }
      if Given(settings.ftpPassword) {
        config := config.(password := settings.ftpPassword);
      }
      if settings.ftpSecure.Some? {
        config := config.(secure := settings.ftpSecure.value);
      }
      if settings.ftpPort.Some? && settings.ftpPort.value != 0 && settings.ftpPort.value > 0 {
        config := config.(port := settings.ftpPort);
      }
    }

    /** The directory the client works in after entering `ftpPath` from the login
        directory: that path resolved from the root, or the login directory itself when
        no path is set. */
    function FtpBase(): (base: Ftp.Dir)
      ensures Clean(base)
    {
      if Given(settings.ftpPath) then Normalize([], JsText.Split(settings.ftpPath.value, '/')) else []
    }

    /** `ftpPath` has no ".." component, so entering it leaves every directory at least
        as deep as `FtpBase()` as it was. */
    predicate PlainFtpPath()
    {
      !Given(settings.ftpPath) || ".." !in JsText.Split(settings.ftpPath.value, '/')
    }

    /** Some name of a listing matches the monthly pattern of `now`. */
    ghost predicate MonthListed(listing: seq<string>, now: Clock.DateTime)
      requires Valid() && Clock.Valid(now)
    {
      exists n :: n in listing && MonthPattern.MonthlyMatch(dbName, now, n)
    }

    /** `keepMostRecentFilesFTP(client, threshold)` in the client's current directory:
        removes `Ftp.Doomed` of the listing one name after the other, so that when the
        call succeeds exactly those names are gone; a failure stops it part way. The
        threshold is the argument but the number kept is `this.filesToKeep`. */
    method KeepMostRecentFilesFtp(client: Ftp.FtpClient, threshold: int) returns (ok: bool, ghost gone: set<string>)
      requires client.Valid()
      modifies client
      ensures client.Valid() && client.cwd == old(client.cwd)
      ensures forall n :: n in gone ==> n in Ftp.Doomed(old(client.tree)[client.cwd], threshold, filesToKeep)
      ensures ok ==> gone == set n | n in Ftp.Doomed(old(client.tree)[client.cwd], threshold, filesToKeep)
      ensures client.tree == old(client.tree)[client.cwd := Ftp.RemoveNames(old(client.tree)[client.cwd], gone)]
    {
      Ftp.RemoveNothing(client.tree[client.cwd]);
      gone := {};
      var listed: seq<string>;
      ok, listed := client.List();
      if !ok {
        return;
      }
      var snaps := Filter(listed, Ftp.IsSnapshot);
      if |snaps| > threshold {
        var sorted := Sort(snaps, JsText.Less);
        var toDelete := Slice(sorted, 0, -filesToKeep);
        assert toDelete == Ftp.Doomed(listed, threshold, filesToKeep);
        Ftp.DoomedAreSnapshots(listed, threshold, filesToKeep);
        ok, gone := RemoveEach(client, toDelete);
      }
    }

    /** The `for` loop of `keepMostRecentFilesFTP`: `remove` on each name in turn, the
        first failure ending it. */
    method RemoveEach(client: Ftp.FtpClient, toDelete: seq<string>) returns (ok: bool, ghost gone: set<string>)
      requires client.Valid()
      modifies client
      ensures client.Valid() && client.cwd == old(client.cwd)
      ensures forall n :: n in gone ==> n in toDelete
      ensures ok ==> gone == set n | n in toDelete
      ensures client.tree == old(client.tree)[client.cwd := Ftp.RemoveNames(old(client.tree)[client.cwd], gone)]
    {
      ghost var before := client.tree[client.cwd];
      ghost var start := client.tree;
      Ftp.RemoveNothing(before);
      gone := {};
      ok := true;
      var i := 0;
      while i < |toDelete|
        invariant 0 <= i <= |toDelete|
        invariant forall n :: n in gone <==> n in toDelete[..i]
        invariant client.Valid() && client.cwd == old(client.cwd)
        invariant client.tree == start[client.cwd := Ftp.RemoveNames(before, gone)]
      {
        assert toDelete[..i + 1] == toDelete[..i] + [toDelete[i]];
        ok := client.Remove(toDelete[i]);
        if !ok {
          return;
        }
        Ftp.RemoveNamesTwice(before, gone, toDelete[i]);
        gone := gone + {toDelete[i]};
        i := i + 1;
      }
      assert toDelete[..i] == toDelete;
      assert gone == set n | n in toDelete;
    }

    /** `sendDumpToFTP(file)`, with the server's tree in and out: nothing happens unless
        `ftpHost` is a non-empty string; otherwise the client connects, enters `ftpPath`
        when one is given and `manual` for a manual dumper, uploads the dump under its
        basename and, for a scheduled dumper, rotates there and in `monthly`. Every
        failure is caught and logged, ending the run where it happened. A manual dumper
        never removes anything and puts its file into `manual` below `ftpPath` only; a
        scheduled one removes snapshots only, and leaves `monthly` as `RotateRemote`
        says. */
    method SendDumpToFtp(server: map<Ftp.Dir, seq<string>>, file: Path, localExists: bool, now: Clock.DateTime)
      returns (remote: map<Ftp.Dir, seq<string>>, errorLogged: bool)
      requires Valid() && Clock.Valid(now) && Ftp.Server(server)
      ensures Ftp.Server(remote)
      ensures !Given(settings.ftpHost) ==> remote == server && !errorLogged
      ensures Ftp.Evolves(server, remote, Basename(file), !manual)
      ensures manual && Given(settings.ftpHost) && !errorLogged ==>
                FtpBase() + ["manual"] in remote && Basename(file) in remote[FtpBase() + ["manual"]]
      ensures manual ==> Ftp.FilesOnlyInto(server, remote, FtpBase() + ["manual"])
      ensures !manual && Given(settings.ftpHost) && !errorLogged && PlainFtpPath() && monthlyFilesToKeep > 0 ==>
                var monthly := FtpBase() + ["monthly"];
                var before := Ftp.Listing(server, monthly);
                && monthly in remote
                && remote[monthly] == if MonthListed(before, now) then before
                                      else Ftp.Rotated(Ftp.Added(before, Basename(file)), monthlyFilesToKeep, filesToKeep)
      ensures !manual && Given(settings.ftpHost) && !errorLogged && PlainFtpPath() ==>
                var daily := Ftp.Rotated(Ftp.Added(Ftp.Listing(server, FtpBase()), Basename(file)), filesToKeep, filesToKeep);
                && FtpBase() in remote
                && (|| remote[FtpBase()] == daily
                    || (monthlyFilesToKeep > 0 && "monthly" !in daily && remote[FtpBase()] == daily + ["monthly"]))
    {
      if !Given(settings.ftpHost) {
        return server, false;
      }
      var config := ConnectionConfig();
      var client := new Ftp.FtpClient(server);
      var ok := client.Access(config);
      if ok {
        ok := EnterBase(client);
      }
      Ftp.DirsEvolve(server, client.tree, Basename(file), !manual);
      ghost var entered := client.tree;
      ghost var monthly := FtpBase() + ["monthly"];
      if ok && manual {
        ok := SendManual(client, Basename(file), localExists);
        Ftp.FilesOnlyIntoCompose(server, entered, client.tree, FtpBase() + ["manual"]);
      } else if ok {
        if PlainFtpPath() {
          Ftp.ListingAsBefore(server, entered, client.cwd, monthly);
          Ftp.ListingAsBefore(server, entered, client.cwd, client.cwd);
        }
        ok := SendScheduled(client, Basename(file), localExists, now);
      }
      Ftp.EvolvesCompose(server, entered, client.tree, Basename(file), !manual);
      remote := client.tree;
      errorLogged := !ok;
    }

    /** `ensureDir(ftpPath)` from the login directory, when a path is given. */
    method EnterBase(client: Ftp.FtpClient) returns (ok: bool)
      requires Valid() && client.Valid() && client.cwd == []
      modifies client
      ensures client.Valid()
      ensures Ftp.KeepsAll(old(client.tree), client.tree) && Ftp.AddsOnlyDirs(old(client.tree), client.tree)
      ensures ok ==> client.cwd == FtpBase()
      ensures ok && PlainFtpPath() ==> Ftp.DeepAsBefore(old(client.tree), client.tree, client.cwd)
    {
      ok := true;
      if Given(settings.ftpPath) {
        ok := client.EnsureDir(settings.ftpPath.value);
      }
    }

    /** What a manual dumper does once in `ftpPath`: `ensureDir('manual')`, then the
        upload there. */
    method SendManual(client: Ftp.FtpClient, name: string, localExists: bool) returns (ok: bool)
      requires client.Valid()
      modifies client
      ensures client.Valid()
      ensures Ftp.Evolves(old(client.tree), client.tree, name, false)
      ensures Ftp.KeepsAll(old(client.tree), client.tree)
      ensures Ftp.FilesOnlyInto(old(client.tree), client.tree, old(client.cwd) + ["manual"])
      ensures ok ==> old(client.cwd) + ["manual"] in client.tree && name in client.tree[old(client.cwd) + ["manual"]]
    {
      ok := EnterFolder(client, "manual");
      Ftp.DirsEvolve(old(client.tree), client.tree, name, false);
      if !ok {
        return;
      }
      ghost var ready := client.tree;
      ok := client.UploadFrom(localExists, name);
      Ftp.UploadEvolves(ready, client.cwd, name, false);
      Ftp.EvolvesCompose(old(client.tree), ready, client.tree, name, false);
      Ftp.FilesOnlyIntoCompose(old(client.tree), ready, client.tree, old(client.cwd) + ["manual"]);
    }

    /** What a scheduled dumper does once in `ftpPath`: the upload there, then
        `RotateRemote`. */
    method SendScheduled(client: Ftp.FtpClient, name: string, localExists: bool, now: Clock.DateTime) returns (ok: bool)
      requires Valid() && Clock.Valid(now) && client.Valid()
      modifies client
      ensures client.Valid()
      ensures Ftp.Evolves(old(client.tree), client.tree, name, true)
      ensures var daily := Ftp.Rotated(Ftp.Added(old(client.tree)[old(client.cwd)], name), filesToKeep, filesToKeep);
              ok ==> && old(client.cwd) in client.tree
                     && (|| client.tree[old(client.cwd)] == daily
                         || (monthlyFilesToKeep > 0 && "monthly" !in daily
                             && client.tree[old(client.cwd)] == daily + ["monthly"]))
      ensures var monthly := old(client.cwd) + ["monthly"];
              var before := Ftp.Listing(old(client.tree), monthly);
              ok && monthlyFilesToKeep > 0 ==>
                && monthly in client.tree
                && client.tree[monthly] == if MonthListed(before, now) then before
                                           else Ftp.Rotated(Ftp.Added(before, name), monthlyFilesToKeep, filesToKeep)
    {
      ok := client.UploadFrom(localExists, name);
      Ftp.UploadEvolves(old(client.tree), client.cwd, name, true);
      if !ok {
        return;
      }
      ghost var uploaded := client.tree;
      assert Ftp.Listing(uploaded, old(client.cwd) + ["monthly"]) == Ftp.Listing(old(client.tree), old(client.cwd) + ["monthly"]);
      ok := RotateRemote(client, name, localExists, now);
      Ftp.EvolvesCompose(old(client.tree), uploaded, client.tree, name, true);
    }

    /** The part of `sendDumpToFTP` a scheduled dumper runs after the upload: the daily
        rotation, then, when `monthlyFilesToKeep > 0`, `monthly` is entered and listed
        and, if no name there matches the month of `now`, the dump is uploaded again
        and that folder rotated. Both rotations keep `filesToKeep` names. */
    method RotateRemote(client: Ftp.FtpClient, name: string, localExists: bool, now: Clock.DateTime) returns (ok: bool)
      requires Valid() && Clock.Valid(now) && client.Valid()
      modifies client
      ensures client.Valid()
      ensures Ftp.Evolves(old(client.tree), client.tree, name, true)
      ensures var daily := Ftp.Rotated(old(client.tree)[old(client.cwd)], filesToKeep, filesToKeep);
              ok ==> && old(client.cwd) in client.tree
                     && (|| client.tree[old(client.cwd)] == daily
                         || (monthlyFilesToKeep > 0 && "monthly" !in daily
                             && client.tree[old(client.cwd)] == daily + ["monthly"]))
      ensures var monthly := old(client.cwd) + ["monthly"];
              var before := Ftp.Listing(old(client.tree), monthly);
              ok && monthlyFilesToKeep > 0 ==>
                && monthly in client.tree
                && client.tree[monthly] == if MonthListed(before, now) then before
                                           else Ftp.Rotated(Ftp.Added(before, name), monthlyFilesToKeep, filesToKeep)
    {
      ghost var monthly := client.cwd + ["monthly"];
      ghost var gone: set<string>;
      ok, gone := KeepMostRecentFilesFtp(client, filesToKeep);
      Ftp.RotationEvolves(old(client.tree), client.cwd, filesToKeep, filesToKeep, gone, name);
      if !ok || monthlyFilesToKeep <= 0 {
        return;
      }
      ghost var daily := client.tree;
      ghost var base := client.cwd;
      assert daily[base] == Ftp.Rotated(old(client.tree)[base], filesToKeep, filesToKeep);
      assert Ftp.Listing(daily, monthly) == Ftp.Listing(old(client.tree), monthly);
      ok := EnterFolder(client, "monthly");
      Ftp.DirsEvolve(daily, client.tree, name, true);
      Ftp.EvolvesCompose(old(client.tree), daily, client.tree, name, true);
      Ftp.GrowsByOne(daily, client.tree, base, "monthly");
      if !ok {
        return;
      }
      ghost var entered := client.tree;
      ok := ArchiveRemote(client, name, localExists, now);
      Ftp.EvolvesCompose(old(client.tree), entered, client.tree, name, true);
    }

    /** `ensureDir(leaf)` for a single plain name, which descends one level from the
        current directory, creating it when missing. */
    method EnterFolder(client: Ftp.FtpClient, leaf: string) returns (ok: bool)
      requires client.Valid() && PlainComponent(leaf) && '/' !in leaf
      modifies client
      ensures client.Valid()
      ensures Ftp.KeepsAll(old(client.tree), client.tree) && Ftp.AddsOnlyDirs(old(client.tree), client.tree)
      ensures ok ==> client.cwd == old(client.cwd) + [leaf]
      ensures ok ==> client.tree[client.cwd] == Ftp.Listing(old(client.tree), client.cwd)
      ensures Ftp.GrowsBy(old(client.tree), client.tree, {leaf})
    {
      assert leaf[0] != '/' by {
        assert leaf[0] in leaf;
      }
      JsText.SplitWithout(leaf, '/');
      assert (set x | x in JsText.Split(leaf, '/')) == {leaf};
      ok := client.EnsureDir(leaf);
      JoinName(old(client.cwd), leaf);
    }

    /** In `monthly`: `list()`, and when no name there matches the month of `now`, the
        upload and the rotation to `monthlyFilesToKeep`. */
    method ArchiveRemote(client: Ftp.FtpClient, name: string, localExists: bool, now: Clock.DateTime) returns (ok: bool)
      requires Valid() && Clock.Valid(now) && client.Valid()
      modifies client
      ensures client.Valid() && client.cwd == old(client.cwd)
      ensures Ftp.Evolves(old(client.tree), client.tree, name, true)
      ensures client.tree == old(client.tree)[client.cwd := client.tree[client.cwd]]
      ensures var before := old(client.tree)[client.cwd];
              ok ==> client.tree[client.cwd] == if MonthListed(before, now) then before
                                                else Ftp.Rotated(Ftp.Added(before, name), monthlyFilesToKeep, filesToKeep)
    {
      ghost var before := client.tree[client.cwd];
      var listed: seq<string>;
      ok, listed := client.List();
      if !ok {
        return;
      }
      var sorted := Sort(listed, JsText.Less);
      SortMembers(listed, JsText.Less);
      forall n | n in before && MonthPattern.MonthlyMatch(dbName, now, n)
        ensures n in MonthPattern.Matching(dbName, now, sorted)
      {
      }
      if |MonthPattern.Matching(dbName, now, sorted)| >= 1 {
        assert MonthPattern.Matching(dbName, now, sorted)[0] in sorted;
      }
      assert MonthListed(before, now) <==> |MonthPattern.Matching(dbName, now, sorted)| >= 1;
      if |MonthPattern.Matching(dbName, now, sorted)| < 1 {
        ok := client.UploadFrom(localExists, name);
        Ftp.UploadEvolves(old(client.tree), client.cwd, name, true);
        if ok {
          ghost var copied := client.tree;
          assert copied[client.cwd] == Ftp.Added(before, name);
          ghost var gone: set<string>;
          ok, gone := KeepMostRecentFilesFtp(client, monthlyFilesToKeep);
          Ftp.RotationEvolves(copied, client.cwd, monthlyFilesToKeep, filesToKeep, gone, name);
          Ftp.EvolvesCompose(old(client.tree), copied, client.tree, name, true);
        }
      }
    }

    /** `dumpDatabase(postfix)`: names the dump, opens it in the dump folder and pipes
        the dump into it. A `dumpFolder()` that throws rejects the promise. When the
        write stream finishes, `onSuccess` runs (the monthly copy for a scheduled dumper,
        then the FTP transfer) and the result is true, unless the monthly copy throws,
        which leaves the promise pending for ever; when the stream errors, `onError`
        unlinks the file, swallowing a failed unlink, and the result is false. Opening
        fails when the folder is no directory or the path is one. */
    method DumpDatabase(fs: Disk, server: map<Ftp.Dir, seq<string>>, now: Clock.DateTime, postfix: string,
                        outcome: WriteOutcome) returns (result: Settlement, remote: map<Ftp.Dir, seq<string>>)
      requires Valid() && Clock.Valid(now) && Ftp.Server(server) && fs.Valid()
      modifies fs
      ensures fs.Valid()
      ensures Ftp.Server(remote)
      ensures result != Resolved(true) ==> remote == server
      ensures result == Resolved(true) || result == Pending ==> outcome == Finished
      ensures result == Rejected <==> UnderFile(old(fs.entries), DumpFolderPath(home, settings.dumpPath, manual))
      ensures result == Rejected ==> fs.entries == old(fs.entries)
      ensures Flat(dbName, postfix) ==>
        var folder := DumpFolderPath(home, settings.dumpPath, manual);
        var name := DumpNames.DumpName(dbName, postfix, now);
        var written := result == Resolved(true) || result == Pending;
        && (written <==> outcome == Finished && !Obstructed(old(fs.entries), folder)
                         && !IsDir(old(fs.entries), folder + [name]))
        && (result == Pending <==> written && !manual && MonthlyFails(old(fs.entries), name, now))
        && (written ==> FilesOf(fs.entries, folder) == FilesOf(old(fs.entries), folder)[name := Clock.Instant(now)])
        && (!written ==> FilesOf(fs.entries, folder) == FilesOf(old(fs.entries), folder) - {name})
        && Ftp.Evolves(server, remote, name, !manual)
    {
      var fileName := DumpFileName(now, postfix);
      var made, folder := DumpFolder(fs);
      if !made {
        FileHasNoChildren(old(fs.entries), folder);
        assert fileName !in FilesOf(old(fs.entries), folder);
        Ftp.DirsEvolve(server, server, fileName, !manual);
        return Rejected, server;
      }
      result, remote := WriteInFolder(fs, server, folder, fileName, now, postfix, outcome, old(fs.entries));
    }

    /** `dumpDatabase` once `dumpFolder()` has made `folder` out of the disk `before`:
        the write of `fileName` there and what follows it. */
    method WriteInFolder(fs: Disk, server: map<Ftp.Dir, seq<string>>, folder: Path, fileName: string,
                         now: Clock.DateTime, postfix: string, outcome: WriteOutcome, ghost before: map<Path, Entry>)
      returns (result: Settlement, remote: map<Ftp.Dir, seq<string>>)
      requires Valid() && Clock.Valid(now) && Ftp.Server(server) && fs.Valid()
      requires folder == DumpFolderPath(home, settings.dumpPath, manual)
      requires fileName == DumpNames.DumpName(dbName, postfix, now)
      requires !UnderFile(before, folder) && folder in fs.entries
      requires folder !in before ==> IsDir(fs.entries, folder)
      requires folder in before ==> fs.entries == before
      requires OnlyDirsAdded(before, fs.entries)
      requires forall p :: p in fs.entries && p !in before ==> |p| <= |folder|
      modifies fs
      ensures fs.Valid() && Ftp.Server(remote) && result != Rejected
      ensures result != Resolved(true) ==> remote == server
      ensures result == Resolved(true) || result == Pending ==> outcome == Finished
      ensures Flat(dbName, postfix) ==>
        var written := result == Resolved(true) || result == Pending;
        && (written <==> outcome == Finished && !Obstructed(before, folder) && !IsDir(before, folder + [fileName]))
        && (result == Pending <==> written && !manual && MonthlyFails(before, fileName, now))
        && (written ==> FilesOf(fs.entries, folder) == FilesOf(before, folder)[fileName := Clock.Instant(now)])
        && (!written ==> FilesOf(fs.entries, folder) == FilesOf(before, folder) - {fileName})
        && Ftp.Evolves(server, remote, fileName, !manual)
    {
      ghost var created := fs.entries;
      var target := Join(folder, fileName);
      result, remote := WriteAndReport(fs, server, target, now, outcome);
      if Flat(dbName, postfix) {
        FlatTarget(home, settings.dumpPath, manual, dbName, postfix, now);
        assert target == folder + [fileName];
        DumpOutcome(before, created, fs.entries, folder, fileName, target, now, outcome, result);
      }
    }

    /** The settlement of `dumpDatabase` and the dump folder's files, in terms of the disk
        before `dumpFolder()`, from what `dumpFolder()` made and what the write of the
        file `name` and `onSuccess` did after it. */
    lemma DumpOutcome(before: map<Path, Entry>, created: map<Path, Entry>, after: map<Path, Entry>,
                      folder: Path, name: string, target: Path, now: Clock.DateTime, outcome: WriteOutcome,
                      result: Settlement)
      requires Valid() && Clock.Valid(now)
      requires folder == DumpFolderPath(home, settings.dumpPath, manual) && name != "monthly"
      requires target == folder + [name]
      requires !UnderFile(before, folder) && folder in created
      requires folder !in before ==> IsDir(created, folder)
      requires folder in before ==> created == before
      requires OnlyDirsAdded(before, created)
      requires forall p :: p in created && p !in before ==> |p| <= |folder|
      requires var written := result != Resolved(false);
        var stored := created[target := Entry(true, Clock.Instant(now))];
        && result != Rejected
        && (written <==> outcome == Finished && Writable(created, target))
        && (!written ==> after == if IsDir(created, target) then created else created - {target})
        && (result == Pending <==> written && !manual && MonthlyFails(stored, Basename(target), now))
        && (written && manual ==> after == stored)
        && (written && !manual ==> ChangesOnlyIn(stored, after, MonthlyFolderPath(home, settings.dumpPath, manual)))
      ensures Basename(target) == name
      ensures var written := result == Resolved(true) || result == Pending;
        && (written <==> outcome == Finished && !Obstructed(before, folder) && !IsDir(before, folder + [name]))
        && (result == Pending <==> written && !manual && MonthlyFails(before, name, now))
        && (written ==> FilesOf(after, folder) == FilesOf(before, folder)[name := Clock.Instant(now)])
        && (!written ==> FilesOf(after, folder) == FilesOf(before, folder) - {name})
    {
      var written := result != Resolved(false);
      FolderMade(before, created, folder, name);
      var stored := created[folder + [name] := Entry(true, Clock.Instant(now))];
      WrittenFiles(created, if written then stored else after, folder, name, written, Clock.Instant(now));
      if written && !manual {
        FilesElsewhere(stored, after, MonthlyFolderPath(home, settings.dumpPath, manual), folder);
      }
      MonthlyFailsAfterWrite(before, created, folder, name, Clock.Instant(now), now);
    }

    /** What follows `dumpFolder()` in `dumpDatabase`: the write stream on `target` and,
        when it finishes, `onSuccess`. */
    method WriteAndReport(fs: Disk, server: map<Ftp.Dir, seq<string>>, target: Path, now: Clock.DateTime,
                          outcome: WriteOutcome) returns (result: Settlement, remote: map<Ftp.Dir, seq<string>>)
      requires Valid() && Clock.Valid(now) && Ftp.Server(server) && fs.Valid()
      modifies fs
      ensures fs.Valid() && Ftp.Server(remote) && result != Rejected
      ensures result != Resolved(true) ==> remote == server
      ensures var written := result != Resolved(false);
        var stored := old(fs.entries)[target := Entry(true, Clock.Instant(now))];
        && (written <==> outcome == Finished && Writable(old(fs.entries), target))
        && (!written ==> fs.entries == if IsDir(old(fs.entries), target) then old(fs.entries)
                                       else old(fs.entries) - {target})
        && (result == Pending <==> written && !manual && MonthlyFails(stored, Basename(target), now))
        && (written && manual ==> fs.entries == stored)
        && (written && !manual ==> ChangesOnlyIn(stored, fs.entries, MonthlyFolderPath(home, settings.dumpPath, manual)))
      ensures Ftp.Evolves(server, remote, Basename(target), !manual)
    {
      var finished := WriteDump(fs, target, outcome, Clock.Instant(now));
      if !finished {
        return Resolved(false), server;
      }
      var resolved;
      resolved, remote := OnSuccess(fs, server, target, now);
      result := if resolved then Resolved(true) else Pending;
    }

    /** After `dumpFolder()` succeeded, a file can be opened in the folder exactly when
        the folder could be a directory before and the name was no directory. */
    lemma FolderMade(before: map<Path, Entry>, created: map<Path, Entry>, folder: Path, name: string)
      requires OnlyDirsAdded(before, created)
      requires forall p :: p in created && p !in before ==> |p| <= |folder|
      requires !UnderFile(before, folder) && folder in created
      requires folder !in before ==> IsDir(created, folder)
      requires folder in before ==> created == before
      ensures Writable(created, folder + [name]) <==> !Obstructed(before, folder) && !IsDir(before, folder + [name])
      ensures FilesOf(created, folder) == FilesOf(before, folder)
    {
      assert |folder + [name]| == |folder| + 1;
      assert (folder + [name])[..|folder|] == folder;
      FilesUnderNewDirs(before, created, folder);
    }

    /** Writing the dump next to `monthly`, after only directories were made, changes
        nothing `MonthlyFails` looks at. */
    lemma MonthlyFailsAfterWrite(before: map<Path, Entry>, created: map<Path, Entry>, folder: Path, name: string,
                                 time: int, now: Clock.DateTime)
      requires Valid() && Clock.Valid(now)
      requires folder == DumpFolderPath(home, settings.dumpPath, manual)
      requires OnlyDirsAdded(before, created)
      requires forall p :: p in created && p !in before ==> |p| <= |folder|
      requires name != "monthly"
      ensures MonthlyFails(created[folder + [name] := Entry(true, time)], name, now) <==> MonthlyFails(before, name, now)
    {
      var written := created[folder + [name] := Entry(true, time)];
      var target := folder + [name];
      var monthly := MonthlyFolderPath(home, settings.dumpPath, manual);
      assert |monthly| == |target|;
      assert target != monthly by {
        assert target[|folder|] == name && monthly[|folder|] == "monthly";
      }
      UnderFileWithDirs(before, created, monthly);
      ObstructedAfterWrite(created, target, Entry(true, time), monthly);
      forall n ensures monthly + [n] in written <==> monthly + [n] in before {
        assert |monthly + [n]| == |folder| + 2;
      }
      ArchivedAlike(written, before, monthly, now);
      assert |monthly + [name]| == |folder| + 2;
    }

    lemma ArchivedAlike(a: map<Path, Entry>, b: map<Path, Entry>, folder: Path, now: Clock.DateTime)
      requires Valid() && Clock.Valid(now)
      requires forall n :: folder + [n] in a <==> folder + [n] in b
      ensures MonthArchived(a, folder, now) <==> MonthArchived(b, folder, now)
    {
    }

    /** `createWriteStream(path)` fed by the dump pipe, with `onError`'s `unlinkSync`
        when the stream errors. Opening fails unless the folder is a directory and the
        path is not one; an error before the file is opened still unlinks whatever file
        has that name. */
    method WriteDump(fs: Disk, target: Path, outcome: WriteOutcome, time: int) returns (finished: bool)
      requires fs.Valid()
      modifies fs
      ensures fs.Valid()
      ensures finished <==> outcome == Finished && Writable(old(fs.entries), target)
      ensures finished ==> fs.entries == old(fs.entries)[target := Entry(true, time)]
      ensures !finished ==> fs.entries == if IsDir(old(fs.entries), target) then old(fs.entries)
                                          else old(fs.entries) - {target}
    {
      var isOpen := false;
      if outcome != FailedBeforeOpen {
        isOpen := fs.CreateFile(target, time);
      }
      finished := isOpen && outcome == Finished;
      if !finished {
        var removed := fs.Unlink(target);
        assert fs.entries == old(fs.entries) - {target} || IsDir(old(fs.entries), target);
      }
    }

    /** `onSuccess`: the monthly copy of a scheduled dumper, then `sendDumpToFTP`. The
        copy may throw, and then the FTP transfer never happens. */
    method OnSuccess(fs: Disk, server: map<Ftp.Dir, seq<string>>, file: Path, now: Clock.DateTime)
      returns (resolved: bool, remote: map<Ftp.Dir, seq<string>>)
      requires Valid() && Clock.Valid(now) && Ftp.Server(server) && fs.Valid()
      requires file in fs.entries && fs.entries[file].isFile
      modifies fs
      ensures fs.Valid()
      ensures Ftp.Server(remote) && Ftp.Evolves(server, remote, Basename(file), !manual)
      ensures resolved <==> manual || !MonthlyFails(old(fs.entries), Basename(file), now)
      ensures !resolved ==> fs.entries == old(fs.entries) && remote == server
      ensures manual ==> fs.entries == old(fs.entries)
      ensures !manual ==> ChangesOnlyIn(old(fs.entries), fs.entries, MonthlyFolderPath(home, settings.dumpPath, manual))
    {
      if !manual {
        var stored := MonthlyStorage(fs, file, now);
        if !stored {
          return false, server;
        }
      }
      var localExists := file in fs.entries && fs.entries[file].isFile;
      var errorLogged;
      remote, errorLogged := SendDumpToFtp(server, file, localExists, now);
      resolved := true;
    }

    /** `organizeDumpFiles()`: prunes the dump folder to `numberFilesToKeep || 5` files,
        throwing, with nothing changed, when the folder cannot be a directory. Nothing is
        removed when there are no more; otherwise the survivors are files that were
        there, and the newest file, if strictly newer than the others, is one of them. */
    method OrganizeDumpFiles(fs: Disk) returns (ok: bool)
      requires Valid() && fs.Valid()
      modifies fs
      ensures fs.Valid()
      ensures var folder := DumpFolderPath(home, settings.dumpPath, manual);
        && (ok <==> !Obstructed(old(fs.entries), folder))
        && (!ok ==> fs.entries == old(fs.entries))
        && ChangesOnlyIn(old(fs.entries), fs.entries, folder)
        && (ok ==> PrunedTo(old(fs.entries), fs.entries, folder, filesToKeep))
    {
      var keep := CountOr(settings.numberFilesToKeep, 5);
      var made, folder := DumpFolder(fs);
      if !made {
        return false;
      }
      ghost var created := fs.entries;
      FilesUnderNewDirs(old(fs.entries), created, folder);
      DirsChangeNothingElse(old(fs.entries), created, folder);
      ghost var ordered;
      ok, ordered := KeepMostRecentFiles(fs, folder, keep);
      ChangesCompose(old(fs.entries), created, fs.entries, folder);
      if ok {
        PruneOutcome(created, folder, ordered, keep);
      }
    }

    /** `DumpNow(postfix)`: the dump, then, when it resolved true, the pruning of the dump
        folder; a rejection, or an exception of the pruning, is caught and logged. A dump
        whose monthly copy throws never settles, and nothing after it runs. A failed dump
        leaves the folder's other files alone and the server as it was. After a written
        dump that settles, the folder holds its old files and the dump, pruned to
        `filesToKeep`; a dump newer than every other file there is among those left. */
    method DumpNow(fs: Disk, server: map<Ftp.Dir, seq<string>>, now: Clock.DateTime, postfix: string,
                   outcome: WriteOutcome) returns (settles: bool, errorLogged: bool, remote: map<Ftp.Dir, seq<string>>)
      requires Valid() && Clock.Valid(now) && Ftp.Server(server) && fs.Valid()
      modifies fs
      ensures fs.Valid()
      ensures Ftp.Server(remote)
      ensures outcome != Finished ==> remote == server && settles
      ensures UnderFile(old(fs.entries), DumpFolderPath(home, settings.dumpPath, manual)) ==>
                errorLogged && settles && fs.entries == old(fs.entries) && remote == server
      ensures Flat(dbName, postfix) ==>
        var folder := DumpFolderPath(home, settings.dumpPath, manual);
        var name := DumpNames.DumpName(dbName, postfix, now);
        var written := outcome == Finished && !Obstructed(old(fs.entries), folder)
                       && !IsDir(old(fs.entries), folder + [name]);
        && (errorLogged <==> UnderFile(old(fs.entries), folder))
        && (!settles <==> written && !manual && MonthlyFails(old(fs.entries), name, now))
        && (!written ==> FilesOf(fs.entries, folder) == FilesOf(old(fs.entries), folder) - {name})
        && (!settles ==> FilesOf(fs.entries, folder) == FilesOf(old(fs.entries), folder)[name := Clock.Instant(now)])
        && (settles && written && filesToKeep >= 1
            && (forall n :: n in FilesOf(old(fs.entries), folder) && n != name ==>
                  FilesOf(old(fs.entries), folder)[n] < Clock.Instant(now))
            ==> name in FilesOf(fs.entries, folder) && |RegularFiles(fs.entries, folder)| <= filesToKeep)
        && (settles && written ==>
              PrunedFiles(FilesOf(old(fs.entries), folder)[name := Clock.Instant(now)], FilesOf(fs.entries, folder), filesToKeep))
        && Ftp.Evolves(server, remote, name, !manual)
    {
      var result;
      result, remote := DumpDatabase(fs, server, now, postfix, outcome);
      ghost var dumped := fs.entries;
      settles := result != Pending;
      errorLogged := result == Rejected;
      if result == Resolved(true) {
        var organized := OrganizeDumpFiles(fs);
        errorLogged := !organized;
        if Flat(dbName, postfix) {
          var folder := DumpFolderPath(home, settings.dumpPath, manual);
          var name := DumpNames.DumpName(dbName, postfix, now);
          FileHasNoChildren(dumped, folder);
          assert name in RegularFiles(dumped, folder);
          DumpSurvives(old(fs.entries), dumped, fs.entries, folder, name, Clock.Instant(now), filesToKeep);
        }
      }
    }
  }
}

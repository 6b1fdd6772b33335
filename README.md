# db-tools in Dafny

A model of the core of `db-tools`. The library connects an application to a
relational database, keeps the database's schema up to date from a folder of
versioned SQL scripts, and dumps the database on a schedule. It rotates those
dumps on the local disk and on an FTP server.

Three source files make up the core:

- `src/db-dumper.ts`: the dumper class `DbDumper`.
  - Folders: where dumps go (`daily`, `manual`, `monthly` under `dumpPath`).
  - Names: a dump is called `dbName[_postfix]_YYYY_MM_DDTHH_mm_ss.sql.gz`.
  - Writing: a dump is piped into that file.
  - Monthly archive: the first dump of each month is kept in `monthly`.
  - Local rotation: keeps the newest files of a folder by modification time.
  - FTP transfer: uploads the dump and runs the same rotations there. On the server
    they work on names in alphabetical order, not on times.
- `src/db-tools.ts`: the class `DbTools`.
  - Stored functions: a database records its version in the stored function
    `__dbVersion` and its application in `__application`.
  - Script selection: picks the migration scripts to run. It lists `*.sql`, parses
    each name as a semantic version, sorts by precedence and keeps those above the
    recorded version.
  - Update: runs the selected scripts, then records the last version.
- `src/db.ts`, `_configureSequelize`: turns the connection options into the
  configuration handed to Sequelize. This covers default ports per engine, the
  dialect options and their time-zone defaults, and the sqlite check.

The modules follow that structure:

- General-purpose modules:
  - `Seqs` holds the JavaScript array operations the code relies on. `slice` follows
    its negative-bound rules. `filter` is here, and so is the stable `sort` as
    insertion driven by a comparator.
  - `JsText` holds JavaScript string behaviour. `<` compares character by character. Also here:
    `endsWith`, ASCII `toLowerCase`, `path.extname` and `split`.
  - `SemVer` models node-semver 7 (`new SemVer`, `compare`, `gt`).
- Dumper side:
  - `Clock` models the moment formats.
  - `DumpNames` builds the dump file name.
  - `MonthPattern` models the monthly regular expression.
  - `LocalFs` is the disk, a class `Disk` over a map from paths to entries. It also
    models `path.join`.
  - `Rotation` specifies `orderedReccentFiles` and `keepMostRecentFiles`.
  - `Ftp` is the remote tree, a class `FtpClient` with a working directory, and the
    name-based rotation.
  - `Dumper` holds the class `DbDumper`.
- `DbTools` holds the script selection and the class `Tools`, which models the
  server's stored functions and the statements sent to it.
- `Database` holds `_configureSequelize` and the class `Db`.

How the outside world enters the model:

- Every operation reads one clock value `now`, passed in as a parameter.
- The working directory `cwd()` is a constant of the dumper.
- The outcome of the `mariadb-dump | gzip` pipe is a parameter.
- FTP calls may fail at any point: each client method may return failure, and a
  failure leaves the server as it was.
- A disk call fails where Node's would: when an ancestor of the path is a regular
  file, or the path is a directory where a file is wanted. A failure changes nothing.
- The order in which `readdir` lists names is left open. The properties about it
  hold for every order it may choose.

## Model

| member | source | states |
|---|---|---|
| Seqs.Slice | src/db-dumper.ts:215 | `slice(start, end)`: each bound is clamped after negative bounds count from the end, and the result is that range, or empty when the bounds cross |
| Seqs.SliceFromCases | src/db-dumper.ts:240 | `slice(k)` drops the first `k` elements for `0 <= k <= length` and is empty past the end; a negative `k` keeps the last `-k` (all when `-k` exceeds the length) |
| Seqs.SliceDropLastCases | src/db-dumper.ts:215 | `slice(0, -n)` drops the last `n` for `0 < n <= length`; it is empty for `n == 0` and for `n` past the length, and keeps the first `-n` for a negative `n` |
| Seqs.Filter | src/db-dumper.ts:211 | an element is in `filter(keep)` exactly when it is in the input and passes `keep`, and the result is no longer than the input |
| Seqs.Sort | src/db-dumper.ts:233 | the comparator sort returns a permutation of its input (same multiset) |
| Seqs.SortSorted | src/db-dumper.ts:214 | with a strict weak order as comparator, no element of the sorted result comes after one it must precede |
| Seqs.FilterSorted | src/db-tools.ts:76-79 | filtering a sorted sequence keeps it sorted |
| JsText.LessIsStrictWeakOrder | src/db-dumper.ts:193 | string `<`, read character by character (JavaScript's code-unit order for names without characters above U+FFFF, see Left out), is irreflexive and transitive, and of two different strings one is below the other, so the name comparator is a strict weak order |
| JsText.LessConcatSameLength | src/db-dumper.ts:89 | of two texts whose first parts have equal length, the order is decided by the first parts and, when they are equal, by the rests |
| JsText.ToLower | src/db-tools.ts:68 | ASCII lower-casing: keeps the length and lowers each character on its own, `A`-`Z` to `a`-`z`, every other character unchanged; for the `.sql` test this reads the same as `toLowerCase` (see Left out) |
| JsText.ExtName | src/db-dumper.ts:211 | `path.extname` is empty or a proper suffix starting with the last '.', with no other '.'; it is empty when the last '.' is at position 0 or missing, or the name is `..` |
| JsText.ExtNameOfSuffix | src/db-dumper.ts:211 | a non-empty text followed by `.ext` (no further dot) has extension `.ext` |
| JsText.Split | src/db-dumper.ts:181 | `split(sep)` yields at least one piece, and no piece contains the separator |
| JsText.SplitThree | src/db-tools.ts:73 | three pieces without the separator, joined by it, split back into exactly those three |
| Clock.Format | src/db-dumper.ts:89 | `format('YYYY_MM_DDTHH_mm_ss')` has 19 characters: digits, with `_` at 4, 7, 13, 16 and `T` at 10 |
| Clock.FormatStartsWithMonth | src/db-dumper.ts:105 | the first 8 characters of the dump stamp are the month prefix `YYYY_MM_` that the monthly pattern uses |
| Clock.FormatOrder | src/db-dumper.ts:89 | one stamp is below another as a string exactly when its time is earlier |
| Clock.FormatInjective | src/db-dumper.ts:89 | different times give different stamps |
| DumpNames.DumpName | src/db-dumper.ts:84-92 | the dump name starts with `dbName`, ends with `.sql.gz` and has the length the template gives (27 characters besides the name and `_postfix`) |
| DumpNames.DumpNameExtension | src/db-dumper.ts:211 | the extension of a dump name is `.gz`, so the FTP rotation counts dumps |
| DumpNames.DumpNameOrder | src/db-dumper.ts:213-215 | two dump names of one database and postfix compare alphabetically exactly as their times do, so rotating by name keeps the newest dumps |
| DumpNames.DumpNameInjective | src/db-dumper.ts:84-92 | dumps taken at different times have different names |
| DumpNames.DumpNameMatchesMonth | src/db-dumper.ts:104-106 | a dump taken without a postfix matches the monthly pattern of its own month |
| DumpNames.DumpNameOneComponent | src/db-dumper.ts:112 | a dump name built from a name and postfix without '/' has no '/' |
| MonthPattern.Compile | src/db-dumper.ts:105 | each character of the text pasted into the pattern stands for itself, except '.', which is a wildcard |
| MonthPattern.Head | src/db-dumper.ts:105 | the head `dbName_YYYY_MM_` of the pattern has nine positions more than `dbName` has characters |
| MonthPattern.Matching | src/db-dumper.ts:156 | the filter keeps exactly the listed names the monthly pattern matches |
| MonthPattern.MonthlyMatchMeans | src/db-dumper.ts:104-106 | the position-by-position search succeeds exactly when the unanchored pattern matches: the head somewhere, then at least one character, then any character and `sql`, all on one line |
| MonthPattern.CompileMatchesItself | src/db-dumper.ts:105 | a text always matches the pattern made from it |
| LocalFs.RegularFiles | src/db-dumper.ts:231 | the names in a folder that `lstat` reports as files |
| LocalFs.Normalize | src/db-dumper.ts:75 | resolving path segments always yields a normal path (no empty, `.` or `..` component) |
| LocalFs.NormalizeAppendPlain | src/db-dumper.ts:74-75 | joining one more plain segment appends it to the path |
| LocalFs.Join | src/db-dumper.ts:95 | `path.join` of a normal path and a relative text is normal |
| LocalFs.JoinName | src/db-dumper.ts:95 | joining a plain name without '/' adds exactly that component |
| LocalFs.Basename | src/db-dumper.ts:159 | `path.basename` is the last component: the path is its parent plus that name |
| LocalFs.OtherFolderUntouched | src/db-dumper.ts:236-245 | a change confined to one folder leaves every entry of another folder as it was |
| LocalFs.Disk.constructor | src/db-dumper.ts:5 | a disk starts with the given entries |
| LocalFs.Disk.ReadDir | src/db-dumper.ts:230 | `readdirSync` succeeds exactly when the path is a directory, and then lists each child once and nothing else; otherwise it throws with nothing listed |
| LocalFs.Disk.Unlink | src/db-dumper.ts:242 | `unlinkSync` succeeds exactly when the path is a file, and then removes that entry only; otherwise it throws and nothing changes |
| LocalFs.Disk.CopyFile | src/db-dumper.ts:159 | `copyFileSync` succeeds exactly when the source is a file and the target's parent is a directory and the target no directory; then the target is a file stamped with the copy time and nothing else changes, otherwise nothing changes |
| LocalFs.Disk.CreateFile | src/db-dumper.ts:112 | `createWriteStream` opens exactly when the parent is a directory and the path no directory; then the path is a file stamped with the write time and nothing else changes, otherwise nothing changes |
| LocalFs.Disk.EnsureFolder | src/db-dumper.ts:77-79 | `existsSync` then `mkdirSync(recursive)`: fails, changing nothing, exactly when an ancestor is a file; an existing path is left as it is; otherwise the folder and its ancestors are directories afterwards, and the only entries added are directories along its path |
| Rotation.NewerIsStrictWeakOrder | src/db-dumper.ts:233 | "greater modification time" is a strict weak order, so the sort is well defined |
| Rotation.FilesOnly | src/db-dumper.ts:231 | the filter keeps exactly the listed names that are files |
| Rotation.Stats | src/db-dumper.ts:232 | the map pairs each name, in order, with its modification time |
| Rotation.OrderRecentIsNewestFirst | src/db-dumper.ts:229-234 | on a listing of the folder, the result holds each file of the folder once with its time, ordered newest first |
| Rotation.Kept | src/db-dumper.ts:240 | how many entries `slice(k)` leaves in front: `min(n, k)` for `k >= 0`, `max(0, n + k)` below |
| Rotation.PrunedPaths | src/db-dumper.ts:240-243 | the removed paths are exactly the folder's entries for the names past the first `Kept` |
| Rotation.PruneNothingWhenFew | src/db-dumper.ts:239 | a folder with no more than `k` files loses nothing |
| Rotation.PruneKeepsNewest | src/db-dumper.ts:236-245 | after pruning, the folder's files are exactly the first `Kept` names; only files of that folder were removed, every other entry is unchanged, and each survivor is at least as new as each removed file |
| Rotation.NewestSurvives | src/db-dumper.ts:236-245 | with `k >= 1`, a file strictly newer than the others survives, and at most `k` files remain |
| Rotation.NamesNewestFirst | src/db-dumper.ts:60-64 | the names of a newest-first listing are the folder's files, each once, newest first |
| Rotation.CopyIsNewest | src/db-dumper.ts:159 | a file written later than every file of the folder is its strictly newest |
| Rotation.PruneOutcome | src/db-dumper.ts:236-245 | pruning to `k` as `PrunedFiles` states: unchanged with at most `k` files; otherwise the survivors are earlier files with their times, exactly `Kept(n, k)` of them, none older than a deleted file, and a strictly newest file survives |
| Rotation.PruneCount | src/db-dumper.ts:240-243 | after pruning, the folder holds exactly `Kept(n, k)` regular files |
| Rotation.PruneByAge | src/db-dumper.ts:236-243 | after pruning, no surviving file of the folder is older than a deleted one |
| Dumper.CountOr | src/db-dumper.ts:25-26 | `n \|\| fallback`: an absent or zero count gives the fallback, and any other count, negative included, is kept |
| Dumper.DumpFolderPath | src/db-dumper.ts:72-75 | the dump folder is `cwd` joined with `dumpPath \|\| './backup/'` and then `manual` or `daily` |
| Dumper.MonthlyFolderPath | src/db-dumper.ts:95 | the monthly folder is the dump folder plus `monthly` |
| Dumper.FoldersApart | src/db-dumper.ts:72-102 | no file of the manual folder is a file of the daily or monthly folder, and no daily file is a monthly file |
| Dumper.WrittenFiles | src/db-dumper.ts:143-150 | a finished write adds or re-stamps the dump among the folder's files; a failed one leaves the folder without it |
| Dumper.DumpSurvives | src/db-dumper.ts:48-53 | a dump newer than every other file of the folder is still there after the pruning, with at most `k` files left |
| Dumper.DbDumper.constructor | src/db-dumper.ts:23-34 | counts default to 5 and 6 through `\|\|`; the cron job is scheduled exactly when asked and at least one file is kept |
| Dumper.DbDumper.DumpFolder | src/db-dumper.ts:72-82 | returns the dump folder; throws, changing nothing, exactly when an ancestor is a file; otherwise the folder exists (a directory when it was missing), and only directories on its path are added |
| Dumper.DbDumper.MonthlyDumpFolder | src/db-dumper.ts:94-102 | returns the monthly folder; throws, changing nothing, exactly when an ancestor is a file; otherwise it exists (a directory when it was missing), and only directories on its path are added |
| Dumper.DbDumper.DumpFileName | src/db-dumper.ts:84-92 | the name is `DumpName(dbName, postfix, now)` |
| Dumper.DbDumper.OrderedRecentFiles | src/db-dumper.ts:229-234 | throws exactly when the folder is not a directory; otherwise returns the folder's files, each once, with their times, newest first |
| Dumper.DbDumper.ListDailyDumps | src/db-dumper.ts:60-64 | throws exactly when the dump folder cannot be made a directory; otherwise the names of its files, newest first; only directories are created |
| Dumper.DbDumper.ListMonthlyDumps | src/db-dumper.ts:66-70 | throws exactly when the monthly folder cannot be made a directory; otherwise the names of its files, newest first; only directories are created |
| Dumper.DbDumper.KeepMostRecentFiles | src/db-dumper.ts:236-245 | throws, removing nothing, exactly when the folder is not a directory; otherwise removes exactly `PrunedPaths` of a newest-first listing, and changes nothing outside the folder |
| Dumper.DbDumper.UnlinkEach | src/db-dumper.ts:241-243 | the `forEach` removes exactly the listed files |
| Dumper.DbDumper.MonthlyStorage | src/db-dumper.ts:154-163 | throws, changing nothing, exactly when `MonthlyFails` (the folder cannot be a directory, or the month has no dump and the name is a directory); only the monthly folder changes, by directories only when the month has a dump; otherwise its files are those with the copy added, pruned to `monthlyFilesToKeep` as `PrunedFiles` states (exactly `Kept(n, k)` left, none older than a removed one); a matching copy newer than the folder's files makes the month archived |
| Dumper.DbDumper.CreatedAlike | src/db-dumper.ts:155-156 | directories made on the way to the monthly folder change neither whether the month is archived, nor whether the copy's name is a directory, nor the folder's files |
| Dumper.DbDumper.StoreIn | src/db-dumper.ts:156-162 | `readdirSync` of the monthly folder and, when no name matches the month, the copy: succeeds exactly when the folder is a directory and the month is archived or the name is no directory; an archived month changes nothing; otherwise the folder's files are its old files plus the copy, pruned as `PrunedFiles` states |
| Dumper.DbDumper.NotArchivedWithoutMatch | src/db-dumper.ts:156-158 | an empty match list means no name of the folder matches the month |
| Dumper.DbDumper.ArchiveCopy | src/db-dumper.ts:159-161 | the copy fails, changing nothing, exactly when its name is a directory; otherwise the folder's files are its old files plus the copy, pruned to `monthlyFilesToKeep` as `PrunedFiles` states (exactly `Kept(n, k)` left, none older than a removed one), and a copy newer than its files survives when at least one is kept |
| Dumper.DbDumper.ConnectionConfig | src/db-dumper.ts:171-176 | host always; user and password only when non-empty; `secure` true unless set; port only when positive |
| Dumper.DbDumper.KeepMostRecentFilesFtp | src/db-dumper.ts:208-221 | removes only names of `Ftp.Doomed(listing, threshold, filesToKeep)`, all of them when every call succeeds, and nothing else |
| Dumper.DbDumper.RemoveEach | src/db-dumper.ts:217-219 | the loop removes only names of the list, all of them when no call fails, and changes nothing else |
| Dumper.DbDumper.SendDumpToFtp | src/db-dumper.ts:165-206 | without a host nothing happens; otherwise directories and listings are kept, only the dump's name or directories appear, and a scheduled dumper removes only snapshots; a manual dumper removes nothing, adds files only to `manual` below `ftpPath`, and without an error its dump is listed there; a scheduled one without error (and a path without `..`) leaves `ftpPath` listing its old names plus the dump, rotated to `numberFilesToKeep` (and `monthly` when that was created), and leaves `monthly` unchanged when the month is listed there, otherwise as the listing plus the dump, rotated |
| Dumper.DbDumper.EnterBase | src/db-dumper.ts:181 | `ensureDir(ftpPath)` when a path is given: on success the client is in `FtpBase()`, only directories were added, and for a path without `..` every directory at least that deep lists what it did |
| Dumper.DbDumper.SendManual | src/db-dumper.ts:182-185 | `ensureDir('manual')` then the upload: nothing removed, files added only to `manual` below the current directory, and on success the dump is listed there |
| Dumper.DbDumper.SendScheduled | src/db-dumper.ts:185-200 | the upload, then the rotations: only snapshots removed; on success the current directory lists its old names plus the dump, rotated to `filesToKeep`, followed by `monthly` only when that directory was just created; with monthly files kept, `monthly` below it is its old listing when that lists the month, else the listing plus the dump, rotated |
| Dumper.DbDumper.RotateRemote | src/db-dumper.ts:187-200 | the daily and monthly rotations remove only snapshots and add only the dump's name or directories; on success the current directory lists its old names rotated to `filesToKeep`, followed by `monthly` only when monthly files are kept and that directory was just created; with monthly files kept, `monthly` is as it was when it already lists a dump of the month, else its old listing plus the dump, rotated |
| Dumper.DbDumper.EnterFolder | src/db-dumper.ts:183 | `ensureDir` of one plain name: nothing lost, only directories added, every listing keeps its names in front and gains at most that name; on success the client is one level down in a directory listing what it listed before |
| Dumper.DbDumper.ArchiveRemote | src/db-dumper.ts:192-198 | `list`, sort and match in `monthly`: only that directory's listing changes; on success it is unchanged when a name matches the month, else its listing plus the dump, rotated to `monthlyFilesToKeep` |
| Dumper.DbDumper.DumpDatabase | src/db-dumper.ts:108-152 | rejects, changing nothing, exactly when an ancestor of the dump folder is a file; resolves true or stays pending exactly when the write finishes in a folder that is (or becomes) a directory on a name that is no directory, and then the dump is among the folder's files with the time `now`, else the folder's files lack it; stays pending exactly when the monthly copy throws; the server is untouched unless it resolves true |
| Dumper.DbDumper.WriteInFolder | src/db-dumper.ts:112-151 | after `dumpFolder()`: the same outcome as `DumpDatabase`, stated against the disk before the folder was made |
| Dumper.DbDumper.DumpOutcome | src/db-dumper.ts:112-151 | the outcome of the write and `onSuccess` after `dumpFolder()` read against the disk before it: written exactly when the folder could be a directory and the name was none, pending exactly when `MonthlyFails` held before, and the folder's files with or without the dump |
| Dumper.DbDumper.WriteAndReport | src/db-dumper.ts:125-151 | the write stream and, when it finishes, `onSuccess`: written exactly when the stream finishes on a writable path; pending exactly when the monthly copy of the written disk throws; a manual dump changes nothing more, a scheduled one only the monthly folder |
| Dumper.DbDumper.FolderMade | src/db-dumper.ts:112 | after `dumpFolder()` succeeded, the file can be opened exactly when the folder could be a directory and the name was no directory; the folder's files are as before |
| Dumper.DbDumper.MonthlyFailsAfterWrite | src/db-dumper.ts:129 | writing the dump into the dump folder changes nothing the monthly copy's failure depends on |
| Dumper.DbDumper.WriteDump | src/db-dumper.ts:134-150 | the stream finishes exactly when it ends without error and the file could be opened, leaving the file stamped `now`; otherwise the path is unlinked (a directory in the way stays) |
| Dumper.DbDumper.OnSuccess | src/db-dumper.ts:125-132 | resolves exactly when the dumper is manual or the monthly copy does not throw; a throw leaves disk and server as they were; a manual dumper leaves the disk alone, a scheduled one changes only the monthly folder; the server evolves as the transfer allows |
| Dumper.DbDumper.OrganizeDumpFiles | src/db-dumper.ts:223-227 | throws, changing nothing, exactly when the dump folder cannot be a directory; only the dump folder changes, and it is pruned to `numberFilesToKeep \|\| 5` as `PrunedTo` states: unchanged with that many files or fewer, otherwise exactly `Kept(n, k)` of its files left with their times, none older than a deleted one |
| Dumper.DbDumper.DumpNow | src/db-dumper.ts:48-58 | a rejected dump is logged and leaves disk and server alone; it never settles exactly when the monthly copy throws, and then the folder holds the dump; a failed dump leaves the server and the folder's other files alone; a settled, written dump leaves the folder's old files plus the dump pruned to `filesToKeep` as `PrunedFiles` states, so a dump newer than the folder's files survives with at most `filesToKeep` files left |
| Ftp.RemoveNames | src/db-dumper.ts:218 | the listing keeps exactly the names not removed |
| Ftp.RemoveNamesTwice | src/db-dumper.ts:217-219 | removing one more name after a set is removing the union |
| Ftp.Cut | src/db-dumper.ts:215 | how many names `slice(0, -keep)` yields: none for 0, `n - keep` past `keep` for a positive `keep`, the first `-keep` for a negative one |
| Ftp.SortedSnapshots | src/db-dumper.ts:211-214 | the sorted snapshots are the listing's `.sql`/`.gz` names, each once, strictly ascending |
| Ftp.DoomedIsSortedPrefix | src/db-dumper.ts:211-216 | the rotation removes the first `Cut` sorted snapshots when there are more than `threshold`, else nothing |
| Ftp.DoomedAreSnapshots | src/db-dumper.ts:211-216 | only snapshots of the listing are removed, each once, and none when they are no more than `threshold` |
| Ftp.DoomedBelowKept | src/db-dumper.ts:213-215 | every removed name sorts below every snapshot that stays |
| Ftp.SnapshotsLeft | src/db-dumper.ts:212-215 | with `keep > 0` the rotation removes `count - keep` snapshots when there are more than `threshold` and more than `keep`, else none |
| Ftp.RotationEvolves | src/db-dumper.ts:208-221 | removing rotation names keeps every directory and removes snapshots only |
| Ftp.FtpClient.constructor | src/db-dumper.ts:178 | a client starts in the login directory of the server |
| Ftp.FtpClient.List | src/db-dumper.ts:209 | `list()` returns the current directory's names |
| Ftp.FtpClient.UploadFrom | src/db-dumper.ts:185 | an upload adds the name to the current directory (once) only if the local file exists and the name is not a directory; a failure changes nothing |
| Ftp.FtpClient.Remove | src/db-dumper.ts:218 | `remove(name)` succeeds only on a listed file and then removes exactly that name |
| Ftp.FtpClient.EnsureDir | src/db-dumper.ts:181 | `ensureDir(path)` keeps everything, adds only directories, lets each listing grow only by components of the path, and on success ends in the directory the path names, from the root when it starts with '/' |
| Ftp.FtpClient.EnterEach | src/db-dumper.ts:181 | the components in turn: on success the client is where they lead from the start; nothing is lost, only directories are added, listings grow only by the components, and without `..` every directory as deep lists what it did |
| Ftp.FtpClient.Enter | src/db-dumper.ts:181-183 | one step of `ensureDir`: `MKD` then `CWD`; on success the directory is the step resolved from the old one; listings of other directories are unchanged, the current one gains at most the step's name, and a name that is not a plain component changes nothing |
| Ftp.FtpClient.EnterDots | src/db-dumper.ts:181 | the tree is unchanged; on success `.` stays, `..` goes to the parent, and `..` at the root stays at the root |
| Ftp.FtpClient.EnterName | src/db-dumper.ts:181-183 | `MKD name` (made when missing) then `CWD name`: on success the client is one level down; other directories list what they did, and the current one gains at most `name`, at its end |
| Ftp.ListingAsBefore | src/db-dumper.ts:181-191 | a directory at least as deep as the one `ensureDir` ended in lists, existing or not, what it listed before |
| SemVer.Parse | src/db-tools.ts:73 | a version parses only from at most 256 characters, keeps the input as `raw`, and has major, minor and patch within the safe-integer range |
| SemVer.EmptyIsNoVersion | src/db-tools.ts:33 | the empty text is not a version |
| SemVer.ParsePlain | src/db-tools.ts:37 | the text `major.minor.patch` printed from safe numbers parses back to that version with that text as `raw` |
| SemVer.CompareFlip | src/db-tools.ts:70 | `compare` is antisymmetric, returns -1, 0 or 1, and is 0 exactly when main version and prerelease agree (build ignored) |
| SemVer.CompareTransitive | src/db-tools.ts:78 | precedence is transitive |
| SemVer.LowerIsStrictWeakOrder | src/db-tools.ts:70 | "compares below" is a strict weak order, so sorting by `compare` is well defined |
| DbTools.Stem | src/db-tools.ts:69 | a script's stem is its name without the last four characters |
| DbTools.ScriptPathOfName | src/db-tools.ts:68-72 | the path a script is read from is its listed name in the folder exactly when the name ends in lower-case `.sql` |
| DbTools.Scripts | src/db-tools.ts:67-74 | listing the scripts throws exactly when some `.sql` name is not a version |
| DbTools.ScriptsMembers | src/db-tools.ts:67-74 | the scripts are exactly the listed `.sql` names, with path and parsed version |
| DbTools.CurrentVersion | src/db-tools.ts:30-34 | no stored text gives no version; a stored text that is not a version throws; otherwise the version it parses to |
| DbTools.OrderMembers | src/db-tools.ts:70-79 | the ordering keeps exactly the scripts above the current version (all without one) |
| DbTools.OrderSorted | src/db-tools.ts:70-79 | the selected scripts are in ascending precedence |
| DbTools.ByVersionIsStrictWeakOrder | src/db-tools.ts:70 | ordering scripts by version precedence is a strict weak order |
| DbTools.SelectFails | src/db-tools.ts:65-81 | selection throws exactly when the stored version is unreadable or a script name is not a version |
| DbTools.SelectSorted | src/db-tools.ts:65-81 | the selection is in ascending precedence |
| DbTools.SelectMembers | src/db-tools.ts:65-81 | the selection is exactly the listed scripts above the stored version |
| DbTools.SelectAllWithoutVersion | src/db-tools.ts:76-80 | without a stored version every script is selected (a permutation of them) |
| DbTools.UpdateRequiredMeans | src/db-tools.ts:49-51 | an update is required exactly when some listed script is above the stored version |
| DbTools.LastIsGreatest | src/db-tools.ts:63 | the last selected script has the greatest version |
| DbTools.VersionReadsBack | src/db-tools.ts:30-38 | the text `setVersion` stores for a parsed version reads back as that version |
| DbTools.ScriptsReadBack | src/db-tools.ts:35-38 | every script's version, stored, reads back as itself |
| DbTools.SelectAfterUpdate | src/db-tools.ts:52-81 | with the last selected version stored, the same listing selects nothing |
| DbTools.UpdateSelectsNothing | src/db-tools.ts:52-64 | after recording the last selected version, selection is empty |
| DbTools.FunctionKeyInjective | src/db-tools.ts:41-42 | different functions of one database are called by different names |
| DbTools.GetFunctionQuery | src/db-tools.ts:41-44 | the query selects exactly the column `getFunction` reads |
| DbTools.Literal | src/db-tools.ts:82-87 | a string is written between two quotes with the returned value between them, and without a quote of its own its only quotes are those two; other values are written as returned |
| DbTools.Last | src/db-tools.ts:63 | `pop()?.semver` is absent exactly for an empty selection |
| DbTools.Contents | src/db-tools.ts:54-62 | the texts sent are at most one per script, each the content of a selected script |
| DbTools.Tools.constructor | src/db-tools.ts:7-9 | the tools start with the server's databases and functions and nothing sent |
| DbTools.Tools.GetFunction | src/db-tools.ts:39-48 | a value exactly when the function exists under the (prefixed) name, and then its value |
| DbTools.Tools.SetFunction | src/db-tools.ts:82-90 | sends the drop-and-create statement, after which `getFunction(name)` returns the value |
| DbTools.Tools.SetApp | src/db-tools.ts:27-29 | afterwards `getApp()` returns the application name; no other function changes |
| DbTools.Tools.SetVersion | src/db-tools.ts:35-38 | records the version's text, or does nothing without a version |
| DbTools.Tools.DbNames | src/db-tools.ts:10-23 | without an application name, every database; otherwise exactly those whose `__application` is that name |
| DbTools.Tools.DbNamesInOrder | src/db-tools.ts:17-22 | the names keep the order of `SHOW DATABASES` |
| DbTools.Tools.RunScripts | src/db-tools.ts:54-62 | sends each readable script's content in order, changing no function |
| DbTools.Tools.Update | src/db-tools.ts:52-64 | fails exactly when selection throws, then changing nothing; otherwise sends the scripts, records the last version, and afterwards selects nothing |
| Database.Or | src/db.ts:89 | the option's text when present and non-empty, else the fallback; the result is empty only when both are |
| Database.PortChoice | src/db.ts:80-84 | a given non-zero port is used; otherwise 1433, 5432, none or 3306 by engine; only sqlite has no port |
| Database.ResolveLogging | src/db.ts:90-91 | logging is off unless the option is true |
| Database.ResolveDialect | src/db.ts:104-127 | postgres and sqlite get no dialect options; MySQL has a 5-minute connect timeout; every time zone is non-empty |
| Database.ResolveFails | src/db.ts:70-78 | configuration throws exactly for sqlite without a storage path; a mock gets in-memory sqlite without logging |
| Database.ResolveCopies | src/db.ts:86-102 | database, user, password, dialect and storage are copied; host defaults to `localhost`; the pool is 5 min, 10 s, 10, 1; the port is the chosen one |
| Database.TimezoneDefaults | src/db.ts:104-127 | MySQL and MariaDB get `+00:00`, MSSQL `Europe/Zurich` unless a time zone is given; dialect options follow the engine |
| Database.Db.constructor | src/db.ts:13-21 | constructing configures Sequelize when the options resolve; where the source's constructor throws, the object has no configuration (see Left out) |
| Database.Db.ConfigureSequelize | src/db.ts:69-130 | succeeds exactly when the options resolve, setting the configuration; otherwise the previous one stays |

## Left out

- The cron schedule and the logging are not modelled. The time zone of the cron job and the `winston` logger only decide when and what gets logged.
- The `mariadb-dump` process and its gzip pipe are left out. Only how the write stream ends is modelled, as a parameter; the dump's contents are not.
- Clock readings are one value `now` shared by a run. The source reads `moment()` several times; a run crossing a second or month boundary is not modelled.
- `cwd()` is a constant of the dumper; the process's directory is not expected to change.
- Database names containing a regular-expression meta-character other than '.' are excluded (`PlainText`). The model only handles patterns made of literals and dots.
- The FTP login directory is the root of the remote tree; absolute `ftpPath`s start from it.
- FTP failures are nondeterministic: each call may fail. Timeouts and partial transfers are not distinguished from refusals.
- `path.join` is modelled on normal paths: the working directory has no `.`, `..` or empty components, and `..` never climbs above the root.
- A new file's modification time is the `now` of the run.
- `dumpFolder()` is called several times per run in the source; the model calls it once where the result cannot differ.
- Dumper.DbDumper.DumpDatabase: the per-file outcome is stated only when `dbName` and the postfix contain no '/' (`Flat`); otherwise the dump lands in another folder and only the server-side facts are stated.
- Dumper.DbDumper.DumpNow: the same `Flat` restriction applies to its per-file outcome.
- Dumper.DbDumper.SendDumpToFtp: for a scheduled dumper the remote tree outside `monthly` is bounded by `Evolves` (what may appear or disappear) rather than given exactly.
- Dumper.DbDumper.SendDumpToFtp: the exact `monthly` listing is stated only for an `ftpPath` without a `..` component (`PlainFtpPath`). With `..` the walk may pass through directories below the final one, and the model does not track what that does to them.
- Dumper.DbDumper.MonthlyStorage: archiving the month is stated only when the copy matches the pattern and is newer than every file of the monthly folder.
- Ftp.FtpClient.EnsureDir: the tree afterwards is bounded (nothing lost, only directories added, listings grown only by path components), not given exactly.
- JsText.ToLower: lowers `A`-`Z` only. JavaScript's `toLowerCase` also lowers other letters, and turns U+0130 into two characters; none of them lowers to `.`, `s`, `q` or `l`, so the `.sql` filter of the script listing selects the same names.
- Database.Db.constructor: where `_configureSequelize` throws (sqlite without a storage path), `new Db(options)` throws in the source and no object exists; the model's constructor cannot fail, so it returns an object whose `sequelize` is `None`, and `Database.Db.ConfigureSequelize` reports the throw as `ok == false`.
- Clock.Valid: a moment's year lies in 0..9999, the range `YYYY` formats as exactly four digits; later or negative years, which `moment` formats with more characters or a sign, are not modelled.
- SemVer.Parse: identifiers of 2^53 and more are rejected for major, minor and patch. A numeric prerelease identifier above that is compared here as an exact number, not a rounded double.
- SemVer.Parse: its contract states what every successful parse guarantees; the full grammar is its body, and `SemVer.ParsePlain` gives the round trip for plain versions only.
- Scripts run by `update` are assumed not to change `__dbVersion` or `__application` themselves.
- The `select` queries of `getFunction` and `SHOW DATABASES` are reads and are not recorded among the statements sent.
- Error messages are not modelled exactly. When several names are invalid, which one the thrown error names is not captured.
- `setVersion` does not await `setFunction`; the model completes it before `update` returns.
- A string value containing a single quote would break the created function's body. The model stores it as given.
- `VARCHAR(200)` truncation of stored values is not modelled.
- `getFunction` with no database reads the current database's functions by their bare name. Functions of the current database reached through a qualified name are separate keys in the model.
- `readdirSync` throwing (a missing scripts folder) is not modelled; the listing is a parameter.
- `options.type.inst = this` and the logger assignment in the `Db` constructor are registrations, not modelled.
- The `DATE` `_stringify` patch for MSSQL changes Sequelize globally and is not modelled.
- `new Sequelize(options)` is a foreign call: the model records the options it is given.
- `_init`, the abstract `init` and `src/idb-options.ts` are outside this model.
- Changes to the disk by other processes between two calls are not modelled. In particular a file unlinked by `keepMostRecentFiles` cannot vanish between the listing and the `unlinkSync`.
- JavaScript strings are sequences of UTF-16 code units, Dafny strings sequences of Unicode scalar values. `JsText.Less` therefore orders a character above U+FFFF after U+E000–U+FFFF, where JavaScript, comparing its leading surrogate, orders it before them. Names with such characters may sort differently in the FTP rotation. Such a character also counts once here and twice in JavaScript toward a length, such as the 256 limit of `SemVer.Parse`.
- `lstat` reports a symbolic link as neither a file nor a directory, and `unlinkSync` removes it. The disk model has only files and directories, so links are not modelled.

Where the code differs from the documented behaviour, the model follows the code:

- Manual dumps are pruned too: `organizeDumpFiles` prunes `dumpFolder()`, which for a manual dumper is the manual folder.
- Only write-stream errors reach `onError`. A failing `mariadb-dump` still finishes the stream, which counts as success.
- The FTP client is never closed.
- `keepMostRecentFiles` does not catch a failing `unlinkSync`. In the model every name it unlinks was just listed as a file of a directory, so that failure cannot arise; see the left-out line on concurrent changes.
- An exception thrown inside `onSuccess` leaves the promise of `dumpDatabase` pending for ever (`Settlement.Pending`), and `DumpNow` never resumes. In the model the monthly copy is what can throw there (`MonthlyFails`): `sendDumpToFTP` catches its own errors. The async `finish` handler's own promise is then rejected with nobody handling it; from Node 15 on that ends the process unless the application handles unhandled rejections. The model does not capture the process ending and only records that the promise never settles.
- The FTP password is set twice with the same value.
- The monthly FTP rotation removes down to `numberFilesToKeep`, not `numberMonthlyFilesToKeep`: `keepMostRecentFilesFTP` compares with its argument but slices with `this._filesToKeep`. `Ftp.Doomed` takes both numbers.
- A script listed as `1.0.1.SQL` is read from `1.0.1.sql` (`DbTools.ScriptPathOfName`).

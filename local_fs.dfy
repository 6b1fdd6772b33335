/** The local disk the dumper writes to, as a map from absolute path to entry, and
    the Node `path.join` normalisation the dumper uses to build its folders. */
module LocalFs {
  import opened Seqs
  import opened JsText

  /** An absolute path, as its components below the root. */
  type Path = seq<string>

  /** What `lstatSync` reports of an entry: whether it is a regular file, and its
      modification time. Directories and symbolic links have `isFile == false`. */
  datatype Entry = Entry(isFile: bool, mtime: int)

  /** Names directly inside `folder`. */
  function Children(entries: map<Path, Entry>, folder: Path): (names: set<string>)
    ensures forall n :: n in names <==> folder + [n] in entries
  {
    var names := set p | p in entries && |p| == |folder| + 1 && p[..|folder|] == folder :: p[|folder|];
    assert forall n :: folder + [n] in entries ==> (folder + [n])[|folder|] == n && (folder + [n])[..|folder|] == folder;
    assert forall p :: p in entries && |p| == |folder| + 1 && p[..|folder|] == folder ==> p == folder + [p[|folder|]];
    names
  }

  /** Names of the regular files directly inside `folder`. */
  ghost function RegularFiles(entries: map<Path, Entry>, folder: Path): (names: set<string>)
    ensures forall n :: n in names <==> folder + [n] in entries && entries[folder + [n]].isFile
  {
    set n | n in Children(entries, folder) && entries[folder + [n]].isFile
  }

  /** `p` names an entry directly inside `folder`. */
  predicate ChildOf(p: Path, folder: Path)
  {
    |p| == |folder| + 1 && p[..|folder|] == folder
  }

  /** Every entry is kept as it was, and every new entry is a directory. */
  ghost predicate OnlyDirsAdded(before: map<Path, Entry>, after: map<Path, Entry>)
  {
    && (forall p :: p in before ==> p in after && after[p] == before[p])
    && (forall p :: p in after && p !in before ==> !after[p].isFile)
  }

  /** Only entries directly inside `folder` change, appear or disappear, apart from new
      directories. */
  ghost predicate ChangesOnlyIn(before: map<Path, Entry>, after: map<Path, Entry>, folder: Path)
  {
    && (forall p :: p in before && !ChildOf(p, folder) ==> p in after && after[p] == before[p])
    && (forall p :: p in after && p !in before ==> ChildOf(p, folder) || !after[p].isFile)
  }

  lemma DirsCompose(a: map<Path, Entry>, b: map<Path, Entry>, c: map<Path, Entry>)
    requires OnlyDirsAdded(a, b) && OnlyDirsAdded(b, c)
    ensures OnlyDirsAdded(a, c)
  {
  }

  lemma DirsChangeNothingElse(before: map<Path, Entry>, after: map<Path, Entry>, folder: Path)
    requires OnlyDirsAdded(before, after)
    ensures ChangesOnlyIn(before, after, folder)
  {
  }

  lemma ChangesCompose(a: map<Path, Entry>, b: map<Path, Entry>, c: map<Path, Entry>, folder: Path)
    requires ChangesOnlyIn(a, b, folder) && ChangesOnlyIn(b, c, folder)
    ensures ChangesOnlyIn(a, c, folder)
  {
  }

  /** Removing entries of one folder changes nothing elsewhere. */
  lemma RemovalChangesOnlyIn(entries: map<Path, Entry>, gone: set<Path>, folder: Path)
    requires forall p :: p in gone ==> ChildOf(p, folder)
    ensures ChangesOnlyIn(entries, entries - gone, folder)
  {
  }

  /** Changes confined to one folder leave the regular files of every other folder as
      they were. */
  lemma OtherFolderUntouched(before: map<Path, Entry>, after: map<Path, Entry>, changed: Path, folder: Path, n: string)
    requires ChangesOnlyIn(before, after, changed) && folder != changed
    ensures (folder + [n] in after && after[folder + [n]].isFile) <==> (folder + [n] in before && before[folder + [n]].isFile)
    ensures folder + [n] in before ==> folder + [n] in after && after[folder + [n]] == before[folder + [n]]
  {
    assert (folder + [n])[..|folder|] == folder;
  }

  /** The regular files directly inside `folder`, each with its modification time. */
  ghost function FilesOf(entries: map<Path, Entry>, folder: Path): (files: map<string, int>)
    ensures files.Keys == RegularFiles(entries, folder)
    ensures forall n :: n in files ==> files[n] == entries[folder + [n]].mtime
  {
    map n | n in RegularFiles(entries, folder) :: entries[folder + [n]].mtime
  }

  /** Changes confined to one folder leave the files of any other folder alone. */
  lemma FilesElsewhere(before: map<Path, Entry>, after: map<Path, Entry>, changed: Path, folder: Path)
    requires ChangesOnlyIn(before, after, changed) && folder != changed
    ensures FilesOf(after, folder) == FilesOf(before, folder)
  {
    forall n ensures n in RegularFiles(after, folder) <==> n in RegularFiles(before, folder) {
      OtherFolderUntouched(before, after, changed, folder, n);
    }
    forall n | n in RegularFiles(after, folder) ensures after[folder + [n]] == before[folder + [n]] {
      OtherFolderUntouched(before, after, changed, folder, n);
    }
  }

  /** New directories change no folder's files. */
  lemma FilesUnderNewDirs(before: map<Path, Entry>, after: map<Path, Entry>, folder: Path)
    requires OnlyDirsAdded(before, after)
    ensures FilesOf(after, folder) == FilesOf(before, folder)
  {
  }

  /** Writing a regular file into a folder adds it, or replaces its time. */
  lemma FilesAfterWrite(entries: map<Path, Entry>, folder: Path, name: string, time: int)
    ensures FilesOf(entries[folder + [name] := Entry(true, time)], folder) == FilesOf(entries, folder)[name := time]
  {
    var after := entries[folder + [name] := Entry(true, time)];
    forall n ensures n in RegularFiles(after, folder) <==> n in RegularFiles(entries, folder) + {name} {
      if folder + [n] == folder + [name] {
        assert (folder + [n])[|folder|] == n;
      }
    }
    forall n | n in RegularFiles(entries, folder) && n != name
      ensures after[folder + [n]] == entries[folder + [n]]
    {
      assert (folder + [n])[|folder|] == n;
    }
  }

  /** Deleting a regular file of a folder drops it; deleting anything else changes nothing. */
  lemma FilesAfterDelete(entries: map<Path, Entry>, folder: Path, name: string)
    ensures FilesOf(entries - {folder + [name]}, folder) == FilesOf(entries, folder) - {name}
  {
    forall n ensures folder + [n] == folder + [name] <==> n == name {
      assert (folder + [n])[|folder|] == n;
    }
  }

  /** A path component that `path.normalize` keeps as it is. */
  predicate PlainComponent(c: string)
  {
    c != "" && c != "." && c != ".."
  }

  predicate Clean(p: Path)
  {
    forall i :: 0 <= i < |p| ==> PlainComponent(p[i])
  }

  /** `path.normalize` of an absolute path given as components: "" and "." are
      dropped, ".." removes the component before it (and nothing at the root). */
  function Normalize(acc: Path, parts: seq<string>): (r: Path)
    requires Clean(acc)
    ensures Clean(r)
    decreases |parts|
  {
    if parts == [] then acc
    else if parts[0] == "" || parts[0] == "." then Normalize(acc, parts[1..])
    else if parts[0] == ".." then Normalize(if acc == [] then [] else acc[..|acc| - 1], parts[1..])
    else Normalize(acc + [parts[0]], parts[1..])
  }

  /** Normalising one more component works on the normalised prefix. */
  lemma {:induction false} NormalizeSnoc(acc: Path, parts: seq<string>, c: string)
    requires Clean(acc)
    ensures Normalize(acc, parts + [c]) == Normalize(Normalize(acc, parts), [c])
    decreases |parts|
  {
    if parts == [] {
      assert [] + [c] == [c];
    } else {
      assert (parts + [c])[1..] == parts[1..] + [c];
      assert (parts + [c])[0] == parts[0];
      if parts[0] == "" || parts[0] == "." {
        NormalizeSnoc(acc, parts[1..], c);
      } else if parts[0] == ".." {
        NormalizeSnoc(if acc == [] then [] else acc[..|acc| - 1], parts[1..], c);
      } else {
        NormalizeSnoc(acc + [parts[0]], parts[1..], c);
      }
    }
  }

  /** Normalising one more component of a list works on the normalised prefix. */
  lemma NormalizeNext(acc: Path, parts: seq<string>, i: nat)
    requires Clean(acc) && i < |parts|
    ensures Normalize(acc, parts[..i + 1]) == Normalize(Normalize(acc, parts[..i]), [parts[i]])
    ensures parts[..i + 1] == parts[..i] + [parts[i]]
  {
    NormalizeSnoc(acc, parts[..i], parts[i]);
    assert parts[..i + 1] == parts[..i] + [parts[i]];
  }

  /** Joining a plain component after any relative path appends it. */
  lemma NormalizeAppendPlain(acc: Path, parts: seq<string>, c: string)
    requires Clean(acc) && PlainComponent(c)
    ensures Normalize(acc, parts + [c]) == Normalize(acc, parts) + [c]
  {
    NormalizeSnoc(acc, parts, c);
    assert Normalize(Normalize(acc, parts) + [c], []) == Normalize(acc, parts) + [c];
  }

  /** `path.basename(p)`: the last component, "" for the root. */
  function Basename(p: Path): (name: string)
    ensures p != [] ==> p == p[..|p| - 1] + [name]
  {
    if p == [] then "" else p[|p| - 1]
  }

  /** `path.join(base, rel)` for an absolute, already normal `base`. */
  function Join(base: Path, rel: string): (r: Path)
    requires Clean(base)
    ensures Clean(r)
  {
    Normalize(base, Split(rel, '/'))
  }

  /** `path.join(base, name)` for a single plain name appends it. */
  lemma JoinName(base: Path, name: string)
    requires Clean(base) && PlainComponent(name) && '/' !in name
    ensures Join(base, name) == base + [name]
  {
    SplitWithout(name, '/');
    assert Normalize(base + [name], []) == base + [name];
  }

  /** `p` exists and is not a regular file: a directory. */
  predicate IsDir(entries: map<Path, Entry>, p: Path)
  {
    p in entries && !entries[p].isFile
  }

  /** Some proper ancestor of `p` is a regular file, so a call on `p` fails with
      `ENOTDIR`. */
  ghost predicate UnderFile(entries: map<Path, Entry>, p: Path)
  {
    exists i :: 0 <= i < |p| && p[..i] in entries && entries[p[..i]].isFile
  }

  /** `p` or one of its ancestors is a regular file: `p` can be no directory. */
  ghost predicate Obstructed(entries: map<Path, Entry>, p: Path)
  {
    UnderFile(entries, p) || (p in entries && entries[p].isFile)
  }

  /** A file can be opened for writing at `p`: its folder is a directory and `p` is
      not one. */
  predicate Writable(entries: map<Path, Entry>, p: Path)
  {
    p != [] && IsDir(entries, p[..|p| - 1]) && !IsDir(entries, p)
  }

  /** What a real disk guarantees: every proper ancestor of an entry is a directory. */
  ghost predicate WellFormed(entries: map<Path, Entry>)
  {
    forall p, i :: p in entries && 0 <= i < |p| ==> IsDir(entries, p[..i])
  }

  /** On a well-formed disk nothing exists below a regular file. */
  lemma NothingUnderFile(entries: map<Path, Entry>, p: Path)
    requires WellFormed(entries) && UnderFile(entries, p)
    ensures p !in entries
  {
  }

  /** A regular file, or a path below one, has no entries below it. */
  lemma FileHasNoChildren(entries: map<Path, Entry>, folder: Path)
    requires WellFormed(entries)
    ensures Obstructed(entries, folder) ==> RegularFiles(entries, folder) == {}
  {
    forall n | folder + [n] in entries ensures !Obstructed(entries, folder) {
      assert (folder + [n])[..|folder|] == folder;
      forall i | 0 <= i < |folder| ensures IsDir(entries, folder[..i]) {
        assert (folder + [n])[..i] == folder[..i];
      }
    }
  }

  /** One level deeper: `p + [c]` lies below a file exactly when `p` is obstructed. */
  lemma UnderFileSnoc(entries: map<Path, Entry>, p: Path, c: string)
    ensures UnderFile(entries, p + [c]) <==> Obstructed(entries, p)
  {
    var q := p + [c];
    assert q[..|p|] == p;
    forall i | 0 <= i < |p| ensures q[..i] == p[..i] {
    }
  }

  /** Whether a path is below a file depends only on the regular files, which adding
      directories leaves as they were. */
  lemma UnderFileWithDirs(before: map<Path, Entry>, after: map<Path, Entry>, p: Path)
    requires OnlyDirsAdded(before, after)
    ensures UnderFile(after, p) <==> UnderFile(before, p)
    ensures Obstructed(after, p) <==> Obstructed(before, p)
  {
    if UnderFile(after, p) {
      var i :| 0 <= i < |p| && p[..i] in after && after[p[..i]].isFile;
      assert p[..i] in before;
    }
  }

  /** Writing an entry that is neither `p` nor one of its ancestors leaves `p` as
      obstructed as it was. */
  lemma ObstructedAfterWrite(entries: map<Path, Entry>, q: Path, e: Entry, p: Path)
    requires |q| >= |p| && q != p
    ensures UnderFile(entries[q := e], p) <==> UnderFile(entries, p)
    ensures Obstructed(entries[q := e], p) <==> Obstructed(entries, p)
  {
    var after := entries[q := e];
    forall i | 0 <= i < |p| ensures p[..i] != q {
      assert |p[..i]| < |q|;
    }
    if UnderFile(after, p) {
      var i :| 0 <= i < |p| && p[..i] in after && after[p[..i]].isFile;
      assert p[..i] in entries && entries[p[..i]].isFile;
    }
    if UnderFile(entries, p) {
      var i :| 0 <= i < |p| && p[..i] in entries && entries[p[..i]].isFile;
      assert p[..i] in after && after[p[..i]].isFile;
    }
  }

  /** Adding an entry whose ancestors are directories, and which replaces no directory
      by a file, keeps the disk well-formed. */
  lemma AddKeepsWellFormed(entries: map<Path, Entry>, p: Path, e: Entry)
    requires WellFormed(entries)
    requires forall k :: 0 <= k < |p| ==> IsDir(entries, p[..k])
    requires e.isFile ==> !IsDir(entries, p)
    ensures WellFormed(entries[p := e])
  {
    var after := entries[p := e];
    forall q, i | q in after && 0 <= i < |q| ensures IsDir(after, q[..i]) {
      if q == p {
        assert q[..i] != p;
      } else {
        assert IsDir(entries, q[..i]);
      }
    }
  }

  /** Removing a regular file keeps the disk well-formed. */
  lemma RemoveKeepsWellFormed(entries: map<Path, Entry>, p: Path)
    requires WellFormed(entries) && p in entries && entries[p].isFile
    ensures WellFormed(entries - {p})
  {
  }

  /** Below a directory of a well-formed disk every ancestor is a directory. */
  lemma AncestorsAreDirs(entries: map<Path, Entry>, p: Path)
    requires WellFormed(entries) && p != [] && IsDir(entries, p[..|p| - 1])
    ensures forall k :: 0 <= k < |p| ==> IsDir(entries, p[..k])
  {
    var parent := p[..|p| - 1];
    forall k | 0 <= k < |p| ensures IsDir(entries, p[..k]) {
      if k < |p| - 1 {
        assert parent[..k] == p[..k];
      }
    }
  }

  /** The disk: every path that exists, with what `lstat` says of it. */
  class Disk {
    var entries: map<Path, Entry>

    ghost predicate Valid()
      reads this
    {
      WellFormed(entries)
    }

    constructor(initial: map<Path, Entry>)
      requires WellFormed(initial)
      ensures Valid() && entries == initial
    {
      entries := initial;
    }

    /** `readdirSync(folder)`: every name inside `folder` once, in an order the
        operating system chooses. It throws (`ok` false) unless `folder` is a
        directory: `ENOENT` when it is missing, `ENOTDIR` when it is a file. */
    method ReadDir(folder: Path) returns (ok: bool, names: seq<string>)
      requires Valid()
      ensures ok <==> IsDir(entries, folder)
      ensures !ok ==> names == []
      ensures Distinct(names)
      ensures forall n :: n in names <==> ok && folder + [n] in entries
      ensures ok ==> |names| == |Children(entries, folder)|
    {
      names := [];
      ok := IsDir(entries, folder);
      if !ok {
        return;
      }
      var remaining := Children(entries, folder);
      while remaining != {}
        invariant Distinct(names)
        invariant forall n :: n in names ==> n !in remaining
        invariant forall n :: n in Children(entries, folder) <==> n in names || n in remaining
        invariant |names| + |remaining| == |Children(entries, folder)|
        decreases |remaining|
      {
        var n :| n in remaining;
        names := names + [n];
        remaining := remaining - {n};
      }
    }

    /** `unlinkSync(path)`: removes a regular file; `ok` is false (the call throws)
        when there is no such file. */
    method Unlink(path: Path) returns (ok: bool)
      requires Valid()
      modifies this
      ensures Valid()
      ensures ok <==> path in old(entries) && old(entries)[path].isFile
      ensures entries == if ok then old(entries) - {path} else old(entries)
    {
      ok := path in entries && entries[path].isFile;
      if ok {
        RemoveKeepsWellFormed(entries, path);
        entries := entries - {path};
      }
    }

    /** `copyFileSync(source, target)`: the copy is a new regular file, modified now.
        It throws when the source is no regular file, when the target's folder is no
        directory (`ENOENT`, `ENOTDIR`) or when the target is a directory (`EISDIR`). */
    method CopyFile(source: Path, target: Path, now: int) returns (ok: bool)
      requires Valid()
      modifies this
      ensures Valid()
      ensures ok <==> source in old(entries) && old(entries)[source].isFile && Writable(old(entries), target)
      ensures entries == if ok then old(entries)[target := Entry(true, now)] else old(entries)
    {
      ok := source in entries && entries[source].isFile && Writable(entries, target);
      if ok {
        AncestorsAreDirs(entries, target);
        AddKeepsWellFormed(entries, target, Entry(true, now));
        entries := entries[target := Entry(true, now)];
      }
    }

    /** `createWriteStream(path)` opening (and truncating) its file; the stream
        errors instead when `path` is not `Writable`. */
    method CreateFile(path: Path, now: int) returns (ok: bool)
      requires Valid()
      modifies this
      ensures Valid()
      ensures ok <==> Writable(old(entries), path)
      ensures entries == if ok then old(entries)[path := Entry(true, now)] else old(entries)
    {
      ok := Writable(entries, path);
      if ok {
        AncestorsAreDirs(entries, path);
        AddKeepsWellFormed(entries, path, Entry(true, now));
        entries := entries[path := Entry(true, now)];
      }
    }

    /** `existsSync(folder)`, then `mkdirSync(folder, {recursive: true})` when missing:
        every missing ancestor and the folder itself become directories. `mkdirSync`
        throws (`ok` false) when an ancestor is a regular file, and then creates
        nothing, as every directory above that file already exists. An existing
        `folder` is left as it is, even when it is a file. */
    method EnsureFolder(folder: Path, now: int) returns (ok: bool)
      requires Valid()
      modifies this
      ensures Valid()
      ensures ok <==> !UnderFile(old(entries), folder)
      ensures ok ==> folder in entries && forall k :: 0 <= k < |folder| ==> IsDir(entries, folder[..k])
      ensures ok && folder !in old(entries) ==> IsDir(entries, folder)
      ensures !ok || folder in old(entries) ==> entries == old(entries)
      ensures OnlyDirsAdded(old(entries), entries)
      ensures forall p :: p in entries && p !in old(entries) ==> |p| <= |folder| && p == folder[..|p|]
    {
      if folder in entries {
        return true;
      }
      var i := 0;
      while i <= |folder|
        invariant 0 <= i <= |folder| + 1
        invariant WellFormed(entries)
        invariant forall k :: 0 <= k < i ==> IsDir(entries, folder[..k])
        invariant forall p :: p in old(entries) ==> p in entries && entries[p] == old(entries)[p]
        invariant forall p :: p in entries && p !in old(entries) ==>
                    |p| < i && p == folder[..|p|] && !entries[p].isFile
      {
        if folder[..i] in entries && entries[folder[..i]].isFile {
          NothingCreatedAboveFile(old(entries), entries, folder, i);
          return false;
        }
        if folder[..i] !in entries {
          forall k | 0 <= k < i ensures IsDir(entries, folder[..i][..k]) {
            assert folder[..i][..k] == folder[..k];
          }
          AddKeepsWellFormed(entries, folder[..i], Entry(false, now));
          entries := entries[folder[..i] := Entry(false, now)];
        }
        i := i + 1;
      }
      assert folder[..|folder|] == folder;
      ok := true;
    }
  }

  /** When `mkdirSync` meets a regular file at `folder[..i]`, every directory above it
      was already there, so nothing was created before it failed. */
  lemma NothingCreatedAboveFile(before: map<Path, Entry>, now: map<Path, Entry>, folder: Path, i: nat)
    requires WellFormed(before) && folder !in before && i <= |folder|
    requires forall p :: p in before ==> p in now && now[p] == before[p]
    requires forall p :: p in now && p !in before ==> |p| < i && p == folder[..|p|] && !now[p].isFile
    requires folder[..i] in now && now[folder[..i]].isFile
    ensures now == before
    ensures i < |folder| && UnderFile(before, folder)
  {
    assert folder[..|folder|] == folder;
    assert folder[..i] in before && before[folder[..i]].isFile;
    forall k | 0 <= k < i ensures folder[..k] in before {
      assert folder[..i][..k] == folder[..k];
    }
    assert now.Keys == before.Keys;
  }
}

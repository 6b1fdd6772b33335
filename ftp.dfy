/** The remote side of the dumper: an FTP server seen through a client that has a
    current directory, and the name-based rotation `keepMostRecentFilesFTP` runs there.
    The server is a map from directory (its components below the login directory) to
    the names it lists, files and sub-directories alike; a name `n` listed in `d` is a
    sub-directory exactly when `d + [n]` is itself a key. Any call on the network may
    fail; the model lets each one fail at will, and a failure throws. */
module Ftp {
  import opened Seqs
  import opened JsText
  import LocalFs

  type Dir = seq<string>

  /** What the rotation treats as a dump: `path.extname` is ".sql" or ".gz". */
  predicate IsSnapshot(name: string)
  {
    ExtName(name) == ".sql" || ExtName(name) == ".gz"
  }

  /** A listing without the names in `gone`, in its order. */
  function RemoveNames(listing: seq<string>, gone: set<string>): (r: seq<string>)
    ensures forall n :: n in r <==> n in listing && n !in gone
    ensures |r| <= |listing|
  {
    if listing == [] then []
    else if listing[0] in gone then RemoveNames(listing[1..], gone)
    else [listing[0]] + RemoveNames(listing[1..], gone)
  }

  lemma {:induction false} RemoveNamesTwice(listing: seq<string>, gone: set<string>, x: string)
    ensures RemoveNames(RemoveNames(listing, gone), {x}) == RemoveNames(listing, gone + {x})
  {
    if listing != [] {
      RemoveNamesTwice(listing[1..], gone, x);
    }
  }

  lemma {:induction false} RemoveNamesDistinct(listing: seq<string>, gone: set<string>)
    requires Distinct(listing)
    ensures Distinct(RemoveNames(listing, gone))
  {
    if listing != [] {
      RemoveNamesDistinct(listing[1..], gone);
      assert listing[0] !in listing[1..];
    }
  }

  /** `keepMostRecentFilesFTP(client, threshold)` on a directory listing, with
      `this._filesToKeep == keep`: the snapshots, and when there are more than
      `threshold` of them, `slice(0, -keep)` of them in ascending name order. */
  function Doomed(listing: seq<string>, threshold: int, keep: int): seq<string>
  {
    var snaps := Filter(listing, IsSnapshot);
    if |snaps| > threshold then Slice(Sort(snaps, Less), 0, -keep) else []
  }

  /** The number of snapshots past which `slice(0, -keep)` starts removing. */
  function Cut(n: nat, keep: int): (c: nat)
    ensures c <= n
    ensures keep == 0 ==> c == 0
    ensures keep > 0 ==> c == if n <= keep then 0 else n - keep
    ensures keep < 0 ==> c == if n <= -keep then n else -keep
  {
    ClampIndex(-keep, n)
  }

  lemma LessOrdersStrings()
    ensures StrictWeakOrder(Less)
  {
    LessIsStrictWeakOrder();
  }

  /** The snapshots sorted by name: each one once, in strictly ascending order. */
  lemma SortedSnapshots(listing: seq<string>)
    requires Distinct(listing)
    ensures var sorted := Sort(Filter(listing, IsSnapshot), Less);
      && Distinct(sorted)
      && (forall n :: n in sorted <==> n in listing && IsSnapshot(n))
      && (forall i, j :: 0 <= i < j < |sorted| ==> Less(sorted[i], sorted[j]))
  {
    var snaps := Filter(listing, IsSnapshot);
    var sorted := Sort(snaps, Less);
    FilterIsDistinct(listing, IsSnapshot);
    PermutationDistinct(snaps, sorted);
    LessOrdersStrings();
    SortSorted(snaps, Less);
    forall i, j | 0 <= i < j < |sorted| ensures Less(sorted[i], sorted[j]) {
      assert !Less(sorted[j], sorted[i]);
      LessTotal(sorted[i], sorted[j]);
    }
    forall n ensures n in sorted <==> n in snaps {
      assert n in sorted <==> n in multiset(sorted);
      assert n in snaps <==> n in multiset(snaps);
    }
  }

  /** What the rotation removes, read on the sorted snapshots: their first
      `Cut(count, keep)`, or nothing when there are no more than `threshold`. */
  lemma DoomedIsSortedPrefix(listing: seq<string>, threshold: int, keep: int)
    ensures var snaps := Filter(listing, IsSnapshot);
      Doomed(listing, threshold, keep) ==
        if |snaps| > threshold then Sort(snaps, Less)[..Cut(|snaps|, keep)] else []
  {
    var snaps := Filter(listing, IsSnapshot);
    var sorted := Sort(snaps, Less);
    if |snaps| > threshold && Cut(|snaps|, keep) == 0 {
      assert sorted[..0] == [];
    }
  }

  /** The rotation only ever removes snapshots of the listing, each once, and only when
      there are more than `threshold` of them. */
  lemma DoomedAreSnapshots(listing: seq<string>, threshold: int, keep: int)
    requires Distinct(listing)
    ensures Distinct(Doomed(listing, threshold, keep))
    ensures forall n :: n in Doomed(listing, threshold, keep) ==> n in listing && IsSnapshot(n)
    ensures |Filter(listing, IsSnapshot)| <= threshold ==> Doomed(listing, threshold, keep) == []
  {
    SortedSnapshots(listing);
    DoomedIsSortedPrefix(listing, threshold, keep);
    var sorted := Sort(Filter(listing, IsSnapshot), Less);
    var d := Doomed(listing, threshold, keep);
    forall n | n in d ensures n in sorted {
      var i :| 0 <= i < |d| && d[i] == n;
      assert sorted[i] == n;
    }
  }

  /** Removal keeps the names that sort last: every removed name is below every
      snapshot that stays. */
  lemma DoomedBelowKept(listing: seq<string>, threshold: int, keep: int, x: string, y: string)
    requires Distinct(listing)
    requires x in Doomed(listing, threshold, keep)
    requires y in listing && IsSnapshot(y) && y !in Doomed(listing, threshold, keep)
    ensures Less(x, y)
  {
    var snaps := Filter(listing, IsSnapshot);
    var sorted := Sort(snaps, Less);
    DoomedIsSortedPrefix(listing, threshold, keep);
    SortedSnapshots(listing);
    PrefixBelowRest(sorted, Cut(|snaps|, keep), x, y);
  }

  /** In an ascending sequence, what comes before a cut is below what comes after it. */
  lemma PrefixBelowRest(sorted: seq<string>, c: nat, x: string, y: string)
    requires c <= |sorted|
    requires forall i, j :: 0 <= i < j < |sorted| ==> Less(sorted[i], sorted[j])
    requires x in sorted[..c] && y in sorted && y !in sorted[..c]
    ensures Less(x, y)
  {
    var i :| 0 <= i < c && sorted[..c][i] == x;
    var j :| 0 <= j < |sorted| && sorted[j] == y;
    assert forall k :: 0 <= k < c ==> sorted[..c][k] == sorted[k];
    assert j >= c;
    assert sorted[i] == x;
  }

  /** How many snapshots remain: the rotation keeps `keep` of them (all when there are
      fewer) once it runs, whatever `threshold` made it run. */
  lemma SnapshotsLeft(listing: seq<string>, threshold: int, keep: int)
    requires Distinct(listing) && keep > 0
    ensures var snaps := Filter(listing, IsSnapshot);
      |Doomed(listing, threshold, keep)| == if |snaps| > threshold && |snaps| > keep then |snaps| - keep else 0
  {
    DoomedIsSortedPrefix(listing, threshold, keep);
  }

  /** Every directory listing and every directory name known to exist is kept. */
  ghost predicate KeepsAll(before: map<Dir, seq<string>>, after: map<Dir, seq<string>>)
  {
    forall d :: d in before ==> d in after && forall n :: n in before[d] ==> n in after[d]
  }

  /** Every name that appears is a directory. */
  ghost predicate AddsOnlyDirs(before: map<Dir, seq<string>>, after: map<Dir, seq<string>>)
  {
    forall d :: d in after ==> forall n :: n in after[d] && !(d in before && n in before[d]) ==> d + [n] in after
  }

  /** Every directory keeps its listing as a prefix of its new one, and whatever follows
      that prefix is one of `names`. */
  ghost predicate GrowsBy(before: map<Dir, seq<string>>, after: map<Dir, seq<string>>, names: set<string>)
  {
    forall d :: d in before ==>
      && d in after && before[d] <= after[d]
      && forall i :: |before[d]| <= i < |after[d]| ==> after[d][i] in names
  }

  lemma GrowsCompose(a: map<Dir, seq<string>>, b: map<Dir, seq<string>>, c: map<Dir, seq<string>>,
                     names: set<string>, x: string)
    requires GrowsBy(a, b, names) && GrowsBy(b, c, {x}) && x in names
    ensures GrowsBy(a, c, names)
  {
    forall d | d in a
      ensures d in c && a[d] <= c[d]
      ensures forall i :: |a[d]| <= i < |c[d]| ==> c[d][i] in names
    {
      forall i | |a[d]| <= i < |c[d]| ensures c[d][i] in names {
        if i < |b[d]| {
          assert c[d][i] == b[d][i];
        }
      }
    }
  }

  lemma NoRepeat(s: seq<string>, i: int, j: int)
    requires Distinct(s) && 0 <= i < j < |s|
    ensures s[i] != s[j]
  {
  }

  lemma NotEarlier(s: seq<string>, n: int)
    requires Distinct(s) && 0 <= n < |s|
    ensures s[n] !in s[..n]
  {
  }

  /** A listing without repeated names grows by a single name at most once. */
  lemma GrowsByOne(before: map<Dir, seq<string>>, after: map<Dir, seq<string>>, d: Dir, x: string)
    requires GrowsBy(before, after, {x}) && d in before && Distinct(after[d])
    ensures after[d] == before[d] || (x !in before[d] && after[d] == before[d] + [x])
  {
    var n := |before[d]|;
    if |after[d]| > n {
      if |after[d]| > n + 1 {
        NoRepeat(after[d], n, n + 1);
        assert false;
      }
      NotEarlier(after[d], n);
      assert after[d][..n] == before[d];
      assert after[d] == before[d] + [x];
    }
  }

  /** What a directory lists, nothing when it does not exist. */
  function Listing(tree: map<Dir, seq<string>>, d: Dir): seq<string>
  {
    if d in tree then tree[d] else []
  }

  /** A listing after `uploadFrom(local, name)` succeeded there. */
  function Added(listing: seq<string>, name: string): (r: seq<string>)
    ensures name in r
    ensures forall n :: n in r <==> n in listing || n == name
  {
    if name in listing then listing else listing + [name]
  }

  /** A listing after `keepMostRecentFilesFTP` succeeded there. */
  function Rotated(listing: seq<string>, threshold: int, keep: int): seq<string>
  {
    RemoveNames(listing, set n | n in Doomed(listing, threshold, keep))
  }

  /** Besides directories, names appear only in `dest`. */
  ghost predicate FilesOnlyInto(before: map<Dir, seq<string>>, after: map<Dir, seq<string>>, dest: Dir)
  {
    forall d :: d in after && d != dest ==>
      forall n :: n in after[d] && !(d in before && n in before[d]) ==> d + [n] in after
  }

  lemma FilesOnlyIntoCompose(a: map<Dir, seq<string>>, b: map<Dir, seq<string>>, c: map<Dir, seq<string>>, dest: Dir)
    requires FilesOnlyInto(a, b, dest) && FilesOnlyInto(b, c, dest)
    requires KeepsAll(a, b) && (forall d :: d in b ==> d in c)
    ensures FilesOnlyInto(a, c, dest)
  {
  }

  /** What a series of client calls may do to the tree: every directory stays, a name
      disappears only when `removes` allows it and it is a snapshot, and every name that
      appears is `file` or a directory. */
  ghost predicate Evolves(before: map<Dir, seq<string>>, after: map<Dir, seq<string>>, file: string, removes: bool)
  {
    && (forall d :: d in before ==> d in after && forall n :: n in before[d] && n !in after[d] ==> removes && IsSnapshot(n))
    && (forall d :: d in after ==> forall n :: n in after[d] && !(d in before && n in before[d]) ==> n == file || d + [n] in after)
  }

  lemma EvolvesCompose(a: map<Dir, seq<string>>, b: map<Dir, seq<string>>, c: map<Dir, seq<string>>, file: string, removes: bool)
    requires Evolves(a, b, file, removes) && Evolves(b, c, file, removes)
    ensures Evolves(a, c, file, removes)
  {
  }

  lemma DirsEvolve(a: map<Dir, seq<string>>, b: map<Dir, seq<string>>, file: string, removes: bool)
    requires KeepsAll(a, b) && AddsOnlyDirs(a, b)
    ensures Evolves(a, b, file, removes)
  {
  }

  lemma UploadEvolves(tree: map<Dir, seq<string>>, cwd: Dir, name: string, removes: bool)
    requires cwd in tree
    ensures Evolves(tree, tree[cwd := tree[cwd] + [name]], name, removes)
  {
  }

  lemma RemovalEvolves(tree: map<Dir, seq<string>>, cwd: Dir, gone: set<string>, file: string)
    requires cwd in tree
    requires forall n :: n in gone ==> IsSnapshot(n)
    ensures Evolves(tree, tree[cwd := RemoveNames(tree[cwd], gone)], file, true)
  {
  }

  lemma {:induction false} RemoveNothing(listing: seq<string>)
    ensures RemoveNames(listing, {}) == listing
  {
    if listing != [] {
      RemoveNothing(listing[1..]);
    }
  }

  lemma StepsCompose(a: map<Dir, seq<string>>, b: map<Dir, seq<string>>, c: map<Dir, seq<string>>)
    requires KeepsAll(a, b) && AddsOnlyDirs(a, b)
    requires KeepsAll(b, c) && AddsOnlyDirs(b, c)
    ensures KeepsAll(a, c) && AddsOnlyDirs(a, c)
  {
  }

  /** A remote tree: the login directory exists and no directory lists a name twice. */
  ghost predicate Server(tree: map<Dir, seq<string>>)
  {
    [] in tree && forall d :: d in tree ==> Distinct(tree[d])
  }

  /** `secure`: `false` for plain FTP, `true` for explicit TLS (`AUTH TLS`) and
      `'implicit'` for implicit TLS. */
  datatype Secure = Plain | ExplicitTls | ImplicitTls

  /** The connection options `sendDumpToFTP` hands to `access`. */
  datatype ConnectionConfig = ConnectionConfig(host: string, user: Option<string>, password: Option<string>,
                                               port: Option<int>, secure: Secure)

  /** Every directory at least as deep as `cwd` lists what it listed in `before`, or
      nothing when it is new. */
  ghost predicate DeepAsBefore(before: map<Dir, seq<string>>, tree: map<Dir, seq<string>>, cwd: Dir)
  {
    forall d :: d in tree && |d| >= |cwd| ==> tree[d] == Listing(before, d)
  }

  /** Then a directory at least that deep, existing or not, lists what it listed. */
  lemma ListingAsBefore(before: map<Dir, seq<string>>, tree: map<Dir, seq<string>>, cwd: Dir, d: Dir)
    requires KeepsAll(before, tree) && DeepAsBefore(before, tree, cwd) && |d| >= |cwd|
    ensures Listing(tree, d) == Listing(before, d)
  {
  }

  /** One step of `ensureDir` that does not go up keeps the directories below the new
      current one as they were. */
  lemma DeeperAsBefore(start: map<Dir, seq<string>>, before: map<Dir, seq<string>>, after: map<Dir, seq<string>>,
                       cwd: Dir, p: string)
    requires LocalFs.Clean(cwd) && p != ".."
    requires KeepsAll(start, before) && DeepAsBefore(start, before, cwd)
    requires forall d :: d in after && d != cwd ==> after[d] == Listing(before, d)
    requires !LocalFs.PlainComponent(p) ==> after == before
    ensures DeepAsBefore(start, after, LocalFs.Normalize(cwd, [p]))
  {
    if LocalFs.PlainComponent(p) {
      assert LocalFs.Normalize(cwd, [p]) == LocalFs.Normalize(cwd + [p], []);
    }
  }

  /** After the first `i` components of an `ensureDir` walk from `start`: the current
      directory is where they lead and, unless one was "..", the directories at least
      that deep are as they were. */
  ghost predicate Walked(start: Dir, parts: seq<string>, i: nat, before: map<Dir, seq<string>>,
                         tree: map<Dir, seq<string>>, cwd: Dir)
    requires i <= |parts| && LocalFs.Clean(start)
  {
    && cwd == LocalFs.Normalize(start, parts[..i])
    && (".." !in parts[..i] ==> DeepAsBefore(before, tree, cwd))
  }

  lemma WalkStarts(start: Dir, parts: seq<string>, tree: map<Dir, seq<string>>)
    requires LocalFs.Clean(start)
    ensures Walked(start, parts, 0, tree, tree, start)
  {
    assert parts[..0] == [];
  }

  lemma WalkEnds(start: Dir, parts: seq<string>, before: map<Dir, seq<string>>, tree: map<Dir, seq<string>>, cwd: Dir)
    requires LocalFs.Clean(start) && Walked(start, parts, |parts|, before, tree, cwd)
    ensures cwd == LocalFs.Normalize(start, parts)
    ensures ".." !in parts ==> DeepAsBefore(before, tree, cwd)
  {
    assert parts[..|parts|] == parts;
  }

  lemma WalkStep(start: Dir, parts: seq<string>, i: nat, origin: map<Dir, seq<string>>,
                 before: map<Dir, seq<string>>, after: map<Dir, seq<string>>, above: Dir, cwd: Dir)
    requires i < |parts| && LocalFs.Clean(start) && LocalFs.Clean(above)
    requires Walked(start, parts, i, origin, before, above) && KeepsAll(origin, before)
    requires cwd == LocalFs.Normalize(above, [parts[i]])
    requires forall d :: d in after && d != above ==> after[d] == Listing(before, d)
    requires !LocalFs.PlainComponent(parts[i]) ==> after == before
    ensures Walked(start, parts, i + 1, origin, after, cwd)
  {
    LocalFs.NormalizeNext(start, parts, i);
    if ".." !in parts[..i + 1] {
      assert parts[i] in parts[..i + 1];
      assert forall x :: x in parts[..i] ==> x in parts[..i + 1];
      DeeperAsBefore(origin, before, after, above, parts[i]);
    }
  }

  /** `new FTP.Client()` working on a server. */
  class FtpClient {
    var cwd: Dir
    var tree: map<Dir, seq<string>>

    ghost predicate Valid()
      reads this
    {
      && Server(tree)
      && cwd in tree
      && LocalFs.Clean(cwd)
    }

    constructor(server: map<Dir, seq<string>>)
      requires Server(server)
      ensures Valid() && cwd == [] && tree == server
    {
      cwd := [];
      tree := server;
    }

    /** `access(config)`: connecting and logging in, which may fail. */
    method Access(config: ConnectionConfig) returns (ok: bool)
    {
      ok :| true;
    }

    /** `list()`: the names of the current directory, in the server's order. */
    method List() returns (ok: bool, names: seq<string>)
      requires Valid()
      ensures ok ==> names == tree[cwd]
    {
      ok :| true;
      names := if ok then tree[cwd] else [];
    }

    /** `uploadFrom(local, name)`: stores the local file under `name` in the current
        directory, replacing a file of that name. It fails when the local file is
        missing or `name` is a directory. */
    method UploadFrom(localExists: bool, name: string) returns (ok: bool)
      requires Valid()
      modifies this
      ensures Valid() && cwd == old(cwd)
      ensures ok ==> localExists && cwd + [name] !in tree
      ensures tree == if !ok then old(tree)
                      else if name in old(tree)[cwd] then old(tree)
                      else old(tree)[cwd := old(tree)[cwd] + [name]]
    {
      ok :| true;
      if !localExists || cwd + [name] in tree {
        ok := false;
      }
      if ok && name !in tree[cwd] {
        tree := tree[cwd := tree[cwd] + [name]];
      }
    }

    /** `remove(name)`: deletes a file of the current directory; it fails for a
        missing name or a directory. */
    method Remove(name: string) returns (ok: bool)
      requires Valid()
      modifies this
      ensures Valid() && cwd == old(cwd)
      ensures ok ==> name in old(tree)[cwd] && cwd + [name] !in old(tree)
      ensures tree == if ok then old(tree)[cwd := RemoveNames(old(tree)[cwd], {name})] else old(tree)
    {
      ok :| true;
      if name !in tree[cwd] || cwd + [name] in tree {
        ok := false;
      }
      if ok {
        RemoveNamesDistinct(tree[cwd], {name});
        tree := tree[cwd := RemoveNames(tree[cwd], {name})];
      }
    }

    /** `ensureDir(path)`: from the root when `path` starts with '/', then for each
        component a `MKD` whose failure is ignored and a `CWD` that must succeed. On
        success the current directory is `path` resolved from where it started, the
        way `path.normalize` resolves it. Only directories are created. */
    method EnsureDir(path: string) returns (ok: bool)
      requires Valid()
      modifies this
      ensures Valid()
      ensures KeepsAll(old(tree), tree) && AddsOnlyDirs(old(tree), tree)
      ensures ok ==> cwd == LocalFs.Normalize(if |path| > 0 && path[0] == '/' then [] else old(cwd),
                                              Split(path, '/'))
      ensures ok && ".." !in Split(path, '/') ==> DeepAsBefore(old(tree), tree, cwd)
      ensures GrowsBy(old(tree), tree, set x | x in Split(path, '/'))
    {
      var parts := Split(path, '/');
      if |path| > 0 && path[0] == '/' {
        ok :| true;
        if !ok {
          return;
        }
        cwd := [];
      }
      ok := EnterEach(parts);
    }

    /** The components of `ensureDir` in turn, the first failure ending it. */
    method EnterEach(parts: seq<string>) returns (ok: bool)
      requires Valid()
      modifies this
      ensures Valid()
      ensures KeepsAll(old(tree), tree) && AddsOnlyDirs(old(tree), tree)
      ensures ok ==> cwd == LocalFs.Normalize(old(cwd), parts)
      ensures ok && ".." !in parts ==> DeepAsBefore(old(tree), tree, cwd)
      ensures GrowsBy(old(tree), tree, set x | x in parts)
    {
      ghost var start := cwd;
      WalkStarts(start, parts, tree);
      var i := 0;
      while i < |parts|
        invariant 0 <= i <= |parts|
        invariant Valid()
        invariant KeepsAll(old(tree), tree) && AddsOnlyDirs(old(tree), tree)
        invariant Walked(start, parts, i, old(tree), tree, cwd)
        invariant GrowsBy(old(tree), tree, set x | x in parts)
      {
        ghost var before := tree;
        ghost var above := cwd;
        ok := Enter(parts[i]);
        StepsCompose(old(tree), before, tree);
        GrowsCompose(old(tree), before, tree, (set x | x in parts), parts[i]);
        if !ok {
          return;
        }
        WalkStep(start, parts, i, old(tree), before, tree, above, cwd);
        i := i + 1;
      }
      WalkEnds(start, parts, old(tree), tree, cwd);
      ok := true;
    }

    /** One component of `ensureDir`: nothing for an empty one, otherwise `MKD` (its
        failure ignored) and `CWD`. */
    method Enter(p: string) returns (ok: bool)
      requires Valid()
      modifies this
      ensures Valid()
      ensures KeepsAll(old(tree), tree) && AddsOnlyDirs(old(tree), tree)
      ensures ok ==> cwd == LocalFs.Normalize(old(cwd), [p])
      ensures forall d :: d in tree && d != old(cwd) ==> tree[d] == Listing(old(tree), d)
      ensures !LocalFs.PlainComponent(p) ==> tree == old(tree)
      ensures GrowsBy(old(tree), tree, {p})
    {
      if p == "" {
        ok := true;
      } else if p == "." || p == ".." {
        ok := EnterDots(p);
      } else {
        ok := EnterName(p);
        assert LocalFs.Normalize(old(cwd), [p]) == LocalFs.Normalize(old(cwd) + [p], []);
      }
    }

    /** `CWD .` or `CWD ..`: the tree is left alone. `..` moves to the parent, and at
        the root it stays there, as `Normalize` does. */
    method EnterDots(p: string) returns (ok: bool)
      requires Valid() && (p == "." || p == "..")
      modifies this
      ensures Valid() && tree == old(tree)
      ensures ok ==> cwd == LocalFs.Normalize(old(cwd), [p])
    {
      ok :| true;
      if ok && p == ".." && cwd != [] {
        // `CWD ..` succeeds only when the parent directory is in the tree
        if cwd[..|cwd| - 1] in tree {
          cwd := cwd[..|cwd| - 1];
        } else {
          ok := false;
        }
      }
    }

    /** `MKD p`, its failure ignored, then `CWD p`. */
    method EnterName(p: string) returns (ok: bool)
      requires Valid() && LocalFs.PlainComponent(p)
      modifies this
      ensures Valid()
      ensures KeepsAll(old(tree), tree) && AddsOnlyDirs(old(tree), tree)
      ensures ok ==> cwd == old(cwd) + [p]
      ensures forall d :: d in tree && d != old(cwd) ==> tree[d] == Listing(old(tree), d)
      ensures GrowsBy(old(tree), tree, {p})
    {
      var made: bool :| true;
      if made && cwd + [p] !in tree && p !in tree[cwd] {
        Grow(p);
      }
      ok :| true;
      if ok && cwd + [p] in tree {
        cwd := cwd + [p];
      } else {
        ok := false;
      }
    }

    /** A successful `MKD p` in the current directory. */
    method Grow(p: string)
      requires Valid() && cwd + [p] !in tree && p !in tree[cwd]
      modifies this
      ensures Valid() && cwd == old(cwd)
      ensures tree == old(tree)[cwd + [p] := []][cwd := old(tree)[cwd] + [p]]
      ensures KeepsAll(old(tree), tree) && AddsOnlyDirs(old(tree), tree)
    {
      tree := tree[cwd + [p] := []][cwd := tree[cwd] + [p]];
    }
  }

  /** What `keepMostRecentFilesFTP` removes from a directory of a remote tree leaves
      every other directory alone and takes away snapshots only. */
  lemma RotationEvolves(tree: map<Dir, seq<string>>, cwd: Dir, threshold: int, keep: int,
                        gone: set<string>, file: string)
    requires Server(tree) && cwd in tree
    requires forall n :: n in gone ==> n in Doomed(tree[cwd], threshold, keep)
    ensures Evolves(tree, tree[cwd := RemoveNames(tree[cwd], gone)], file, true)
  {
    DoomedAreSnapshots(tree[cwd], threshold, keep);
    RemovalEvolves(tree, cwd, gone, file);
  }
}

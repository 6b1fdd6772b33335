/** `DbTools`: the migration scripts an update must run, chosen from a folder listing
    by semantic-version precedence, the run itself, and the stored functions
    `__dbVersion` and `__application` through which a database records its version and
    the application it belongs to. */
module DbTools {
  import opened Seqs
  import opened JsText
  import SemVer

  /** A script to run: its path and the version its name spells. */
  datatype UpdateFile = UpdateFile(file: string, semver: SemVer.Version)

  /** A value `setFunction` stores: a string is written quoted into the function body,
      anything else as the text JavaScript prints for it. */
  datatype Value = Text(s: string) | Other(shown: string)

  const VersionFunction := "__dbVersion"
  const ApplicationFunction := "__application"
  const DefaultType := "VARCHAR(200)"

  /** An optional string that JavaScript treats as true: given and not empty. */
  predicate Truthy(s: Option<string>)
  {
    s.Some? && s.value != ""
  }

  /** `f.toLowerCase().endsWith('.sql')`. Only ASCII letters lower-case to 's', 'q' or
      'l', so lower-casing just those is exact here. */
  predicate IsScript(name: string)
  {
    EndsWith(ToLower(name), ".sql")
  }

  /** `f.substr(0, f.length - 4)`: the name without its extension. */
  function Stem(name: string): (stem: string)
    requires IsScript(name)
    ensures |stem| == |name| - 4 && stem == name[..|stem|]
  {
    name[..|name| - 4]
  }

  /** `${scriptsFolder}/${f}.sql`: the extension is written in lower case. */
  function ScriptPath(folder: string, stem: string): string
  {
    folder + "/" + stem + ".sql"
  }

  /** The path of a listed script is the path of the listed file exactly when the
      listed name ends in a lower-case ".sql"; a script listed as "1.0.1.SQL" is read
      as "1.0.1.sql". */
  lemma ScriptPathOfName(folder: string, name: string)
    requires IsScript(name)
    ensures ScriptPath(folder, Stem(name)) == folder + "/" + name <==> EndsWith(name, ".sql")
  {
    var stem := Stem(name);
    var p := folder + "/" + stem;
    assert name == stem + name[|stem|..];
    assert folder + "/" + name == p + name[|stem|..];
    assert ScriptPath(folder, stem) == p + ".sql";
    if ScriptPath(folder, stem) == folder + "/" + name {
      assert (p + ".sql")[|p|..] == ".sql";
      assert (p + name[|stem|..])[|p|..] == name[|stem|..];
    }
  }

  /** `f` is the entry of the listed name `name`: a script whose stem is the version
      of `f`, and whose path is that of `f`. */
  predicate Lists(folder: string, name: string, f: UpdateFile)
  {
    IsScript(name) && SemVer.Parse(Stem(name)) == Ok(f.semver) && f.file == ScriptPath(folder, Stem(name))
  }

  /** A listed script whose name is not a version. */
  predicate BadScript(name: string)
  {
    IsScript(name) && SemVer.Parse(Stem(name)).Err?
  }

  /** The scripts of a listing, in listing order; `new SemVer(f)` throws on a stem that
      is not a version. */
  function Scripts(folder: string, names: seq<string>): (r: Result<seq<UpdateFile>>)
    ensures r.Err? <==> exists n :: n in names && BadScript(n)
  {
    if names == [] then Ok([])
    else
      assert names == [names[0]] + names[1..];
      var rest := Scripts(folder, names[1..]);
      if !IsScript(names[0]) then rest
      else
        var p := SemVer.Parse(Stem(names[0]));
        if p.Err? then
          assert BadScript(names[0]);
          Err(p.message)
        else if rest.Err? then rest
        else Ok([UpdateFile(ScriptPath(folder, Stem(names[0])), p.value)] + rest.value)
  }

  /** The scripts are the entries of the listed script names. */
  lemma {:induction false} ScriptsMembers(folder: string, names: seq<string>)
    requires Scripts(folder, names).Ok?
    ensures forall f :: f in Scripts(folder, names).value <==> exists n :: n in names && Lists(folder, n, f)
  {
    if names != [] {
      var n0 := names[0];
      assert names == [n0] + names[1..];
      var rest := Scripts(folder, names[1..]);
      assert rest.Ok?;
      ScriptsMembers(folder, names[1..]);
      if IsScript(n0) {
        var head := UpdateFile(ScriptPath(folder, Stem(n0)), SemVer.Parse(Stem(n0)).value);
        assert Scripts(folder, names).value == [head] + rest.value;
        assert Lists(folder, n0, head);
        forall f | Lists(folder, n0, f) ensures f == head { }
      } else {
        assert Scripts(folder, names) == rest;
      }
    }
  }

  /** The comparator `compare` the scripts are sorted with, on their versions. */
  predicate ByVersion(a: UpdateFile, b: UpdateFile)
  {
    SemVer.Lower(a.semver, b.semver)
  }

  /** `gt(f.semver, currentVersion)`. */
  function Above(current: SemVer.Version): UpdateFile -> bool
  {
    (f: UpdateFile) => SemVer.Compare(f.semver, current) > 0
  }

  /** `getVersion()` from what `getFunction('__dbVersion')` returned: nothing when that is
      missing or empty, an error when it is not a version. */
  function CurrentVersion(stored: Option<string>): (r: Result<Option<SemVer.Version>>)
    ensures r.Err? <==> Truthy(stored) && SemVer.Parse(stored.value).Err?
    ensures r.Ok? && r.value.Some? ==> Truthy(stored) && SemVer.Parse(stored.value) == Ok(r.value.value)
    ensures !Truthy(stored) ==> r == Ok(None)
  {
    if !Truthy(stored) then Ok(None)
    else match SemVer.Parse(stored.value)
      case Err(m) => Err(m)
      case Ok(v) => Ok(Some(v))
  }

  /** A script is required when there is no current version, or when it is newer. */
  predicate Required(v: SemVer.Version, current: Option<SemVer.Version>)
  {
    current.None? || SemVer.Compare(v, current.value) > 0
  }

  /** `_getRequiredUpdateFiles(scriptsFolder)` given the listing of the folder and what
      `__dbVersion` returned. */
  function Select(folder: string, names: seq<string>, stored: Option<string>): (r: Result<seq<UpdateFile>>)
  {
    var current := CurrentVersion(stored);
    if current.Err? then Err(current.message)
    else
      var scripts := Scripts(folder, names);
      if scripts.Err? then Err(scripts.message)
      else Ok(Order(scripts.value, current.value))
  }

  /** `.sort(compare)`, then the `gt` filter when there is a current version. */
  function Order(scripts: seq<UpdateFile>, current: Option<SemVer.Version>): seq<UpdateFile>
  {
    var sorted := Sort(scripts, ByVersion);
    if current.None? then sorted else Filter(sorted, Above(current.value))
  }

  /** Ordering keeps exactly the scripts required against the current version. */
  lemma OrderMembers(scripts: seq<UpdateFile>, current: Option<SemVer.Version>)
    ensures forall f :: f in Order(scripts, current) <==> f in scripts && Required(f.semver, current)
  {
    var sorted := Sort(scripts, ByVersion);
    SortMembers(scripts, ByVersion);
    if current.Some? {
      forall f ensures Above(current.value)(f) <==> Required(f.semver, current) { }
    }
  }

  /** The order is ascending by version. */
  lemma OrderSorted(scripts: seq<UpdateFile>, current: Option<SemVer.Version>)
    ensures SortedBy(Order(scripts, current), ByVersion)
  {
    ByVersionIsStrictWeakOrder();
    SortSorted(scripts, ByVersion);
    if current.Some? {
      FilterSorted(Sort(scripts, ByVersion), Above(current.value), ByVersion);
    }
  }

  /** Selection fails exactly when the stored version or a script name is not a version. */
  lemma SelectFails(folder: string, names: seq<string>, stored: Option<string>)
    ensures Select(folder, names, stored).Err? <==>
              (Truthy(stored) && SemVer.Parse(stored.value).Err?) || exists n :: n in names && BadScript(n)
  {
  }

  lemma ByVersionIsStrictWeakOrder()
    ensures StrictWeakOrder(ByVersion)
  {
    SemVer.LowerIsStrictWeakOrder();
  }

  /** The selected scripts come in ascending version order. */
  lemma SelectSorted(folder: string, names: seq<string>, stored: Option<string>)
    requires Select(folder, names, stored).Ok?
    ensures SortedBy(Select(folder, names, stored).value, ByVersion)
  {
    OrderSorted(Scripts(folder, names).value, CurrentVersion(stored).value);
  }

  /** Exactly the listed scripts newer than the current version are selected, all of
      them when there is none. */
  lemma SelectMembers(folder: string, names: seq<string>, stored: Option<string>)
    requires Select(folder, names, stored).Ok?
    ensures var current := CurrentVersion(stored).value;
      forall f :: f in Select(folder, names, stored).value <==>
        (exists n :: n in names && Lists(folder, n, f)) && Required(f.semver, current)
  {
    ScriptsMembers(folder, names);
    OrderMembers(Scripts(folder, names).value, CurrentVersion(stored).value);
  }

  /** Without a current version every listed script is selected, each as often as it is
      listed. */
  lemma SelectAllWithoutVersion(folder: string, names: seq<string>, stored: Option<string>)
    requires !Truthy(stored) && Select(folder, names, stored).Ok?
    ensures multiset(Select(folder, names, stored).value) == multiset(Scripts(folder, names).value)
  {
  }

  /** `updateRequired(scriptsFolder)`: whether any script is selected. */
  function UpdateRequired(folder: string, names: seq<string>, stored: Option<string>): (r: Result<bool>)
  {
    var files := Select(folder, names, stored);
    if files.Err? then Err(files.message) else Ok(files.value != [])
  }

  /** An update is required exactly when a listed script is newer than the current
      version, or there is a listed script and no current version. */
  lemma UpdateRequiredMeans(folder: string, names: seq<string>, stored: Option<string>)
    requires Select(folder, names, stored).Ok?
    ensures var current := CurrentVersion(stored).value;
      UpdateRequired(folder, names, stored) == Ok(true) <==>
        exists n, f :: n in names && Lists(folder, n, f) && Required(f.semver, current)
  {
    SelectMembers(folder, names, stored);
    var files := Select(folder, names, stored).value;
    var current := CurrentVersion(stored).value;
    if files != [] {
      assert files[0] in files;
    }
    if exists n, f :: n in names && Lists(folder, n, f) && Required(f.semver, current) {
      var n, f :| n in names && Lists(folder, n, f) && Required(f.semver, current);
      assert f in files;
    }
  }

  /** In a list sorted by version, nothing is newer than the last entry. */
  lemma LastIsGreatest(files: seq<UpdateFile>, f: UpdateFile)
    requires SortedBy(files, ByVersion) && files != [] && f in files
    ensures SemVer.Compare(f.semver, files[|files| - 1].semver) <= 0
  {
    var last := files[|files| - 1];
    var i :| 0 <= i < |files| && files[i] == f;
    SemVer.CompareFlip(f.semver, last.semver);
    if i < |files| - 1 {
      assert !ByVersion(last, f);
    }
  }

  /** The text a version was parsed from reads back as that version. */
  lemma VersionReadsBack(text: string, v: SemVer.Version)
    requires SemVer.Parse(text) == Ok(v)
    ensures CurrentVersion(Some(v.raw)) == Ok(Some(v))
  {
    SemVer.EmptyIsNoVersion();
    assert v.raw == text;
    assert Truthy(Some(v.raw));
  }

  /** When the selected scripts are those of a list required against the current
      version, in ascending order, none of the list is newer than the last selected. */
  lemma NothingAboveLast(scripts: seq<UpdateFile>, files: seq<UpdateFile>, current: Option<SemVer.Version>)
    requires SortedBy(files, ByVersion) && files != []
    requires forall f :: f in files <==> f in scripts && Required(f.semver, current)
    ensures forall f :: f in scripts ==> !Above(files[|files| - 1].semver)(f)
  {
    var last := files[|files| - 1];
    assert last in files;
    forall f | f in scripts ensures SemVer.Compare(f.semver, last.semver) <= 0 {
      if Required(f.semver, current) {
        LastIsGreatest(files, f);
      }
      BelowLast(f.semver, last.semver, current);
    }
  }

  /** A version that is not required is no newer than a required one. */
  lemma BelowLast(v: SemVer.Version, last: SemVer.Version, current: Option<SemVer.Version>)
    requires Required(last, current)
    requires Required(v, current) ==> SemVer.Compare(v, last) <= 0
    ensures SemVer.Compare(v, last) <= 0
  {
    if !Required(v, current) {
      SemVer.CompareFlip(v, current.value);
      SemVer.CompareFlip(last, current.value);
      SemVer.CompareFlip(v, last);
      if SemVer.Compare(v, last) > 0 {
        SemVer.CompareTransitive(current.value, last, v);
      }
    }
  }

  /** Once the version of the last selected script is stored, the same listing selects
      nothing more: `update` run twice runs each script once. */
  lemma SelectAfterUpdate(folder: string, names: seq<string>, stored: Option<string>)
    requires Select(folder, names, stored).Ok? && Select(folder, names, stored).value != []
    ensures var files := Select(folder, names, stored).value;
      Select(folder, names, Some(files[|files| - 1].semver.raw)) == Ok([])
  {
    var scripts, current := SelectParts(folder, names, stored);
    var files := Order(scripts, current);
    var last := files[|files| - 1];
    OrderSorted(scripts, current);
    OrderMembers(scripts, current);
    assert last in files;
    ScriptsReadBack(folder, names);
    NothingAfterLast(scripts, files, current);
    SelectWithVersion(folder, names, Some(last.semver.raw), last.semver);
  }

  /** A successful selection orders the listed scripts against the current version. */
  lemma SelectParts(folder: string, names: seq<string>, stored: Option<string>)
    returns (scripts: seq<UpdateFile>, current: Option<SemVer.Version>)
    requires Select(folder, names, stored).Ok?
    ensures Scripts(folder, names) == Ok(scripts) && CurrentVersion(stored) == Ok(current)
    ensures Select(folder, names, stored) == Ok(Order(scripts, current))
  {
    scripts := Scripts(folder, names).value;
    current := CurrentVersion(stored).value;
  }

  /** The version of every listed script, once stored, reads back as itself. */
  lemma ScriptsReadBack(folder: string, names: seq<string>)
    requires Scripts(folder, names).Ok?
    ensures forall f :: f in Scripts(folder, names).value ==> CurrentVersion(Some(f.semver.raw)) == Ok(Some(f.semver))
  {
    ScriptsMembers(folder, names);
    forall f | f in Scripts(folder, names).value ensures CurrentVersion(Some(f.semver.raw)) == Ok(Some(f.semver)) {
      var n :| n in names && Lists(folder, n, f);
      VersionReadsBack(Stem(n), f.semver);
    }
  }

  /** Against the last selected version, ordering keeps none of the scripts. */
  lemma NothingAfterLast(scripts: seq<UpdateFile>, files: seq<UpdateFile>, current: Option<SemVer.Version>)
    requires SortedBy(files, ByVersion) && files != []
    requires forall f :: f in files <==> f in scripts && Required(f.semver, current)
    ensures Order(scripts, Some(files[|files| - 1].semver)) == []
  {
    NothingAboveLast(scripts, files, current);
    SortMembers(scripts, ByVersion);
    FilterNone(Sort(scripts, ByVersion), Above(files[|files| - 1].semver));
  }

  /** Selection against a known current version. */
  lemma SelectWithVersion(folder: string, names: seq<string>, stored: Option<string>, v: SemVer.Version)
    requires CurrentVersion(stored) == Ok(Some(v)) && Scripts(folder, names).Ok?
    ensures Select(folder, names, stored) == Ok(Order(Scripts(folder, names).value, Some(v)))
  {
  }

  /** The name `getFunction(name, dbName)` calls: prefixed with the database when one is
      given. */
  function FunctionKey(name: string, dbName: Option<string>): string
  {
    if Truthy(dbName) then dbName.value + "." + name else name
  }

  /** Different functions of one database have different keys. */
  lemma FunctionKeyInjective(a: string, b: string, dbName: Option<string>)
    requires FunctionKey(a, dbName) == FunctionKey(b, dbName)
    ensures a == b
  {
    if Truthy(dbName) {
      var prefix := dbName.value + ".";
      assert FunctionKey(a, dbName) == prefix + a && FunctionKey(b, dbName) == prefix + b;
      assert a == (prefix + a)[|prefix|..];
      assert b == (prefix + b)[|prefix|..];
    }
  }

  /** The column of the result `getFunction` reads. */
  function ResultColumn(name: string, dbName: Option<string>): string
  {
    FunctionKey(name, dbName) + "()"
  }

  /** The query `getFunction` sends: it selects exactly the column it then reads. */
  function GetFunctionQuery(name: string, dbName: Option<string>): (q: string)
    ensures q == "select " + ResultColumn(name, dbName) + ";"
  {
    "select " + FunctionKey(name, dbName) + "();"
  }

  /** The value as written after `RETURN`: a string between single quotes, anything
      else as printed; between the quotes stands what the function returns, and a
      string without a quote of its own gives a literal whose only quotes are the two
      around it. */
  function Literal(value: Value): (text: string)
    ensures value.Other? ==> text == Returned(value)
    ensures value.Text? ==> && |text| == |Returned(value)| + 2
                            && text[0] == '\'' && text[|text| - 1] == '\''
                            && text[1..|text| - 1] == Returned(value)
    ensures value.Text? && '\'' !in value.s ==> forall i :: 0 < i < |text| - 1 ==> text[i] != '\''
  {
    match value
    case Text(s) => "'" + s + "'"
    case Other(t) => t
  }

  /** What the created function returns. */
  function Returned(value: Value): string
  {
    match value
    case Text(s) => s
    case Other(t) => t
  }

  /** The statements `setFunction` sends: drop the function, then create it returning
      the value. */
  function SetFunctionQuery(name: string, value: Value, sqlType: string): string
  {
    "DROP FUNCTION IF EXISTS " + name + ";\n      CREATE FUNCTION " + name + "() RETURNS " + sqlType
      + "\nBEGIN\n  RETURN " + Literal(value) + ";\nEND;"
  }

  /** The function a query reads, when the database defines it. */
  function Lookup(functions: map<string, string>, key: string): Option<string>
  {
    if key in functions then Some(functions[key]) else None
  }

  /** A name is kept when the application it records is `appName`. */
  function BelongsTo(functions: map<string, string>, appName: string): string -> bool
  {
    (n: string) => Lookup(functions, FunctionKey(ApplicationFunction, Some(n))) == Some(appName)
  }

  /** `r` is `s` with some elements left out, the rest in the same order. */
  predicate Subsequence<T(==)>(r: seq<T>, s: seq<T>)
    decreases |s|
  {
    if r == [] then true
    else if s == [] then false
    else if r[0] == s[0] then Subsequence(r[1..], s[1..])
    else Subsequence(r, s[1..])
  }

  lemma {:induction false} FilterSubsequence<T(!new)>(s: seq<T>, keep: T -> bool)
    ensures Subsequence(Filter(s, keep), s)
  {
    if s != [] {
      FilterSubsequence(s[1..], keep);
      var rest := Filter(s[1..], keep);
      if !keep(s[0]) && rest != [] {
        assert rest[0] in rest;
      }
    }
  }

  /** The database server as `DbTools` sees it through its Sequelize connection. */
  class Tools {
    /** The functions the server defines, by the name a query calls them with, and the
        text each returns. */
    var functions: map<string, string>
    /** The statements that change the server, in the order they were sent. */
    var executed: seq<string>
    /** What `SHOW DATABASES` lists. */
    const databases: seq<string>

    constructor(databases: seq<string>, functions: map<string, string>)
      ensures this.databases == databases && this.functions == functions && executed == []
    {
      this.databases := databases;
      this.functions := functions;
      executed := [];
    }

    /** `getFunction(name, dbName)`: the value, or nothing when the query fails because
        no such function exists. */
    function GetFunction(name: string, dbName: Option<string>): (r: Option<string>)
      reads this
      ensures r.Some? <==> FunctionKey(name, dbName) in functions
      ensures r.Some? ==> r.value == functions[FunctionKey(name, dbName)]
    {
      Lookup(functions, FunctionKey(name, dbName))
    }

    /** `getApp(dbName)`. */
    function GetApp(dbName: Option<string>): Option<string>
      reads this
    {
      GetFunction(ApplicationFunction, dbName)
    }

    /** `getVersion()`: the version of the current database. */
    function GetVersion(): (r: Result<Option<SemVer.Version>>)
      reads this
    {
      CurrentVersion(GetFunction(VersionFunction, None))
    }

    /** `setFunction(name, value, type)`: after it, `getFunction(name)` returns the value. */
    method SetFunction(name: string, value: Value, sqlType: string)
      modifies this
      ensures executed == old(executed) + [SetFunctionQuery(name, value, sqlType)]
      ensures functions == old(functions)[name := Returned(value)]
      ensures GetFunction(name, None) == Some(Returned(value))
    {
      executed := executed + [SetFunctionQuery(name, value, sqlType)];
      functions := functions[name := Returned(value)];
    }

    /** `setApp(appName)`. */
    method SetApp(appName: string)
      modifies this
      ensures executed == old(executed) + [SetFunctionQuery(ApplicationFunction, Text(appName), DefaultType)]
      ensures GetApp(None) == Some(appName)
      ensures forall k :: k != ApplicationFunction ==> Lookup(functions, k) == Lookup(old(functions), k)
    {
      SetFunction(ApplicationFunction, Text(appName), DefaultType);
    }

    /** `setVersion(version)`: records the text the version was parsed from; nothing
        without a version. */
    method SetVersion(version: Option<SemVer.Version>)
      modifies this
      ensures executed == old(executed) + RecordQueries(version)
      ensures functions == Record(old(functions), version)
    {
      if version.Some? {
        SetFunction(VersionFunction, Text(version.value.raw), DefaultType);
      }
    }

    /** `getDbNames(appName)`: every database without an application name, otherwise
        those that record that application, in listing order. */
    function DbNames(appName: Option<string>): (names: seq<string>)
      reads this
      ensures !Truthy(appName) ==> names == databases
      ensures Truthy(appName) ==> forall n :: n in names <==> n in databases && GetApp(Some(n)) == appName
    {
      if !Truthy(appName) then databases
      else Filter(databases, BelongsTo(functions, appName.value))
    }

    /** The names `getDbNames` returns keep the order of the listing. */
    lemma DbNamesInOrder(appName: Option<string>)
      ensures Subsequence(DbNames(appName), databases)
    {
      if Truthy(appName) {
        FilterSubsequence(databases, BelongsTo(functions, appName.value));
      } else {
        SubsequenceOfItself(databases);
      }
    }

    /** `_getRequiredUpdateFiles(scriptsFolder)` on the listing of the folder. */
    function Selection(folder: string, listing: seq<string>): Result<seq<UpdateFile>>
      reads this
    {
      Select(folder, listing, Lookup(functions, VersionFunction))
    }

    /** The `for` loop of `update`: each script that can be read is sent, in order; a
        failing query is logged and the loop goes on. */
    method RunScripts(files: seq<UpdateFile>, disk: map<string, string>)
      modifies this
      ensures executed == old(executed) + Contents(files, disk)
      ensures functions == old(functions)
    {
      var i := 0;
      while i < |files|
        invariant 0 <= i <= |files|
        invariant executed == old(executed) + Contents(files[..i], disk)
        invariant functions == old(functions)
      {
        assert files[..i + 1] == files[..i] + [files[i]];
        if files[i].file in disk {
          executed := executed + [disk[files[i].file]];
        }
        i := i + 1;
      }
      assert files[..|files|] == files;
    }

    /** `update(scriptsFolder)`: runs the selected scripts in order, a script that cannot
        be read or fails not stopping the others, then records the version of the last
        one. `ok` is false when selecting the scripts throws. */
    method Update(folder: string, listing: seq<string>, disk: map<string, string>) returns (ok: bool)
      modifies this
      ensures ok <==> old(Selection(folder, listing)).Ok?
      ensures !ok ==> functions == old(functions) && executed == old(executed)
      ensures ok ==> var files := old(Selection(folder, listing)).value;
        && executed == old(executed) + Contents(files, disk) + RecordQueries(Last(files))
        && functions == Record(old(functions), Last(files))
      ensures ok ==> Selection(folder, listing) == Ok([])
    {
      var selection := Selection(folder, listing);
      if selection.Err? {
        return false;
      }
      var files := selection.value;
      RunScripts(files, disk);
      SetVersion(Last(files));
      UpdateSelectsNothing(folder, listing, old(functions));
      ok := true;
    }
  }

  /** `files.pop()?.semver`. */
  function Last(files: seq<UpdateFile>): (v: Option<SemVer.Version>)
    ensures v.None? <==> files == []
  {
    if files == [] then None else Some(files[|files| - 1].semver)
  }

  /** The statements `setVersion(version)` sends. */
  function RecordQueries(version: Option<SemVer.Version>): seq<string>
  {
    if version.None? then [] else [SetFunctionQuery(VersionFunction, Text(version.value.raw), DefaultType)]
  }

  /** The functions once `setVersion(version)` has run. */
  function Record(functions: map<string, string>, version: Option<SemVer.Version>): map<string, string>
  {
    if version.None? then functions else functions[VersionFunction := version.value.raw]
  }

  /** After an update, the same listing selects nothing more. */
  lemma UpdateSelectsNothing(folder: string, listing: seq<string>, functions: map<string, string>)
    requires Select(folder, listing, Lookup(functions, VersionFunction)).Ok?
    ensures var files := Select(folder, listing, Lookup(functions, VersionFunction)).value;
      Select(folder, listing, Lookup(Record(functions, Last(files)), VersionFunction)) == Ok([])
  {
    var stored := Lookup(functions, VersionFunction);
    var files := Select(folder, listing, stored).value;
    if files != [] {
      SelectAfterUpdate(folder, listing, stored);
      assert Lookup(Record(functions, Last(files)), VersionFunction) == Some(files[|files| - 1].semver.raw);
    }
  }

  lemma {:induction false} SubsequenceOfItself<T>(s: seq<T>)
    ensures Subsequence(s, s)
  {
    if s != [] {
      SubsequenceOfItself(s[1..]);
    }
  }

  /** The texts of the scripts that can be read, in order. */
  function Contents(files: seq<UpdateFile>, disk: map<string, string>): (texts: seq<string>)
    ensures |texts| <= |files|
    ensures forall t :: t in texts ==> exists f :: f in files && f.file in disk && disk[f.file] == t
  {
    if files == [] then []
    else
      var init := Contents(files[..|files| - 1], disk);
      var f := files[|files| - 1];
      init + (if f.file in disk then [disk[f.file]] else [])
  }
}

/** The name `dumpFileName` gives a dump: the database name, `_` and the postfix when
    one is given, `_`, the `YYYY_MM_DDTHH_mm_ss` stamp of the current time and
    `.sql.gz`. */
module DumpNames {
  import opened JsText
  import Clock
  import MonthPattern

  /** The name of a dump of `dbName` taken at `now`; an empty `postfix` stands for an
      absent one, as both are falsy. */
  function DumpName(dbName: string, postfix: string, now: Clock.DateTime): (name: string)
    requires Clock.Valid(now)
    ensures |name| == |dbName| + (if postfix == "" then 0 else |postfix| + 1) + 27
    ensures name[..|dbName|] == dbName
    ensures EndsWith(name, ".sql.gz")
  {
    Prefix(dbName, postfix) + (Clock.Format(now) + ".sql.gz")
  }

  /** Everything in front of the stamp. */
  function Prefix(dbName: string, postfix: string): (p: string)
    ensures |p| == |dbName| + (if postfix == "" then 0 else |postfix| + 1) + 1
    ensures p[..|dbName|] == dbName && p[|p| - 1] == '_'
  {
    dbName + (if postfix == "" then "" else "_" + postfix) + "_"
  }

  /** Whatever the database name and postfix, `path.extname` of a dump is ".gz". */
  lemma DumpNameExtension(dbName: string, postfix: string, now: Clock.DateTime)
    requires Clock.Valid(now)
    ensures ExtName(DumpName(dbName, postfix, now)) == ".gz"
  {
    var front := Prefix(dbName, postfix) + Clock.Format(now) + ".sql";
    assert DumpName(dbName, postfix, now) == front + ".gz";
    ExtNameOfSuffix(front, ".gz");
  }

  /** For one database and postfix, a later dump has a greater name: comparing names
      as strings compares the times they were taken. */
  lemma DumpNameOrder(dbName: string, postfix: string, a: Clock.DateTime, b: Clock.DateTime)
    requires Clock.Valid(a) && Clock.Valid(b)
    ensures Less(DumpName(dbName, postfix, a), DumpName(dbName, postfix, b)) <==> Clock.Before(a, b)
  {
    var p := Prefix(dbName, postfix);
    LessCommonPrefix(p, Clock.Format(a) + ".sql.gz", Clock.Format(b) + ".sql.gz");
    LessConcatSameLength(Clock.Format(a), ".sql.gz", Clock.Format(b), ".sql.gz");
    LessIrreflexive(".sql.gz");
    Clock.FormatOrder(a, b);
  }

  /** Two dumps of one database and postfix share a name only when taken at the same second. */
  lemma DumpNameInjective(dbName: string, postfix: string, a: Clock.DateTime, b: Clock.DateTime)
    requires Clock.Valid(a) && Clock.Valid(b)
    requires DumpName(dbName, postfix, a) == DumpName(dbName, postfix, b)
    ensures a == b
  {
    var p := Prefix(dbName, postfix);
    assert Clock.Format(a) == DumpName(dbName, postfix, a)[|p|..|p| + 19];
    assert Clock.Format(b) == DumpName(dbName, postfix, b)[|p|..|p| + 19];
    Clock.FormatInjective(a, b);
  }

  /** A dump taken without a postfix matches the monthly pattern of its own month, so
      once it is in the monthly folder the month counts as archived. */
  lemma DumpNameMatchesMonth(dbName: string, now: Clock.DateTime)
    requires Clock.Valid(now) && MonthPattern.PlainText(dbName)
    ensures MonthPattern.MonthlyMatch(dbName, now, DumpName(dbName, "", now))
  {
    var name := DumpName(dbName, "", now);
    var stamp := Clock.Format(now);
    var head := dbName + "_" + Clock.MonthPrefix(now);
    assert name == dbName + "_" + stamp + ".sql.gz";
    Clock.FormatStartsWithMonth(now);
    assert name[..|head|] == head;
    MonthPattern.CompileMatchesItself(head, name, 0);
    var j := |dbName| + 20;
    assert name[j..j + 4] == ".sql";
    MonthPattern.CompileMatchesItself(".sql", name, j);
    forall k | |head| <= k < j ensures !MonthPattern.LineTerminator(name[k]) {
      assert name[k] == stamp[k - |dbName| - 1];
    }
    assert MonthPattern.OneLine(name, |head|, j);
    MonthPattern.MonthlyMatchMeans(dbName, now, name);
  }

  /** A dump's name holds a '/' only when the database name or the postfix does, so it
      is otherwise one path component. */
  lemma DumpNameOneComponent(dbName: string, postfix: string, now: Clock.DateTime)
    requires Clock.Valid(now)
    requires '/' !in dbName && '/' !in postfix
    ensures '/' !in DumpName(dbName, postfix, now)
    ensures |DumpName(dbName, postfix, now)| > 2
  {
    var stamp := Clock.Format(now);
    assert '/' !in stamp by {
      forall i | 0 <= i < |stamp| ensures stamp[i] != '/' {
      }
    }
    assert DumpName(dbName, postfix, now) == Prefix(dbName, postfix) + stamp + ".sql.gz";
  }
}

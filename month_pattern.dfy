/** The pattern `monthlySearchRegexp` builds: `dbName`, '_', the current `YYYY_MM_`,
    then `.+\.sql(\.gz)?` written inside a template literal, where `\.` is just `.`.
    The pattern is thus unanchored and each of its dots matches any character except
    a line terminator. The optional `(.gz)` group never decides whether a name matches,
    so a name matches exactly when the head occurs somewhere, followed by at least one
    character and then any character and "sql", all on one line. */
module MonthPattern {
  import Clock

  /** One position of a pattern made only of literal characters and dots. */
  datatype Atom = Lit(c: char) | Any

  /** The characters with a meaning in a regular expression, apart from '.', which the
      model does handle. */
  predicate Special(c: char)
  {
    c in "\\^$|?*+()[]{}"
  }

  /** A text that, pasted into a regular expression, means its own characters, with each
      '.' a wildcard. Database names are such texts. */
  predicate PlainText(s: string)
  {
    forall i :: 0 <= i < |s| ==> !Special(s[i])
  }

  /** The characters `.` does not match. */
  predicate LineTerminator(c: char)
  {
    c == '\n' || c == '\r' || c == '\U{2028}' || c == '\U{2029}'
  }

  /** The pattern a plain text stands for. */
  function Compile(s: string): (p: seq<Atom>)
    ensures |p| == |s|
    ensures forall i :: 0 <= i < |s| ==> p[i] == if s[i] == '.' then Any else Lit(s[i])
  {
    if s == [] then [] else [if s[0] == '.' then Any else Lit(s[0])] + Compile(s[1..])
  }

  predicate AtomMatches(a: Atom, c: char)
  {
    match a
    case Any => !LineTerminator(c)
    case Lit(x) => c == x
  }

  /** The pattern `p` matches the characters of `s` starting at `i`. */
  predicate MatchesAt(p: seq<Atom>, s: string, i: nat)
  {
    i + |p| <= |s| && forall k :: 0 <= k < |p| ==> AtomMatches(p[k], s[i + k])
  }

  /** The head of the monthly pattern: `dbName_YYYY_MM_`. */
  function Head(dbName: string, now: Clock.DateTime): (p: seq<Atom>)
    requires Clock.Valid(now)
    ensures |p| == |dbName| + 9
  {
    Compile(dbName + "_" + Clock.MonthPrefix(now))
  }

  /** The tail `.sql` of the pattern, its dot a wildcard. */
  function SqlTail(): (p: seq<Atom>)
    ensures p == [Any, Lit('s'), Lit('q'), Lit('l')]
  {
    Compile(".sql")
  }

  /** What `name.match(pattern) !== null` means: the head matches at some `i`, the
      `.+` covers `i + |head| .. j` (at least one character, none a line terminator),
      and the `.sql` tail matches at `j`. */
  ghost predicate Matches(head: seq<Atom>, name: string)
  {
    exists i: nat, j: nat :: i + |head| < j && MatchesAt(head, name, i) && OneLine(name, i + |head|, j)
      && MatchesAt(SqlTail(), name, j)
  }

  /** No line terminator among `s[from..to]`. */
  predicate OneLine(s: string, from: nat, to: nat)
  {
    to <= |s| && forall k :: from <= k < to ==> !LineTerminator(s[k])
  }

  /** Whether `.+` followed by the tail matches from position `k`. */
  function TailFrom(s: string, k: nat): bool
    decreases |s| - k
  {
    k < |s| && !LineTerminator(s[k]) && (MatchesAt(SqlTail(), s, k + 1) || TailFrom(s, k + 1))
  }

  /** The regular expression search, trying each start position from `i` on. */
  function Search(head: seq<Atom>, s: string, i: nat): bool
    decreases |s| - i
  {
    i + |head| <= |s| && ((MatchesAt(head, s, i) && TailFrom(s, i + |head|)) || Search(head, s, i + 1))
  }

  /** `name.match(monthlySearchRegexp()) !== null`. */
  function MonthlyMatch(dbName: string, now: Clock.DateTime, name: string): bool
    requires Clock.Valid(now) && PlainText(dbName)
  {
    Search(Head(dbName, now), name, 0)
  }

  /** `names.filter(f => f.match(monthlySearchRegexp()) !== null)`. */
  function Matching(dbName: string, now: Clock.DateTime, names: seq<string>): (r: seq<string>)
    requires Clock.Valid(now) && PlainText(dbName)
    ensures forall n :: n in r <==> n in names && MonthlyMatch(dbName, now, n)
  {
    if names == [] then []
    else
      var rest := Matching(dbName, now, names[1..]);
      assert names == [names[0]] + names[1..];
      if MonthlyMatch(dbName, now, names[0]) then [names[0]] + rest else rest
  }

  lemma {:induction false} TailFromMeans(s: string, k: nat)
    ensures TailFrom(s, k) <==> exists j: nat :: k < j && j <= |s| && OneLine(s, k, j) && MatchesAt(SqlTail(), s, j)
    decreases |s| - k
  {
    if k < |s| {
      TailFromMeans(s, k + 1);
      if TailFrom(s, k) && !MatchesAt(SqlTail(), s, k + 1) {
        var j: nat :| k + 1 < j && j <= |s| && OneLine(s, k + 1, j) && MatchesAt(SqlTail(), s, j);
        assert OneLine(s, k, j);
      }
      if exists j: nat :: k < j && j <= |s| && OneLine(s, k, j) && MatchesAt(SqlTail(), s, j) {
        var j: nat :| k < j && j <= |s| && OneLine(s, k, j) && MatchesAt(SqlTail(), s, j);
        if j > k + 1 {
          assert OneLine(s, k + 1, j);
        }
      }
    }
  }

  lemma {:induction false} SearchMeans(head: seq<Atom>, s: string, i: nat)
    ensures Search(head, s, i) <==> exists a: nat, j: nat :: i <= a && a + |head| < j && MatchesAt(head, s, a)
                                      && OneLine(s, a + |head|, j) && MatchesAt(SqlTail(), s, j)
    decreases |s| - i
  {
    if i + |head| <= |s| {
      SearchMeans(head, s, i + 1);
      TailFromMeans(s, i + |head|);
      if exists a: nat, j: nat :: i <= a && a + |head| < j && MatchesAt(head, s, a)
           && OneLine(s, a + |head|, j) && MatchesAt(SqlTail(), s, j) {
        var a: nat, j: nat :| i <= a && a + |head| < j && MatchesAt(head, s, a)
          && OneLine(s, a + |head|, j) && MatchesAt(SqlTail(), s, j);
        if a == i {
          assert j <= |s|;
        } else {
          assert i + 1 <= a;
        }
      }
    }
  }

  /** The search finds a match exactly when the pattern matches somewhere. */
  lemma MonthlyMatchMeans(dbName: string, now: Clock.DateTime, name: string)
    requires Clock.Valid(now) && PlainText(dbName)
    ensures MonthlyMatch(dbName, now, name) <==> Matches(Head(dbName, now), name)
  {
    SearchMeans(Head(dbName, now), name, 0);
  }

  /** A text always matches its own pattern: its dots match themselves. */
  lemma CompileMatchesItself(t: string, s: string, i: nat)
    requires i + |t| <= |s| && s[i..i + |t|] == t
    ensures MatchesAt(Compile(t), s, i)
  {
    forall k | 0 <= k < |t| ensures AtomMatches(Compile(t)[k], s[i + k]) {
      assert s[i + k] == s[i..i + |t|][k];
    }
  }
}

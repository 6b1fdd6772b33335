/** The `SemVer` class of the `semver` package as the migration runner uses it:
    `new SemVer(text)` in its strict mode, and `compare`/`gt`, which order versions by
    the precedence of section 11 of Semantic Versioning 2.0.0. */
module SemVer {
  import opened Seqs
  import JsText

  /** The longest text `new SemVer` accepts. */
  const MaxLength := 256
  /** `Number.MAX_SAFE_INTEGER`, the largest major, minor or patch number accepted. */
  const MaxSafeInteger := 0x1F_FFFF_FFFF_FFFF

  /** A pre-release identifier: all digits (a number), or any other text. */
  datatype Ident = Num(n: nat) | Alpha(s: string)

  /** A parsed version; `raw` is the text it was parsed from. */
  datatype Version = Version(major: nat, minor: nat, patch: nat, prerelease: seq<Ident>,
                             build: seq<string>, raw: string)

  predicate Digit(c: char)
  {
    '0' <= c <= '9'
  }

  /** `[0-9A-Za-z-]`. */
  predicate IdentChar(c: char)
  {
    Digit(c) || 'a' <= c <= 'z' || 'A' <= c <= 'Z' || c == '-'
  }

  predicate AllDigits(s: string)
  {
    |s| > 0 && forall i :: 0 <= i < |s| ==> Digit(s[i])
  }

  /** `0|[1-9]\d*`. */
  predicate NumericIdentifier(s: string)
  {
    AllDigits(s) && (s == "0" || s[0] != '0')
  }

  /** A number without leading zeros, or text of `[0-9A-Za-z-]` with a non-digit. */
  predicate PrereleaseIdentifier(s: string)
  {
    |s| > 0 && (forall i :: 0 <= i < |s| ==> IdentChar(s[i])) && (AllDigits(s) ==> NumericIdentifier(s))
  }

  /** `[0-9A-Za-z-]+`. */
  predicate BuildIdentifier(s: string)
  {
    |s| > 0 && forall i :: 0 <= i < |s| ==> IdentChar(s[i])
  }

  /** The number a string of decimal digits denotes. */
  function DigitsValue(s: string): nat
  {
    if s == [] then 0
    else DigitsValue(s[..|s| - 1]) * 10 + (if Digit(s[|s| - 1]) then s[|s| - 1] as int - '0' as int else 0)
  }

  /** The characters `String.prototype.trim` removes: white space and line terminators. */
  predicate Space(c: char)
  {
    || c == '\t' || c == '\n' || c == '\U{000B}' || c == '\U{000C}' || c == '\r' || c == ' '
    || c == '\U{00A0}' || c == '\U{1680}' || '\U{2000}' <= c <= '\U{200A}' || c == '\U{2028}'
    || c == '\U{2029}' || c == '\U{202F}' || c == '\U{205F}' || c == '\U{3000}' || c == '\U{FEFF}'
  }

  function TrimStart(s: string): (r: string)
    ensures |r| <= |s| && r == s[|s| - |r|..]
    ensures r == [] || !Space(r[0])
  {
    if s != [] && Space(s[0]) then TrimStart(s[1..]) else s
  }

  function TrimEnd(s: string): (r: string)
    ensures |r| <= |s| && r == s[..|r|]
    ensures r == [] || !Space(r[|r| - 1])
  {
    if s != [] && Space(s[|s| - 1]) then TrimEnd(s[..|s| - 1]) else s
  }

  /** `s.trim()`. */
  function Trim(s: string): string
  {
    TrimEnd(TrimStart(s))
  }

  /** Index of the first `c` in `s`, or `|s|`. */
  function IndexOf(s: string, c: char): (r: nat)
    ensures r <= |s|
    ensures r < |s| ==> s[r] == c
    ensures forall i :: 0 <= i < r ==> s[i] != c
  {
    if s == [] then 0 else if s[0] == c then 0 else 1 + IndexOf(s[1..], c)
  }

  /** The identifiers of a pre-release, all-digit ones as numbers. */
  function Idents(parts: seq<string>): (ids: seq<Ident>)
    ensures |ids| == |parts|
    ensures forall i :: 0 <= i < |parts| ==>
              ids[i] == if AllDigits(parts[i]) then Num(DigitsValue(parts[i])) else Alpha(parts[i])
  {
    if parts == [] then []
    else [if AllDigits(parts[0]) then Num(DigitsValue(parts[0])) else Alpha(parts[0])] + Idents(parts[1..])
  }

  /** `new SemVer(s)`: at most 256 characters; once trimmed, an optional 'v', three
      numeric identifiers separated by '.', then optionally '-' and dot-separated
      pre-release identifiers, then optionally '+' and dot-separated build identifiers.
      A major, minor or patch number above `MaxSafeInteger` is refused too. */
  function Parse(s: string): (r: Result<Version>)
    ensures r.Ok? ==> |s| <= MaxLength && r.value.raw == s
    ensures r.Ok? ==> r.value.major <= MaxSafeInteger && r.value.minor <= MaxSafeInteger && r.value.patch <= MaxSafeInteger
  {
    if |s| > MaxLength then Err("version is longer than 256 characters")
    else FromPieces(Dissect(Strip(s)), s)
  }

  /** The text once trimmed and without its leading 'v'. */
  function Strip(s: string): string
  {
    var t := Trim(s);
    if |t| > 0 && t[0] == 'v' then t[1..] else t
  }

  /** The dot-separated pieces before the first '-', between it and the first '+', and
      after that '+'. */
  datatype Pieces = Pieces(main: seq<string>, pre: seq<string>, build: seq<string>)

  function Dissect(body: string): Pieces
  {
    var plus := IndexOf(body, '+');
    var head := body[..plus];
    var dash := IndexOf(head, '-');
    Pieces(JsText.Split(head[..dash], '.'),
           if dash < |head| then JsText.Split(head[dash + 1..], '.') else [],
           if plus < |body| then JsText.Split(body[plus + 1..], '.') else [])
  }

  /** The grammar and range checks on the pieces of `s`. */
  function FromPieces(p: Pieces, s: string): (r: Result<Version>)
    ensures r.Ok? ==> r.value.raw == s
    ensures r.Ok? ==> r.value.major <= MaxSafeInteger && r.value.minor <= MaxSafeInteger && r.value.patch <= MaxSafeInteger
  {
    if !(|p.main| == 3 && (forall i :: 0 <= i < 3 ==> NumericIdentifier(p.main[i]))
         && (forall i :: 0 <= i < |p.pre| ==> PrereleaseIdentifier(p.pre[i]))
         && (forall i :: 0 <= i < |p.build| ==> BuildIdentifier(p.build[i])))
    then Err("Invalid Version")
    else if DigitsValue(p.main[0]) > MaxSafeInteger then Err("Invalid major version")
    else if DigitsValue(p.main[1]) > MaxSafeInteger then Err("Invalid minor version")
    else if DigitsValue(p.main[2]) > MaxSafeInteger then Err("Invalid patch version")
    else Ok(Version(DigitsValue(p.main[0]), DigitsValue(p.main[1]), DigitsValue(p.main[2]), Idents(p.pre), p.build, s))
  }

  /** The empty text is no version. */
  lemma EmptyIsNoVersion()
    ensures Parse("").Err?
  {
    assert Strip("") == "";
    assert JsText.Split("", '.') == [""];
    assert Dissect("").main == [""];
  }

  /** `compareIdentifiers` on two numbers. */
  function CompareNat(a: nat, b: nat): (r: int)
    ensures r == 0 <==> a == b
    ensures r == -1 <==> a < b
    ensures r == 1 <==> a > b
  {
    if a == b then 0 else if a < b then -1 else 1
  }

  /** `compareIdentifiers`: numbers by value, below any text; texts in character order. */
  function CompareIdent(a: Ident, b: Ident): int
  {
    match (a, b)
    case (Num(x), Num(y)) => CompareNat(x, y)
    case (Num(_), Alpha(_)) => -1
    case (Alpha(_), Num(_)) => 1
    case (Alpha(x), Alpha(y)) => if x == y then 0 else if JsText.Less(x, y) then -1 else 1
  }

  /** The `do … while` loop of `comparePre` from its first identifier on: identifier
      by identifier, a shorter list first when it is a prefix of the other. */
  function CompareIdents(p: seq<Ident>, q: seq<Ident>): int
  {
    if p == [] && q == [] then 0
    else if q == [] then 1
    else if p == [] then -1
    else if p[0] == q[0] then CompareIdents(p[1..], q[1..])
    else CompareIdent(p[0], q[0])
  }

  /** `comparePre`: a version with a pre-release comes before the same version without. */
  function ComparePre(p: seq<Ident>, q: seq<Ident>): int
  {
    if |p| > 0 && |q| == 0 then -1
    else if |p| == 0 && |q| > 0 then 1
    else CompareIdents(p, q)
  }

  /** `compare(a, b)`: major, minor and patch by value, then the pre-release; the build
      metadata is ignored. */
  function Compare(a: Version, b: Version): int
  {
    if a.major != b.major then CompareNat(a.major, b.major)
    else if a.minor != b.minor then CompareNat(a.minor, b.minor)
    else if a.patch != b.patch then CompareNat(a.patch, b.patch)
    else ComparePre(a.prerelease, b.prerelease)
  }

  /** `a` has lower precedence than `b`. */
  predicate Lower(a: Version, b: Version)
  {
    Compare(a, b) < 0
  }

  /** The part of a version precedence looks at. */
  function Key(v: Version): (nat, nat, nat, seq<Ident>)
  {
    (v.major, v.minor, v.patch, v.prerelease)
  }

  lemma CompareIdentFlip(a: Ident, b: Ident)
    ensures CompareIdent(a, b) == -CompareIdent(b, a)
    ensures CompareIdent(a, b) == 0 <==> a == b
    ensures -1 <= CompareIdent(a, b) <= 1
  {
    if a.Alpha? && b.Alpha? && a.s != b.s {
      JsText.LessTotal(a.s, b.s);
      if JsText.Less(a.s, b.s) {
        JsText.LessAsymmetric(a.s, b.s);
      }
    }
  }

  lemma CompareIdentTransitive(a: Ident, b: Ident, c: Ident)
    requires CompareIdent(a, b) < 0 && CompareIdent(b, c) < 0
    ensures CompareIdent(a, c) < 0
  {
    if a.Alpha? && b.Alpha? && c.Alpha? {
      CompareIdentFlip(a, b);
      CompareIdentFlip(b, c);
      JsText.LessTransitive(a.s, b.s, c.s);
      JsText.LessIrreflexive(a.s);
    }
  }

  lemma {:induction false} CompareIdentsFlip(p: seq<Ident>, q: seq<Ident>)
    ensures CompareIdents(p, q) == -CompareIdents(q, p)
    ensures CompareIdents(p, q) == 0 <==> p == q
    ensures -1 <= CompareIdents(p, q) <= 1
  {
    if p != [] && q != [] {
      if p[0] == q[0] {
        CompareIdentsFlip(p[1..], q[1..]);
        assert p == [p[0]] + p[1..] && q == [q[0]] + q[1..];
      } else {
        CompareIdentFlip(p[0], q[0]);
      }
    }
  }

  lemma {:induction false} CompareIdentsTransitive(p: seq<Ident>, q: seq<Ident>, r: seq<Ident>)
    requires CompareIdents(p, q) < 0 && CompareIdents(q, r) < 0
    ensures CompareIdents(p, r) < 0
  {
    if p != [] && r != [] {
      if p[0] == q[0] && q[0] == r[0] {
        CompareIdentsTransitive(p[1..], q[1..], r[1..]);
      } else if p[0] == q[0] {
        assert CompareIdent(q[0], r[0]) < 0;
      } else if q[0] == r[0] {
        assert CompareIdent(p[0], q[0]) < 0;
      } else {
        CompareIdentTransitive(p[0], q[0], r[0]);
        CompareIdentFlip(p[0], r[0]);
      }
    }
  }

  /** Swapping the arguments of `compare` negates the result, which is -1, 0 or 1 and
      0 exactly when the versions have the same precedence. */
  lemma CompareFlip(a: Version, b: Version)
    ensures Compare(a, b) == -Compare(b, a)
    ensures Compare(a, b) == 0 <==> Key(a) == Key(b)
    ensures -1 <= Compare(a, b) <= 1
  {
    CompareIdentsFlip(a.prerelease, b.prerelease);
  }

  lemma CompareTransitive(a: Version, b: Version, c: Version)
    requires Lower(a, b) && Lower(b, c)
    ensures Lower(a, c)
  {
    if a.major == b.major == c.major && a.minor == b.minor == c.minor && a.patch == b.patch == c.patch
       && |a.prerelease| > 0 && |b.prerelease| > 0 && |c.prerelease| > 0 {
      CompareIdentsTransitive(a.prerelease, b.prerelease, c.prerelease);
    }
  }

  /** Precedence is a strict weak order, so the stable sort by `compare` orders the
      versions; versions of equal precedence keep their order. */
  lemma LowerIsStrictWeakOrder()
    ensures StrictWeakOrder(Lower)
  {
    forall a ensures !Lower(a, a) {
      CompareFlip(a, a);
    }
    forall a, b, c | Lower(a, b) && Lower(b, c) ensures Lower(a, c) {
      CompareTransitive(a, b, c);
    }
    forall a, b, c | !Lower(a, b) && !Lower(b, a) && !Lower(b, c) && !Lower(c, b) ensures !Lower(a, c) {
      CompareFlip(a, b);
      CompareFlip(b, c);
      CompareFlip(a, c);
    }
  }

  /** The decimal text of a number, without leading zeros. */
  function NatText(n: nat): (s: string)
    ensures NumericIdentifier(s)
    ensures DigitsValue(s) == n
  {
    var d := ['0' + (n % 10) as char];
    if n < 10 then d
    else
      var s := NatText(n / 10) + d;
      assert s[..|s| - 1] == NatText(n / 10);
      s
  }

  /** A number below `10^k` takes at most `k` digits. */
  lemma {:induction false} NatTextLength(n: nat, k: nat)
    requires n < Pow10(k) && k >= 1
    ensures |NatText(n)| <= k
    decreases k
  {
    assert Pow10(1) == 10;
    if n >= 10 {
      assert k >= 2;
      NatTextLength(n / 10, k - 1);
    }
  }

  function Pow10(k: nat): (p: nat)
    ensures p >= 1
  {
    if k == 0 then 1 else 10 * Pow10(k - 1)
  }

  /** `major.minor.patch` in decimal, the usual name of a migration script. */
  function Plain(major: nat, minor: nat, patch: nat): string
  {
    NatText(major) + "." + NatText(minor) + "." + NatText(patch)
  }

  /** A version number takes at most 16 digits. */
  lemma SafeDigits(n: nat)
    requires n <= MaxSafeInteger
    ensures |NatText(n)| <= 16
  {
    assert Pow10(2) == 100;
    assert Pow10(4) == 10_000;
    assert Pow10(6) == 1_000_000;
    assert Pow10(8) == 100_000_000;
    assert Pow10(10) == 10_000_000_000;
    assert Pow10(12) == 1_000_000_000_000;
    assert Pow10(14) == 100_000_000_000_000;
    assert Pow10(16) == 10_000_000_000_000_000;
    NatTextLength(n, 16);
  }

  /** Only digits and dots, as in the text of a plain version. */
  predicate DigitsOrDots(s: string)
  {
    forall i :: 0 <= i < |s| ==> Digit(s[i]) || s[i] == '.'
  }

  lemma DigitsOrDotsAppend(a: string, b: string)
    requires DigitsOrDots(a) && DigitsOrDots(b)
    ensures DigitsOrDots(a + b)
  {
    forall i | 0 <= i < |a + b| ensures Digit((a + b)[i]) || (a + b)[i] == '.' {
      if i >= |a| { assert (a + b)[i] == b[i - |a|]; }
    }
  }

  /** Trimming and the optional 'v' leave a text of digits and dots alone. */
  lemma StripDigitsAndDots(t: string)
    requires t != [] && Digit(t[0]) && Digit(t[|t| - 1])
    ensures Strip(t) == t
  {
    assert !Space(t[0]) && !Space(t[|t| - 1]);
    assert TrimStart(t) == t;
  }

  lemma NoSigns(t: string)
    requires DigitsOrDots(t)
    ensures '+' !in t && '-' !in t
  {
  }

  /** Without '+' or '-' the whole text is the dot-separated main part. */
  lemma DissectWithoutSigns(t: string)
    requires '+' !in t && '-' !in t
    ensures Dissect(t) == Pieces(JsText.Split(t, '.'), [], [])
  {
    assert IndexOf(t, '+') == |t|;
    assert t[..|t|] == t;
    assert IndexOf(t, '-') == |t|;
  }

  /** Three numeric identifiers in range pass the checks. */
  lemma FromNumbers(x: string, y: string, z: string, s: string)
    requires NumericIdentifier(x) && NumericIdentifier(y) && NumericIdentifier(z)
    requires DigitsValue(x) <= MaxSafeInteger && DigitsValue(y) <= MaxSafeInteger && DigitsValue(z) <= MaxSafeInteger
    ensures FromPieces(Pieces([x, y, z], [], []), s) == Ok(Version(DigitsValue(x), DigitsValue(y), DigitsValue(z), [], [], s))
  {
    assert forall i :: 0 <= i < 3 ==> NumericIdentifier([x, y, z][i]);
  }

  /** A version text of digits and dots parses to the numbers its dots separate. */
  lemma ParseDigitsAndDots(t: string, x: string, y: string, z: string)
    requires |t| <= MaxLength && t != [] && DigitsOrDots(t) && Digit(t[0]) && Digit(t[|t| - 1])
    requires JsText.Split(t, '.') == [x, y, z]
    requires NumericIdentifier(x) && NumericIdentifier(y) && NumericIdentifier(z)
    requires DigitsValue(x) <= MaxSafeInteger && DigitsValue(y) <= MaxSafeInteger && DigitsValue(z) <= MaxSafeInteger
    ensures Parse(t) == Ok(Version(DigitsValue(x), DigitsValue(y), DigitsValue(z), [], [], t))
  {
    StripDigitsAndDots(t);
    NoSigns(t);
    DissectWithoutSigns(t);
    FromNumbers(x, y, z, t);
    assert Parse(t) == FromPieces(Dissect(Strip(t)), t);
  }

  /** Three numbers joined by dots are digits and dots, from a digit to a digit. */
  lemma JoinedShape(x: string, y: string, z: string)
    requires AllDigits(x) && AllDigits(y) && AllDigits(z)
    ensures var t := x + "." + y + "." + z;
      DigitsOrDots(t) && Digit(t[0]) && Digit(t[|t| - 1]) && '.' !in x && '.' !in y && '.' !in z
  {
    var t := x + "." + y + "." + z;
    DigitsOrDotsAppend(x, ".");
    DigitsOrDotsAppend(x + ".", y);
    DigitsOrDotsAppend(x + "." + y, ".");
    DigitsOrDotsAppend(x + "." + y + ".", z);
    assert t[0] == x[0] && t[|t| - 1] == z[|z| - 1];
  }

  /** Three numeric identifiers joined by dots, short enough and each at most
      `MaxSafeInteger`, parse as the version they spell. */
  lemma ParseNumbers(x: string, y: string, z: string)
    requires NumericIdentifier(x) && NumericIdentifier(y) && NumericIdentifier(z)
    requires DigitsValue(x) <= MaxSafeInteger && DigitsValue(y) <= MaxSafeInteger && DigitsValue(z) <= MaxSafeInteger
    requires |x| + |y| + |z| + 2 <= MaxLength
    ensures var t := x + "." + y + "." + z;
      Parse(t) == Ok(Version(DigitsValue(x), DigitsValue(y), DigitsValue(z), [], [], t))
  {
    var t := x + "." + y + "." + z;
    JoinedShape(x, y, z);
    JsText.SplitThree(x, y, z, '.');
    ParseDigitsAndDots(t, x, y, z);
  }

  /** Reading back the text of a version without pre-release or build gives that
      version, so every such version can name a script. */
  lemma ParsePlain(major: nat, minor: nat, patch: nat)
    requires major <= MaxSafeInteger && minor <= MaxSafeInteger && patch <= MaxSafeInteger
    ensures Parse(Plain(major, minor, patch)) == Ok(Version(major, minor, patch, [], [], Plain(major, minor, patch)))
  {
    SafeDigits(major);
    SafeDigits(minor);
    SafeDigits(patch);
    ParseNumbers(NatText(major), NatText(minor), NatText(patch));
  }
}

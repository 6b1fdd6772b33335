/** The wall-clock reading the dumper formats with moment's `YYYY_MM_DDTHH_mm_ss`
    pattern, and the reason that pattern is used: it is fixed-width, zero-padded and
    most significant first, so comparing two stamps as strings compares the times. */
module Clock {
  import JsText

  /** A local wall-clock reading, to the second. */
  datatype DateTime = DateTime(year: int, month: int, day: int, hour: int, minute: int, second: int)

  /** A reading moment can produce and format on four year digits. */
  predicate Valid(t: DateTime)
  {
    && 0 <= t.year <= 9999
    && 1 <= t.month <= 12
    && 1 <= t.day <= 31
    && 0 <= t.hour < 24
    && 0 <= t.minute < 60
    && 0 <= t.second < 60
  }

  /** Chronological order of two readings. */
  predicate Before(a: DateTime, b: DateTime)
  {
    || a.year < b.year
    || (a.year == b.year && a.month < b.month)
    || (a.year == b.year && a.month == b.month && a.day < b.day)
    || (a.year == b.year && a.month == b.month && a.day == b.day && a.hour < b.hour)
    || (a.year == b.year && a.month == b.month && a.day == b.day && a.hour == b.hour && a.minute < b.minute)
    || (a.year == b.year && a.month == b.month && a.day == b.day && a.hour == b.hour && a.minute == b.minute
        && a.second < b.second)
  }

  /** Whole seconds counted on the wall clock; the model stamps a file it writes with
      this value as its modification time. */
  function Instant(t: DateTime): int
  {
    ((((t.year * 12 + (t.month - 1)) * 31 + (t.day - 1)) * 24 + t.hour) * 60 + t.minute) * 60 + t.second
  }

  function Digit(n: int): (c: char)
    requires 0 <= n < 10
    ensures '0' <= c <= '9'
  {
    ('0' as int + n) as char
  }

  /** moment's two-digit, zero-padded field. */
  function Pad2(n: int): (s: string)
    requires 0 <= n < 100
    ensures |s| == 2 && forall i :: 0 <= i < 2 ==> '0' <= s[i] <= '9'
  {
    [Digit(n / 10)] + [Digit(n % 10)]
  }

  /** moment's four-digit, zero-padded year (`YYYY`). */
  function Pad4(n: int): (s: string)
    requires 0 <= n < 10000
    ensures |s| == 4 && forall i :: 0 <= i < 4 ==> '0' <= s[i] <= '9'
  {
    Pad2(n / 100) + Pad2(n % 100)
  }

  /** `moment().format('YYYY_MM_DDTHH_mm_ss')`. */
  function Format(t: DateTime): (s: string)
    requires Valid(t)
    ensures |s| == 19
    ensures s[4] == '_' && s[7] == '_' && s[10] == 'T' && s[13] == '_' && s[16] == '_'
    ensures forall i :: 0 <= i < 19 ==> '0' <= s[i] <= '9' || s[i] == '_' || s[i] == 'T'
  {
    Pad4(t.year) + ("_" + (Pad2(t.month) + ("_" + (Pad2(t.day) + ("T" + (Pad2(t.hour)
      + ("_" + (Pad2(t.minute) + ("_" + Pad2(t.second))))))))))
  }

  /** `moment().format('YYYY_MM_')`, the month part the monthly archive searches for. */
  function MonthPrefix(t: DateTime): (s: string)
    requires Valid(t)
    ensures |s| == 8
  {
    Pad4(t.year) + "_" + Pad2(t.month) + "_"
  }

  /** The stamp starts with the month part. */
  lemma FormatStartsWithMonth(t: DateTime)
    requires Valid(t)
    ensures Format(t)[..8] == MonthPrefix(t)
  {
    assert Format(t)[..8] == Pad4(t.year) + "_" + Pad2(t.month) + "_";
  }

  lemma DivMod10Order(x: int, y: int)
    requires 0 <= x && 0 <= y
    ensures x < y <==> x / 10 < y / 10 || (x / 10 == y / 10 && x % 10 < y % 10)
    ensures x == y <==> x / 10 == y / 10 && x % 10 == y % 10
  {
  }

  lemma DivMod100Order(x: int, y: int)
    requires 0 <= x && 0 <= y
    ensures x < y <==> x / 100 < y / 100 || (x / 100 == y / 100 && x % 100 < y % 100)
    ensures x == y <==> x / 100 == y / 100 && x % 100 == y % 100
  {
  }

  lemma DigitOrder(a: int, b: int)
    requires 0 <= a < 10 && 0 <= b < 10
    ensures Digit(a) < Digit(b) <==> a < b
    ensures Digit(a) == Digit(b) <==> a == b
  {
  }

  lemma {:induction false} Pad2Order(a: int, b: int)
    requires 0 <= a < 100 && 0 <= b < 100
    ensures JsText.Less(Pad2(a), Pad2(b)) <==> a < b
    ensures Pad2(a) == Pad2(b) <==> a == b
  {
    DivMod10Order(a, b);
    DigitOrder(a / 10, b / 10);
    DigitOrder(a % 10, b % 10);
    JsText.LessConcatSameLength([Digit(a / 10)], [Digit(a % 10)], [Digit(b / 10)], [Digit(b % 10)]);
    if Pad2(a) == Pad2(b) {
      assert Pad2(a)[0] == Pad2(b)[0] && Pad2(a)[1] == Pad2(b)[1];
    }
  }

  lemma {:induction false} Pad4Order(a: int, b: int)
    requires 0 <= a < 10000 && 0 <= b < 10000
    ensures JsText.Less(Pad4(a), Pad4(b)) <==> a < b
    ensures Pad4(a) == Pad4(b) <==> a == b
  {
    DivMod100Order(a, b);
    Pad2Order(a / 100, b / 100);
    Pad2Order(a % 100, b % 100);
    JsText.LessConcatSameLength(Pad2(a / 100), Pad2(a % 100), Pad2(b / 100), Pad2(b % 100));
    if Pad4(a) == Pad4(b) {
      assert Pad4(a)[..2] == Pad2(a / 100) && Pad4(b)[..2] == Pad2(b / 100);
      assert Pad4(a)[2..] == Pad2(a % 100) && Pad4(b)[2..] == Pad2(b % 100);
    }
  }

  /** One step of the stamp comparison: a fixed-width field, then a separator. */
  lemma FieldStep(f1: string, f2: string, sep: string, r1: string, r2: string)
    requires |f1| == |f2|
    ensures JsText.Less(f1 + (sep + r1), f2 + (sep + r2)) <==> JsText.Less(f1, f2) || (f1 == f2 && JsText.Less(r1, r2))
  {
    JsText.LessConcatSameLength(f1, sep + r1, f2, sep + r2);
    JsText.LessCommonPrefix(sep, r1, r2);
  }

  /** The stamp order is the time order: the property the remote rotation relies on
      when it keeps the lexically last names. */
  lemma FormatOrder(a: DateTime, b: DateTime)
    requires Valid(a) && Valid(b)
    ensures JsText.Less(Format(a), Format(b)) <==> Before(a, b)
  {
    Pad4Order(a.year, b.year);
    Pad2Order(a.month, b.month);
    Pad2Order(a.day, b.day);
    Pad2Order(a.hour, b.hour);
    Pad2Order(a.minute, b.minute);
    Pad2Order(a.second, b.second);
    var sec1, sec2 := Pad2(a.second), Pad2(b.second);
    var mi1, mi2 := Pad2(a.minute) + ("_" + sec1), Pad2(b.minute) + ("_" + sec2);
    FieldStep(Pad2(a.minute), Pad2(b.minute), "_", sec1, sec2);
    var h1, h2 := Pad2(a.hour) + ("_" + mi1), Pad2(b.hour) + ("_" + mi2);
    FieldStep(Pad2(a.hour), Pad2(b.hour), "_", mi1, mi2);
    var d1, d2 := Pad2(a.day) + ("T" + h1), Pad2(b.day) + ("T" + h2);
    FieldStep(Pad2(a.day), Pad2(b.day), "T", h1, h2);
    var m1, m2 := Pad2(a.month) + ("_" + d1), Pad2(b.month) + ("_" + d2);
    FieldStep(Pad2(a.month), Pad2(b.month), "_", d1, d2);
    FieldStep(Pad4(a.year), Pad4(b.year), "_", m1, m2);
    assert Format(a) == Pad4(a.year) + ("_" + m1);
    assert Format(b) == Pad4(b.year) + ("_" + m2);
  }

  /** Two different readings never share a stamp. */
  lemma FormatInjective(a: DateTime, b: DateTime)
    requires Valid(a) && Valid(b)
    requires Format(a) == Format(b)
    ensures a == b
  {
    FormatOrder(a, b);
    FormatOrder(b, a);
    JsText.LessIrreflexive(Format(a));
  }
}

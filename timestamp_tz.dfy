/** The `TimestampTZ` column type of models.py: a datetime is bound as its
    `isoformat()` string and read back with `datetime.fromisoformat`. */
module TimestampTZ {
  import opened Base
  import Lexical

  /** The fields of a Python datetime; `offset` is the UTC offset in whole
      seconds east of UTC, `None` for a naive datetime. */
  datatype Civil = Civil(year: int, month: int, day: int,
                         hour: int, minute: int, second: int, microsecond: int,
                         offset: Option<int>)

  predicate IsLeap(y: int) {
    y % 4 == 0 && (y % 100 != 0 || y % 400 == 0)
  }

  function DaysInMonth(y: int, m: int): int
    requires 1 <= m <= 12
  {
    if m == 2 then (if IsLeap(y) then 29 else 28)
    else if m == 4 || m == 6 || m == 9 || m == 11 then 30
    else 31
  }

  /** The ranges Python's datetime and timezone constructors enforce. */
  predicate WellFormed(c: Civil) {
    && 1 <= c.year <= 9999
    && 1 <= c.month <= 12
    && 1 <= c.day <= DaysInMonth(c.year, c.month)
    && 0 <= c.hour < 24 && 0 <= c.minute < 60 && 0 <= c.second < 60
    && 0 <= c.microsecond < 1000000
    && (c.offset.Some? ==> -86400 < c.offset.value < 86400)
  }

  /** Every Python datetime object is well formed. */
  type DateTime = c: Civil | WellFormed(c) witness Civil(1, 1, 1, 0, 0, 0, 0, None)

  /** Python's comparison of two datetimes with the same UTC offset: field by
      field, from the year down to the microsecond. */
  predicate Before(a: DateTime, b: DateTime) {
    || a.year < b.year
    || (a.year == b.year && a.month < b.month)
    || (a.year == b.year && a.month == b.month && a.day < b.day)
    || (a.year == b.year && a.month == b.month && a.day == b.day && a.hour < b.hour)
    || (a.year == b.year && a.month == b.month && a.day == b.day && a.hour == b.hour
        && a.minute < b.minute)
    || (a.year == b.year && a.month == b.month && a.day == b.day && a.hour == b.hour
        && a.minute == b.minute && a.second < b.second)
    || (a.year == b.year && a.month == b.month && a.day == b.day && a.hour == b.hour
        && a.minute == b.minute && a.second == b.second && a.microsecond < b.microsecond)
  }

  predicate IsUtc(t: DateTime) {
    t.offset == Some(0)
  }

  // ---------------------------------------------------------------- digits

  function Pow10(w: nat): nat {
    if w == 0 then 1 else 10 * Pow10(w - 1)
  }

  predicate IsDigit(c: char) {
    '0' <= c <= '9'
  }

  predicate AllDigits(s: string) {
    forall i :: 0 <= i < |s| ==> IsDigit(s[i])
  }

  function DigitChar(d: int): (c: char)
    requires 0 <= d < 10
    ensures IsDigit(c)
  {
    ('0' as int + d) as char
  }

  /** `n` written with exactly `w` decimal digits, as `%0wd` writes it when `n < 10^w`. */
  function Pad(n: nat, w: nat): (r: string)
    ensures |r| == w && AllDigits(r)
  {
    if w == 0 then [] else Pad(n / 10, w - 1) + [DigitChar(n % 10)]
  }

  /** The number a run of decimal digits denotes. */
  function DigitsValue(s: string): nat
    requires AllDigits(s)
  {
    if s == [] then 0
    else DigitsValue(s[..|s| - 1]) * 10 + (s[|s| - 1] as int - '0' as int)
  }

  lemma {:induction false} PadRoundTrip(n: nat, w: nat)
    requires n < Pow10(w)
    ensures DigitsValue(Pad(n, w)) == n
  {
    if w > 0 {
      var p := Pad(n, w);
      assert p[..w - 1] == Pad(n / 10, w - 1);
      PadRoundTrip(n / 10, w - 1);
    }
  }

  /** Fixed-width digit strings sort as the numbers they denote. */
  lemma {:induction false} PadOrder(n: nat, m: nat, w: nat)
    requires n < m < Pow10(w)
    ensures Lexical.Less(Pad(n, w), Pad(m, w))
  {
    var n', m' := n / 10, m / 10;
    if n' == m' {
      assert n % 10 < m % 10;
      assert Pad(n, w) == Pad(n', w - 1) + [DigitChar(n % 10)];
      assert Pad(m, w) == Pad(n', w - 1) + [DigitChar(m % 10)];
      Lexical.LessSamePrefix(Pad(n', w - 1), [DigitChar(n % 10)], [DigitChar(m % 10)]);
    } else {
      assert n' < m' < Pow10(w - 1);
      PadOrder(n', m', w - 1);
      Lexical.LessHeadDecides(Pad(n', w - 1), [DigitChar(n % 10)], Pad(m', w - 1), [DigitChar(m % 10)]);
    }
  }

  // ---------------------------------------------------------------- encode

  /** `YYYY-MM-DDTHH:MM:SS`, the fixed-width head of every isoformat string. */
  function Head(t: DateTime): (s: string)
    ensures |s| == 19
  {
    Pad(t.year, 4) + "-" + Pad(t.month, 2) + "-" + Pad(t.day, 2) + "T"
      + Pad(t.hour, 2) + ":" + Pad(t.minute, 2) + ":" + Pad(t.second, 2)
  }

  /** `.ffffff`, present only when the microseconds are not zero. */
  function FractionText(us: nat): string {
    if us != 0 then "." + Pad(us, 6) else ""
  }

  /** `+HH:MM` or `-HH:MM`, with `:SS` only when the seconds are not zero. */
  function OffsetString(negative: bool, hh: nat, mm: nat, ss: nat): string {
    (if negative then "-" else "+") + Pad(hh, 2) + ":" + Pad(mm, 2)
      + (if ss != 0 then ":" + Pad(ss, 2) else "")
  }

  /** The offset text isoformat appends; empty for a naive datetime. */
  function OffsetText(offset: Option<int>): string {
    match offset
    case None => ""
    case Some(o) =>
      var a: nat := if o < 0 then -o else o;
      OffsetString(o < 0, a / 3600, a % 3600 / 60, a % 60)
  }

  /** `process_bind_param`: the string stored for a datetime (`value.isoformat()`). */
  function Encode(t: DateTime): string {
    Head(t) + FractionText(t.microsecond) + OffsetText(t.offset)
  }

  // ---------------------------------------------------------------- decode

  const InvalidIsoformat := ValueError("Invalid isoformat string")

  /** The value of the digits `s[i..j]`, if they are all digits. */
  function DigitsAt(s: string, i: nat, j: nat): Option<nat>
    requires i <= j <= |s|
  {
    if AllDigits(s[i..j]) then Some(DigitsValue(s[i..j])) else None
  }

  /** The seven fields of `YYYY-MM-DD?HH:MM:SS`; the date/time separator may be
      any single character. */
  function DecodeHead(s: string): Option<seq<nat>>
    requires |s| == 19
  {
    if s[4] != '-' || s[7] != '-' || s[13] != ':' || s[16] != ':' then None
    else
      match (DigitsAt(s, 0, 4), DigitsAt(s, 5, 7), DigitsAt(s, 8, 10),
             DigitsAt(s, 11, 13), DigitsAt(s, 14, 16), DigitsAt(s, 17, 19))
      case (Some(y), Some(mo), Some(d), Some(h), Some(mi), Some(se)) => Some([y, mo, d, h, mi, se])
      case _ => None
  }

  /** `+HH:MM`, `+HH:MM:SS` (or with `-`), or nothing: the offset in seconds. */
  function DecodeOffset(r: string): Option<Option<int>> {
    if r == [] then Some(None)
    else if (|r| != 6 && |r| != 9) || (r[0] != '+' && r[0] != '-') || r[3] != ':' then None
    else if |r| == 9 && r[6] != ':' then None
    else
      match (DigitsAt(r, 1, 3), DigitsAt(r, 4, 6), if |r| == 9 then DigitsAt(r, 7, 9) else Some(0))
      case (Some(hh), Some(mm), Some(ss)) =>
        if hh < 24 && mm < 60 && ss < 60 then
          var a: int := hh * 3600 + mm * 60 + ss;
          Some(Some(if r[0] == '-' then -a else a))
        else None
      case _ => None
  }

  /** An optional `.ffffff` followed by the offset. */
  function DecodeTail(r: string): Option<(nat, Option<int>)> {
    if r != [] && r[0] == '.' then
      if |r| < 7 then None
      else
        match (DigitsAt(r, 1, 7), DecodeOffset(r[7..]))
        case (Some(us), Some(off)) => Some((us, off))
        case _ => None
    else
      match DecodeOffset(r)
      case Some(off) => Some((0, off))
      case None => None
  }

  /** `process_result_value`: `datetime.fromisoformat` on a stored string. */
  function Decode(s: string): (r: Result<DateTime>)
    ensures r.Err? ==> r.error == InvalidIsoformat
  {
    if |s| < 19 then Err(InvalidIsoformat)
    else
      match (DecodeHead(s[..19]), DecodeTail(s[19..]))
      case (Some(f), Some((us, off))) =>
        var c := Civil(f[0], f[1], f[2], f[3], f[4], f[5], us, off);
        if WellFormed(c) then Ok(c) else Err(InvalidIsoformat)
      case _ => Err(InvalidIsoformat)
  }

  // ---------------------------------------------------------------- round trip

  /** Slicing a padded field back out of a string. */
  lemma DigitsAtPad(s: string, i: nat, n: nat, w: nat)
    requires i + w <= |s| && s[i..i + w] == Pad(n, w) && n < Pow10(w)
    ensures DigitsAt(s, i, i + w) == Some(n)
  {
    PadRoundTrip(n, w);
  }

  lemma {:induction false} HeadRoundTrip(t: DateTime)
    ensures DecodeHead(Head(t)) == Some([t.year, t.month, t.day, t.hour, t.minute, t.second])
  {
    var h := Head(t);
    assert h[0..4] == Pad(t.year, 4);
    assert h[5..7] == Pad(t.month, 2);
    assert h[8..10] == Pad(t.day, 2);
    assert h[11..13] == Pad(t.hour, 2);
    assert h[14..16] == Pad(t.minute, 2);
    assert h[17..19] == Pad(t.second, 2);
    DigitsAtPad(h, 0, t.year, 4);
    DigitsAtPad(h, 5, t.month, 2);
    DigitsAtPad(h, 8, t.day, 2);
    DigitsAtPad(h, 11, t.hour, 2);
    DigitsAtPad(h, 14, t.minute, 2);
    DigitsAtPad(h, 17, t.second, 2);
  }

  lemma OffsetStringRoundTrip(negative: bool, hh: nat, mm: nat, ss: nat)
    requires hh < 24 && mm < 60 && ss < 60
    ensures var a: int := hh * 3600 + mm * 60 + ss;
            DecodeOffset(OffsetString(negative, hh, mm, ss)) == Some(Some(if negative then -a else a))
  {
    var r := OffsetString(negative, hh, mm, ss);
    assert r[1..3] == Pad(hh, 2);
    assert r[4..6] == Pad(mm, 2);
    DigitsAtPad(r, 1, hh, 2);
    DigitsAtPad(r, 4, mm, 2);
    if ss != 0 {
      assert r[7..9] == Pad(ss, 2);
      DigitsAtPad(r, 7, ss, 2);
    }
  }

  lemma SplitSeconds(a: nat)
    requires a < 86400
    ensures a / 3600 < 24 && a % 3600 / 60 < 60 && a % 60 < 60
    ensures a == (a / 3600) * 3600 + (a % 3600 / 60) * 60 + a % 60
  {
  }

  lemma {:induction false} OffsetRoundTrip(t: DateTime)
    ensures DecodeOffset(OffsetText(t.offset)) == Some(t.offset)
  {
    if t.offset.Some? {
      var o := t.offset.value;
      var a: nat := if o < 0 then -o else o;
      SplitSeconds(a);
      OffsetStringRoundTrip(o < 0, a / 3600, a % 3600 / 60, a % 60);
    }
  }

  lemma {:induction false} TailRoundTrip(t: DateTime)
    ensures DecodeTail(FractionText(t.microsecond) + OffsetText(t.offset)) == Some((t.microsecond, t.offset))
  {
    var f, o := FractionText(t.microsecond), OffsetText(t.offset);
    OffsetRoundTrip(t);
    if t.microsecond != 0 {
      var r := f + o;
      assert r[1..7] == Pad(t.microsecond, 6);
      DigitsAtPad(r, 1, t.microsecond, 6);
      assert r[7..] == o;
    } else {
      assert f + o == o;
    }
  }

  /** Reading back what was stored gives the same datetime. */
  lemma {:induction false} RoundTrip(t: DateTime)
    ensures Decode(Encode(t)) == Ok(t)
  {
    var s := Encode(t);
    assert s[..19] == Head(t);
    assert s[19..] == FractionText(t.microsecond) + OffsetText(t.offset);
    HeadRoundTrip(t);
    TailRoundTrip(t);
  }

  /** Distinct datetimes are stored as distinct strings, so the string key
      column tells them apart. */
  lemma EncodeInjective(a: DateTime, b: DateTime)
    requires Encode(a) == Encode(b)
    ensures a == b
  {
    RoundTrip(a);
    RoundTrip(b);
  }

  // ---------------------------------------------------------------- order

  /** What follows the seconds: the optional fraction, then the offset. */
  function Tail(t: DateTime): string {
    FractionText(t.microsecond) + OffsetText(t.offset)
  }

  /** The encoding read right to left, one field at a time (proof device). */
  function E6(t: DateTime): string { Pad(t.second, 2) + Tail(t) }
  function E5(t: DateTime): string { Pad(t.minute, 2) + (":" + E6(t)) }
  function E4(t: DateTime): string { Pad(t.hour, 2) + (":" + E5(t)) }
  function E3(t: DateTime): string { Pad(t.day, 2) + ("T" + E4(t)) }
  function E2(t: DateTime): string { Pad(t.month, 2) + ("-" + E3(t)) }
  function E1(t: DateTime): string { Pad(t.year, 4) + ("-" + E2(t)) }

  lemma EncodeNested(t: DateTime)
    ensures Encode(t) == E1(t)
  {
  }

  /** One field of equal width, then a separator, then the rest. */
  lemma Level(pa: string, pb: string, sep: string, ra: string, rb: string)
    requires |pa| == |pb|
    requires Lexical.Less(pa, pb) || (pa == pb && Lexical.Less(ra, rb))
    ensures Lexical.Less(pa + (sep + ra), pb + (sep + rb))
  {
    if Lexical.Less(pa, pb) {
      Lexical.LessHeadDecides(pa, sep + ra, pb, sep + rb);
    } else {
      Lexical.LessSamePrefix(sep, ra, rb);
      Lexical.LessSamePrefix(pa, sep + ra, sep + rb);
    }
  }

  lemma L1(a: DateTime, b: DateTime)
    requires a.year < b.year || (a.year == b.year && Lexical.Less(E2(a), E2(b)))
    ensures Lexical.Less(E1(a), E1(b))
  {
    if a.year < b.year { PadOrder(a.year, b.year, 4); }
    Level(Pad(a.year, 4), Pad(b.year, 4), "-", E2(a), E2(b));
  }

  lemma L2(a: DateTime, b: DateTime)
    requires a.month < b.month || (a.month == b.month && Lexical.Less(E3(a), E3(b)))
    ensures Lexical.Less(E2(a), E2(b))
  {
    if a.month < b.month { PadOrder(a.month, b.month, 2); }
    Level(Pad(a.month, 2), Pad(b.month, 2), "-", E3(a), E3(b));
  }

  lemma L3(a: DateTime, b: DateTime)
    requires a.day < b.day || (a.day == b.day && Lexical.Less(E4(a), E4(b)))
    ensures Lexical.Less(E3(a), E3(b))
  {
    if a.day < b.day { PadOrder(a.day, b.day, 2); }
    Level(Pad(a.day, 2), Pad(b.day, 2), "T", E4(a), E4(b));
  }

  lemma L4(a: DateTime, b: DateTime)
    requires a.hour < b.hour || (a.hour == b.hour && Lexical.Less(E5(a), E5(b)))
    ensures Lexical.Less(E4(a), E4(b))
  {
    if a.hour < b.hour { PadOrder(a.hour, b.hour, 2); }
    Level(Pad(a.hour, 2), Pad(b.hour, 2), ":", E5(a), E5(b));
  }

  lemma L5(a: DateTime, b: DateTime)
    requires a.minute < b.minute || (a.minute == b.minute && Lexical.Less(E6(a), E6(b)))
    ensures Lexical.Less(E5(a), E5(b))
  {
    if a.minute < b.minute { PadOrder(a.minute, b.minute, 2); }
    Level(Pad(a.minute, 2), Pad(b.minute, 2), ":", E6(a), E6(b));
  }

  lemma L6(a: DateTime, b: DateTime)
    requires a.second < b.second || (a.second == b.second && Lexical.Less(Tail(a), Tail(b)))
    ensures Lexical.Less(E6(a), E6(b))
  {
    if a.second < b.second {
      PadOrder(a.second, b.second, 2);
      Lexical.LessHeadDecides(Pad(a.second, 2), Tail(a), Pad(b.second, 2), Tail(b));
    } else {
      Lexical.LessSamePrefix(Pad(a.second, 2), Tail(a), Tail(b));
    }
  }

  lemma OffsetTextSign(offset: Option<int>)
    ensures OffsetText(offset) == [] || OffsetText(offset)[0] == '+' || OffsetText(offset)[0] == '-'
  {
  }

  /** No fraction sorts before a fraction: the offset, when present, starts with
      a sign, and both signs sort before the `.` that opens a fraction. */
  lemma NoFractionFirst(o: string, digits: string)
    requires o == [] || o[0] == '+' || o[0] == '-'
    ensures Lexical.Less(o, "." + digits + o)
  {
  }

  lemma FractionOrder(u: nat, v: nat, o: string)
    requires 0 < u < v < 1000000
    ensures Lexical.Less(FractionText(u) + o, FractionText(v) + o)
  {
    var x, y := Pad(u, 6) + o, Pad(v, 6) + o;
    PadOrder(u, v, 6);
    Lexical.LessHeadDecides(Pad(u, 6), o, Pad(v, 6), o);
    Lexical.LessSamePrefix(".", x, y);
    DotFraction(u, o);
    DotFraction(v, o);
  }

  lemma DotFraction(u: nat, o: string)
    requires 0 < u < 1000000
    ensures FractionText(u) + o == "." + (Pad(u, 6) + o)
  {
  }

  lemma TailOrder(a: DateTime, b: DateTime)
    requires a.offset == b.offset && a.microsecond < b.microsecond
    ensures Lexical.Less(Tail(a), Tail(b))
  {
    var o := OffsetText(a.offset);
    if a.microsecond == 0 {
      OffsetTextSign(a.offset);
      NoFractionFirst(o, Pad(b.microsecond, 6));
      assert Tail(a) == o;
    } else {
      FractionOrder(a.microsecond, b.microsecond, o);
    }
  }

  lemma BeforeEncodesLess(a: DateTime, b: DateTime)
    requires a.offset == b.offset && Before(a, b)
    ensures Lexical.Less(Encode(a), Encode(b))
  {
    EncodeNested(a);
    EncodeNested(b);
    if a.year < b.year {
      L1(a, b);
    } else if a.month < b.month {
      L2(a, b); L1(a, b);
    } else if a.day < b.day {
      L3(a, b); L2(a, b); L1(a, b);
    } else if a.hour < b.hour {
      L4(a, b); L3(a, b); L2(a, b); L1(a, b);
    } else if a.minute < b.minute {
      L5(a, b); L4(a, b); L3(a, b); L2(a, b); L1(a, b);
    } else if a.second < b.second {
      L6(a, b); L5(a, b); L4(a, b); L3(a, b); L2(a, b); L1(a, b);
    } else {
      TailOrder(a, b);
      L6(a, b); L5(a, b); L4(a, b); L3(a, b); L2(a, b); L1(a, b);
    }
  }

  /** For datetimes with one and the same UTC offset (in the archive: `+00:00`),
      the string order an `ORDER BY` on the column uses is chronological order. */
  lemma {:induction false} EncodeOrder(a: DateTime, b: DateTime)
    requires a.offset == b.offset
    ensures Lexical.Less(Encode(a), Encode(b)) <==> Before(a, b)
  {
    if Before(a, b) {
      BeforeEncodesLess(a, b);
    } else if Before(b, a) {
      BeforeEncodesLess(b, a);
      Lexical.LessAsymmetric(Encode(b), Encode(a));
    } else {
      assert a == b;
      Lexical.LessIrreflexive(Encode(a));
    }
  }
}

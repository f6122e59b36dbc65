/** Database timestamps. Instants are numbers of seconds in a calendar with 31 days in every month, so that
    every date and time has its own number and the order of the numbers is the order in time. */
module Timestamps {
  import opened Text

  type Seconds = nat

  /** A field behind the year: how many values it takes, the least one, and the mark before it. */
  datatype FieldForm = Field(values: nat, least: nat, mark: string)

  type Field = f: FieldForm |
    (f.values == 12 || f.values == 24 || f.values == 31 || f.values == 60) && f.least <= 1 && '~' !in f.mark &&
      NUL !in f.mark && '#' !in f.mark
    witness Field(60, 0, ":")

  const FIELDS: seq<Field> :=
    [Field(12, 1, "-"), Field(31, 1, "-"), Field(24, 0, " "), Field(60, 0, ":"), Field(60, 0, ":")]

  function Digits2(n: nat): string {
    [DigitChar(n / 10 % 10), DigitChar(n % 10)]
  }

  function Years(n: nat): string {
    if n < 10000 then Digits2(n / 100) + Digits2(n % 100) else Decimal(n)
  }

  /** What is left of a number for the fields in front, and the field's own digits. */
  function Front(n: nat, f: Field): nat { n / f.values }

  function Own(n: nat, f: Field): (d: nat)
    ensures d < 100
  {
    n % f.values + f.least
  }

  /** The year and the fields that follow it. */
  function Render(n: nat, fields: seq<Field>): string {
    if fields == [] then Years(n)
    else
      var f := fields[|fields| - 1];
      Render(Front(n, f), fields[..|fields| - 1]) + f.mark + Digits2(Own(n, f))
  }

  /** The first number whose year has five digits. */
  function Limit(fields: seq<Field>): nat {
    if fields == [] then 10000 else Limit(fields[..|fields| - 1]) * fields[|fields| - 1].values
  }

  /** The text of an instant: year-month-day hours:minutes:seconds. */
  function Stamp(n: Seconds): string {
    Render(n, FIELDS)
  }

  predicate Before10000(n: Seconds) { n < Limit(FIELDS) }

  lemma {:induction false} LessInFront(a: string, b: string, p: string, q: string)
    requires |a| == |b| && Less(a, b)
    ensures Less(a + p, b + q)
  {
    if a[0] == b[0] {
      LessInFront(a[1..], b[1..], p, q);
      assert (a + p)[1..] == a[1..] + p && (b + q)[1..] == b[1..] + q;
    }
  }

  lemma {:induction false} LessBehind(a: string, p: string, q: string)
    requires Less(p, q)
    ensures Less(a + p, a + q)
  {
    if a == [] {
      assert a + p == p && a + q == q;
    } else {
      LessBehind(a[1..], p, q);
      assert (a + p)[1..] == a[1..] + p && (a + q)[1..] == a[1..] + q;
    }
  }

  lemma Digits2Order(m: nat, n: nat)
    requires m < n < 100
    ensures Less(Digits2(m), Digits2(n))
  {
    hide DigitChar, Less;
    Tens(m);
    Tens(n);
    DigitOrder(m / 10, n / 10);
    DigitOrder(m % 10, n % 10);
    PairOrder(DigitChar(m / 10), DigitChar(m % 10), DigitChar(n / 10), DigitChar(n % 10));
  }

  lemma Tens(n: nat)
    requires n < 100
    ensures n / 10 % 10 == n / 10 < 10 && n == 10 * (n / 10) + n % 10
  {
  }

  lemma PairOrder(a: char, b: char, c: char, d: char)
    requires a < c || (a == c && b < d)
    ensures Less([a, b], [c, d])
  {
    assert [a, b][1..] == [b] && [c, d][1..] == [d];
  }

  lemma DigitOrder(d: nat, e: nat)
    requires d < 10 && e < 10
    ensures DigitChar(d) < DigitChar(e) <==> d < e
  {
  }

  lemma YearsOrder(m: nat, n: nat)
    requires m < n < 10000
    ensures Less(Years(m), Years(n)) && |Years(m)| == |Years(n)|
  {
    assert m / 100 < n / 100 || (m / 100 == n / 100 && m % 100 < n % 100);
    if m / 100 < n / 100 {
      Digits2Order(m / 100, n / 100);
      LessInFront(Digits2(m / 100), Digits2(n / 100), Digits2(m % 100), Digits2(n % 100));
    } else {
      Digits2Order(m % 100, n % 100);
      LessBehind(Digits2(m / 100), Digits2(m % 100), Digits2(n % 100));
    }
  }

  lemma SplitOrder(m: nat, n: nat, f: Field, limit: nat)
    requires m < n < limit * f.values
    ensures Front(m, f) < Front(n, f) || (Front(m, f) == Front(n, f) && Own(m, f) < Own(n, f))
    ensures Front(n, f) < limit
  {
    if f.values == 12 {
    } else if f.values == 24 {
    } else if f.values == 31 {
    } else {
    }
  }

  /** One more field behind texts of equal length keeps the order. */
  lemma FieldOrder(a: string, b: string, mark: string, m: nat, n: nat)
    requires |a| == |b| && m < 100 && n < 100
    requires Less(a, b) || (a == b && m < n)
    ensures Less(a + mark + Digits2(m), b + mark + Digits2(n))
  {
    if Less(a, b) {
      LessInFront(a, b, mark + Digits2(m), mark + Digits2(n));
      Associative(a, mark, Digits2(m));
      Associative(b, mark, Digits2(n));
    } else {
      Digits2Order(m, n);
      LessBehind(a + mark, Digits2(m), Digits2(n));
    }
  }

  lemma {:induction false} RenderOrder(m: nat, n: nat, fields: seq<Field>)
    requires m < n < Limit(fields)
    ensures Less(Render(m, fields), Render(n, fields)) && |Render(m, fields)| == |Render(n, fields)|
    decreases |fields|
  {
    if fields == [] {
      YearsOrder(m, n);
    } else {
      var f, front := fields[|fields| - 1], fields[..|fields| - 1];
      SplitOrder(m, n, f, Limit(front));
      var a, b := Front(m, f), Front(n, f);
      if a < b {
        RenderOrder(a, b, front);
      }
      FieldOrder(Render(a, front), Render(b, front), f.mark, Own(m, f), Own(n, f));
    }
  }

  /** The order of the texts is the order in time. */
  lemma StampOrder(m: Seconds, n: Seconds)
    requires m < n && Before10000(n)
    ensures Less(Stamp(m), Stamp(n))
  {
    RenderOrder(m, n, FIELDS);
  }

  // Reading a text back

  /** The number two digits spell. */
  function Pair(a: char, b: char): int { 10 * (a as int - '0' as int) + (b as int - '0' as int) }

  lemma PairOfDigits(n: nat)
    requires n < 100
    ensures |Digits2(n)| == 2 && Pair(Digits2(n)[0], Digits2(n)[1]) == n
  {
    Tens(n);
    DigitKept(n / 10);
    DigitKept(n % 10);
  }

  lemma DigitKept(d: nat)
    requires d < 10
    ensures DigitChar(d) as int - '0' as int == d
  {
  }

  /** The year, month, day, hour, minute and second that a text shows. */
  function Parts(s: string): (int, int, int, int, int, int)
    requires |s| == 19
  {
    (100 * Pair(s[0], s[1]) + Pair(s[2], s[3]), Pair(s[5], s[6]), Pair(s[8], s[9]), Pair(s[11], s[12]),
        Pair(s[14], s[15]), Pair(s[17], s[18]))
  }

  lemma OneField(n: nat, fields: seq<Field>)
    requires fields != []
    ensures var f, front := fields[|fields| - 1], fields[..|fields| - 1];
            Render(n, fields) == Render(Front(n, f), front) + f.mark + Digits2(Own(n, f))
  {
    hide Front, Own, Digits2, Years;
  }

  lemma YearText(n: nat)
    requires n < 10000
    ensures var y := Years(n); |y| == 4 && 100 * Pair(y[0], y[1]) + Pair(y[2], y[3]) == n
  {
    PairOfDigits(n / 100);
    PairOfDigits(n % 100);
  }

  lemma ClockText(n: nat, a: string)
    ensures var h, m, s := n / 3600 % 24, n / 60 % 60, n % 60;
            var t := a + " " + Digits2(h) + ":" + Digits2(m) + ":" + Digits2(s);
            && |t| == |a| + 9 && t[..|a|] == a && t[|a|] == ' ' && t[|a| + 3] == ':' && t[|a| + 6] == ':'
            && Pair(t[|a| + 1], t[|a| + 2]) == h && Pair(t[|a| + 4], t[|a| + 5]) == m
            && Pair(t[|a| + 7], t[|a| + 8]) == s
  {
    hide Digits2, Pair;
    PairOfDigits(n / 3600 % 24);
    PairOfDigits(n / 60 % 60);
    PairOfDigits(n % 60);
  }

  lemma DateText(d: nat)
    requires d < 10000 * 12 * 31
    ensures var t := Render(d, FIELDS[..2]);
            && |t| == 10 && t[4] == '-' && t[7] == '-'
            && 100 * Pair(t[0], t[1]) + Pair(t[2], t[3]) == d / 372 && Pair(t[5], t[6]) == d / 31 % 12 + 1
            && Pair(t[8], t[9]) == d % 31 + 1
  {
    hide Digits2, Pair, Years, Render;
    OneField(d, FIELDS[..2]);
    assert FIELDS[..2][..1] == FIELDS[..1];
    OneField(d / 31, FIELDS[..1]);
    assert FIELDS[..1][..0] == [];
    NoFields(d / 31 / 12);
    assert d / 31 / 12 == d / 372;
    YearText(d / 372);
    PairOfDigits(d / 31 % 12 + 1);
    PairOfDigits(d % 31 + 1);
  }

  lemma NoFields(n: nat)
    ensures Render(n, []) == Years(n)
  {
  }

  lemma SecondsText(n: nat)
    ensures Render(n, FIELDS) == Render(n / 60, FIELDS[..4]) + ":" + Digits2(n % 60)
  {
    hide Digits2, Render;
    OneField(n, FIELDS);
  }

  lemma MinutesText(n: nat)
    ensures Render(n, FIELDS[..4]) == Render(n / 60, FIELDS[..3]) + ":" + Digits2(n % 60)
  {
    hide Digits2, Render;
    assert FIELDS[..4][..3] == FIELDS[..3];
    OneField(n, FIELDS[..4]);
  }

  lemma HoursText(n: nat)
    ensures Render(n, FIELDS[..3]) == Render(n / 24, FIELDS[..2]) + " " + Digits2(n % 24)
  {
    hide Digits2, Render;
    assert FIELDS[..3][..2] == FIELDS[..2];
    OneField(n, FIELDS[..3]);
  }

  lemma StampText(n: Seconds)
    ensures Stamp(n) == Render(n / 86400, FIELDS[..2]) + " " + Digits2(n / 3600 % 24) + ":" + Digits2(n / 60 % 60) +
                          ":" + Digits2(n % 60)
  {
    hide Digits2, Render;
    SecondsText(n);
    MinutesText(n / 60);
    HoursText(n / 60 / 60);
    Quotients(n);
  }

  lemma MixedRadix(n: nat)
    ensures var d := n / 86400;
            n == ((((d / 372 * 12 + d / 31 % 12) * 31 + d % 31) * 24 + n / 3600 % 24) * 60 + n / 60 % 60) * 60 + n % 60
  {
    Quotients(n);
    var h, d := n / 3600, n / 86400;
    assert n == 60 * (n / 60) + n % 60 && n / 60 == 60 * (n / 60 / 60) + n / 60 % 60;
    assert h == 24 * (h / 24) + h % 24 && d == 31 * (d / 31) + d % 31;
    assert d / 31 == 12 * (d / 31 / 12) + d / 31 % 12 && d / 31 / 12 == d / 372;
  }

  lemma LimitIs()
    ensures Limit(FIELDS) == 10000 * 12 * 31 * 24 * 60 * 60
  {
    assert FIELDS[..4][..3] == FIELDS[..3] && FIELDS[..3][..2] == FIELDS[..2] && FIELDS[..2][..1] == FIELDS[..1];
    assert Limit(FIELDS[..1][..0]) == 10000;
    assert Limit(FIELDS[..1]) == 10000 * 12;
    assert Limit(FIELDS[..2]) == 10000 * 12 * 31;
    assert Limit(FIELDS[..3]) == 10000 * 12 * 31 * 24;
    assert Limit(FIELDS[..4]) == 10000 * 12 * 31 * 24 * 60;
  }

  lemma Quotients(n: nat)
    ensures n / 60 / 60 == n / 3600 && n / 60 / 60 / 24 == n / 86400
  {
  }

  /** Main result: before the year 10000 the text has the form year-month-day hours:minutes:seconds, and the numbers it
      shows, with months and days counted from one, are those of the instant. */
  lemma StampReadsBack(n: Seconds)
    requires Before10000(n)
    ensures var t := Stamp(n);
            && |t| == 19 && t[4] == t[7] == '-' && t[10] == ' ' && t[13] == t[16] == ':'
            && var (year, month, day, hour, minute, second) := Parts(t);
               && 1 <= month <= 12 && 1 <= day <= 31 && 0 <= hour < 24 && 0 <= minute < 60 && 0 <= second < 60
               && n == ((((year * 12 + month - 1) * 31 + day - 1) * 24 + hour) * 60 + minute) * 60 + second
  {
    hide Digits2, Pair, Years, Render;
    hide Limit, Stamp;
    LimitIs();
    MixedRadix(n);
    assert n / 86400 < 10000 * 12 * 31;
    StampText(n);
    DateText(n / 86400);
    ClockText(n, Render(n / 86400, FIELDS[..2]));
  }

  lemma {:induction false} RenderIsPlain(n: nat, fields: seq<Field>)
    ensures '~' !in Render(n, fields) && NUL !in Render(n, fields) && '#' !in Render(n, fields)
    decreases |fields|
  {
    if fields == [] {
      DecimalChars(n);
    } else {
      var f := fields[|fields| - 1];
      RenderIsPlain(Front(n, f), fields[..|fields| - 1]);
    }
  }

  lemma StampIsPlain(n: Seconds)
    ensures '~' !in Stamp(n) && NUL !in Stamp(n) && '#' !in Stamp(n)
  {
    RenderIsPlain(n, FIELDS);
  }
}

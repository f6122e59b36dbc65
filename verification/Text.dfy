/** Character strings as the C and C++ libraries treat them. */
module Text {
  const NUL := '\0'

  datatype Option<+T> = None | Some(value: T)

  /** The first position from i on that holds the character, or the length where there is none. */
  function FindFrom(s: string, c: char, i: nat): (pos: nat)
    requires i <= |s|
    ensures i <= pos <= |s|
    decreases |s| - i
  {
    if i == |s| || s[i] == c then i else FindFrom(s, c, i + 1)
  }

  /** std::string::find for one character. The length of the string stands for npos. */
  function Find(s: string, c: char): (pos: nat)
    ensures pos <= |s|
  {
    FindFrom(s, c, 0)
  }

  predicate Has(s: string, c: char) { Find(s, c) < |s| }

  lemma {:induction false} FindFromIsFirst(s: string, c: char, i: nat)
    requires i <= |s|
    ensures var pos := FindFrom(s, c, i);
            (pos < |s| ==> s[pos] == c) && forall k :: i <= k < pos ==> s[k] != c
    decreases |s| - i
  {
    if i < |s| && s[i] != c {
      FindFromIsFirst(s, c, i + 1);
    }
  }

  lemma FindIsFirst(s: string, c: char)
    ensures Has(s, c) <==> c in s
    ensures Has(s, c) ==> s[Find(s, c)] == c
    ensures c !in s[..Find(s, c)]
  {
    FindFromIsFirst(s, c, 0);
  }

  lemma FindInConcat(a: string, c: char, b: string)
    requires c !in a
    ensures Find(a + [c] + b, c) == |a|
  {
    var s := a + [c] + b;
    FindFromIsFirst(s, c, 0);
    assert s[|a|] == c;
    assert forall i :: 0 <= i < |a| ==> s[i] == a[i];
  }

  /** Past a text without the character, the search goes on in the rest. */
  lemma FindPast(a: string, b: string, c: char)
    requires c !in a
    ensures Find(a + b, c) == |a| + Find(b, c)
  {
    FindFromIsFirst(a + b, c, 0);
    FindFromIsFirst(b, c, 0);
    var q := Find(b, c);
    assert forall i :: 0 <= i < |a| ==> (a + b)[i] == a[i];
    assert forall i :: 0 <= i < |b| ==> (a + b)[|a| + i] == b[i];
    assert q < |b| ==> (a + b)[|a| + q] == b[q];
  }

  lemma Associative<T>(a: seq<T>, b: seq<T>, c: seq<T>)
    ensures a + (b + c) == (a + b) + c
  {
  }

  lemma ConsAppend<T>(s: seq<T>, rest: seq<T>)
    requires s != []
    ensures [s[0]] + (s[1..] + rest) == s + rest
  {
  }

  /** What a reader of a NUL-terminated buffer sees of a string copied into it. */
  function CStr(s: string): (t: string)
    ensures NUL !in t
    ensures NUL !in s ==> t == s
  {
    FindIsFirst(s, NUL);
    s[..Find(s, NUL)]
  }

  lemma CStrTerminated(s: string, rest: string)
    requires NUL !in s
    ensures CStr(s + [NUL] + rest) == s
  {
    FindInConcat(s, NUL, rest);
  }

  lemma CStrPast(a: string, b: string)
    requires NUL !in a
    ensures CStr(a + b) == a + CStr(b)
  {
    FindPast(a, b, NUL);
  }

  /** std::string's operator<, the order of std::map keys. */
  predicate Less(a: string, b: string) {
    if b == [] then false
    else if a == [] then true
    else a[0] < b[0] || (a[0] == b[0] && Less(a[1..], b[1..]))
  }

  lemma {:induction false} LessIrreflexive(a: string)
    ensures !Less(a, a)
  {
    if a != [] {
      LessIrreflexive(a[1..]);
    }
  }

  lemma {:induction false} LessTransitive(a: string, b: string, c: string)
    requires Less(a, b) && Less(b, c)
    ensures Less(a, c)
  {
    if a != [] && a[0] == b[0] == c[0] {
      LessTransitive(a[1..], b[1..], c[1..]);
    }
  }

  lemma {:induction false} LessTotal(a: string, b: string)
    ensures Less(a, b) || a == b || Less(b, a)
  {
    if a != [] && b != [] && a[0] == b[0] {
      LessTotal(a[1..], b[1..]);
      assert a == [a[0]] + a[1..] && b == [b[0]] + b[1..];
    }
  }

  // Numerals.

  const DIGITS := "0123456789ABCDEF"

  /** The value of a digit character, in either case; 16 for other characters. */
  function DigitValue(c: char): (d: nat)
    ensures d <= 16
  {
    if '0' <= c <= '9' then c as int - '0' as int
    else if 'A' <= c <= 'F' then c as int - 'A' as int + 10
    else if 'a' <= c <= 'f' then c as int - 'a' as int + 10
    else 16
  }

  predicate IsNumeral(s: string, base: nat) {
    forall i :: 0 <= i < |s| ==> DigitValue(s[i]) < base
  }

  type Base = b: nat | b == 10 || b == 16 witness 10

  function DigitChar(d: nat): (c: char)
    requires d < 16
    ensures DigitValue(c) == d && ('0' <= c <= '9' || 'A' <= c <= 'F')
  {
    DIGITS[d]
  }

  /** The number without its last digit. */
  function Head(n: nat, base: Base): (h: nat)
    ensures n >= base ==> h < n
  {
    if base == 10 then n / 10 else n / 16
  }

  function Last(n: nat, base: Base): (d: nat)
    ensures d < base && n == Head(n, base) * base + d
  {
    if base == 10 then n % 10 else n % 16
  }

  /** Digits without leading zeros, upper-case above nine. */
  function Numeral(n: nat, base: Base): (s: string)
    ensures s != []
    decreases n
  {
    if n < base then [DigitChar(n)] else Numeral(Head(n, base), base) + [DigitChar(Last(n, base))]
  }

  predicate HexDigit(c: char) { '0' <= c <= '9' || 'A' <= c <= 'F' }

  lemma {:induction false} NumeralChars(n: nat, base: Base)
    ensures IsNumeral(Numeral(n, base), base)
    ensures forall i :: 0 <= i < |Numeral(n, base)| ==> HexDigit(Numeral(n, base)[i])
    decreases n
  {
    if n >= base {
      NumeralChars(Head(n, base), base);
    }
  }

  function NumeralValue(s: string, base: Base): nat
    requires IsNumeral(s, base)
  {
    if s == [] then 0
    else NumeralValue(s[..|s| - 1], base) * base + DigitValue(s[|s| - 1])
  }

  lemma {:induction false} NumeralRoundTrip(n: nat, base: Base)
    ensures IsNumeral(Numeral(n, base), base) && NumeralValue(Numeral(n, base), base) == n
    decreases n
  {
    NumeralChars(n, base);
    var s := Numeral(n, base);
    if n < base {
      assert s[..0] == "";
    } else {
      NumeralRoundTrip(Head(n, base), base);
      assert s[..|s| - 1] == Numeral(Head(n, base), base);
    }
  }

  function Power16(k: nat): nat {
    if k == 0 then 1 else 16 * Power16(k - 1)
  }

  lemma {:induction false} HexLength(n: nat, k: nat)
    requires k >= 1 && n < Power16(k)
    ensures |Numeral(n, 16)| <= k
  {
    if n >= 16 {
      assert k > 1 by {
        assert Power16(1) == 16 * Power16(0);
      }
      HexLength(n / 16, k - 1);
    }
  }

  function Decimal(n: nat): (s: string)
    ensures s != []
  {
    Numeral(n, 10)
  }

  predicate IsDecimal(s: string) {
    forall i :: 0 <= i < |s| ==> '0' <= s[i] <= '9'
  }

  lemma DecimalChars(n: nat)
    ensures IsDecimal(Decimal(n)) && IsNumeral(Decimal(n), 10)
  {
    NumeralChars(n, 10);
    var s := Decimal(n);
    forall i | 0 <= i < |s| ensures '0' <= s[i] <= '9' {
      assert DigitValue(s[i]) < 10 && HexDigit(s[i]);
    }
  }

  /** The number a text stands for where SQL expects an integer; other texts make the statement fail. */
  function ParseId(s: string): Option<nat> {
    if s != [] && IsDecimal(s) then Some(NumeralValue(s, 10)) else None
  }

  lemma ParseDecimal(n: nat)
    ensures ParseId(Decimal(n)) == Some(n)
  {
    DecimalChars(n);
    NumeralRoundTrip(n, 10);
  }

  lemma DecimalInjective(m: nat, n: nat)
    requires Decimal(m) == Decimal(n)
    ensures m == n
  {
    ParseDecimal(m);
    ParseDecimal(n);
  }

  /** The length of the longest prefix of digits. */
  function DigitRun(s: string, base: nat): (k: nat)
    ensures k <= |s| && IsNumeral(s[..k], base)
    ensures k < |s| ==> DigitValue(s[k]) >= base
  {
    if s == [] || DigitValue(s[0]) >= base then 0
    else
      var k := DigitRun(s[1..], base) + 1;
      assert s[..k] == [s[0]] + s[1..][..k - 1];
      k
  }

  lemma {:induction false} DigitRunStops(s: string, base: nat, rest: string)
    requires IsNumeral(s, base) && (rest == [] || DigitValue(rest[0]) >= base)
    ensures DigitRun(s + rest, base) == |s|
  {
    if s == [] {
      assert s + rest == rest;
    } else {
      assert (s + rest)[1..] == s[1..] + rest;
      DigitRunStops(s[1..], base, rest);
    }
  }

  predicate IsSpace(c: char) { c == ' ' || '\t' <= c <= '\r' }

  function SkipSpace(s: string): string {
    if s != [] && IsSpace(s[0]) then SkipSpace(s[1..]) else s
  }

  /** An optional sign; the first component is true for a minus. */
  function SkipSign(s: string): (bool, string) {
    if s != [] && s[0] == '-' then (true, s[1..])
    else if s != [] && s[0] == '+' then (false, s[1..])
    else (false, s)
  }

  const ULONG_MAX := 0xFFFF_FFFF_FFFF_FFFF
  const LONG_MAX := 0x7FFF_FFFF_FFFF_FFFF

  /** The optional 0x of a base 16 number. */
  function SkipHexPrefix(t: string): string {
    if |t| > 2 && t[0] == '0' && (t[1] == 'x' || t[1] == 'X') && DigitValue(t[2]) < 16 then t[2..] else t
  }

  /** The number spelled by the longest prefix of digits. */
  function PrefixValue(s: string, base: Base): nat {
    NumeralValue(s[..DigitRun(s, base)], base)
  }

  lemma PrefixValueOfNumeral(s: string, base: Base, rest: string)
    requires IsNumeral(s, base) && (rest == [] || DigitValue(rest[0]) >= base)
    ensures PrefixValue(s + rest, base) == NumeralValue(s, base)
  {
    DigitRunStops(s, base, rest);
    assert (s + rest)[..|s|] == s;
  }

  /** strtoul in base 16, on a 64-bit platform. */
  function Strtoul16(s: string): (v: nat)
    ensures v <= ULONG_MAX
  {
    var (minus, t) := SkipSign(SkipSpace(s));
    var v := PrefixValue(SkipHexPrefix(t), 16);
    if v > ULONG_MAX then ULONG_MAX
    else if minus && v > 0 then ULONG_MAX + 1 - v
    else v
  }

  lemma Strtoul16OfDigits(s: string)
    requires s != [] && IsNumeral(s, 16) && !IsSpace(s[0]) && s[0] != '-' && s[0] != '+'
    requires SkipHexPrefix(s) == s && NumeralValue(s, 16) <= ULONG_MAX
    ensures Strtoul16(s) == NumeralValue(s, 16)
  {
    assert SkipSign(SkipSpace(s)) == (false, s);
    PrefixValueOfNumeral(s, 16, "");
    assert s + "" == s;
  }

  datatype Number = Value(number: int) | Invalid | OutOfRange

  /** std::stol; its two exceptions are the other two outcomes. */
  function Stol(s: string): Number {
    var (minus, t) := SkipSign(SkipSpace(s));
    if DigitRun(t, 10) == 0 then Invalid
    else
      var v := PrefixValue(t, 10);
      if minus then if v > LONG_MAX + 1 then OutOfRange else Value(0 - v)
      else if v > LONG_MAX then OutOfRange else Value(v)
  }

  predicate Blank(s: string) { forall i :: 0 <= i < |s| ==> IsSpace(s[i]) }

  lemma {:induction false} SkipBlank(sp: string, t: string)
    requires Blank(sp) && (t == [] || !IsSpace(t[0]))
    ensures SkipSpace(sp + t) == t
  {
    if sp == [] {
      assert sp + t == t;
    } else {
      assert (sp + t)[1..] == sp[1..] + t;
      SkipBlank(sp[1..], t);
    }
  }

  /** Blanks, a sign or none, and digits up to something else are the number they spell, if it fits a long. */
  lemma StolReads(sp: string, sign: string, d: string, rest: string)
    requires Blank(sp) && (sign == "" || sign == "-" || sign == "+") && d != "" && IsDecimal(d)
    requires rest == [] || DigitValue(rest[0]) >= 10
    ensures IsNumeral(d, 10)
    ensures var v := if sign == "-" then 0 - NumeralValue(d, 10) else NumeralValue(d, 10);
            Stol(sp + (sign + (d + rest))) == if -(LONG_MAX + 1) <= v <= LONG_MAX then Value(v) else OutOfRange
  {
    assert IsNumeral(d, 10);
    var t := d + rest;
    assert t[0] == d[0] && '0' <= d[0] <= '9';
    assert (sign + t)[|sign|..] == t;
    assert sign == "" ==> sign + t == t;
    SkipBlank(sp, sign + t);
    assert SkipSign(sign + t) == (sign == "-", t);
    DigitRunStops(d, 10, rest);
    PrefixValueOfNumeral(d, 10, rest);
    hide SkipSpace, SkipSign, DigitRun, PrefixValue, DigitValue, NumeralValue;
  }

  lemma PrefixSkipped(prefix: string, t: string)
    requires t != "" && DigitValue(t[0]) < 16
    requires prefix == "0x" || prefix == "0X" || (prefix == "" && SkipHexPrefix(t) == t)
    ensures SkipHexPrefix(prefix + t) == t
  {
    assert prefix == "" ==> prefix + t == t;
    assert (prefix + t)[|prefix|..] == t;
  }

  lemma SignSkipped(sign: string, u: string)
    requires sign == "-" || sign == "+" || (sign == "" && u != "" && u[0] != '-' && u[0] != '+')
    ensures SkipSign(sign + u) == (sign == "-", u)
  {
    assert sign == "" ==> sign + u == u;
    assert (sign + u)[|sign|..] == u;
  }

  /** The same for strtoul in base 16, with an optional 0x: a number that is too large becomes the largest one, and a
      minus negates modulo its successor. */
  lemma Strtoul16Reads(sp: string, sign: string, prefix: string, d: string, rest: string)
    requires Blank(sp) && (sign == "" || sign == "-" || sign == "+") && d != "" && IsNumeral(d, 16)
    requires prefix == "0x" || prefix == "0X" || (prefix == "" && SkipHexPrefix(d + rest) == d + rest)
    requires rest == [] || DigitValue(rest[0]) >= 16
    ensures var v := NumeralValue(d, 16);
            Strtoul16(sp + (sign + (prefix + (d + rest)))) ==
                if v > ULONG_MAX then ULONG_MAX else if sign == "-" && v > 0 then ULONG_MAX + 1 - v else v
  {
    hide SkipSpace, SkipSign, PrefixValue, NumeralValue, SkipHexPrefix;
    var t := d + rest;
    var u := prefix + t;
    assert t[0] == d[0] && DigitValue(d[0]) < 16;
    assert u[0] == (if prefix == "" then d[0] else '0');
    assert !IsSpace(u[0]) && u[0] != '-' && u[0] != '+';
    assert sign == "" ==> sign + u == u;
    SkipBlank(sp, sign + u);
    SignSkipped(sign, u);
    PrefixSkipped(prefix, t);
    PrefixValueOfNumeral(d, 16, rest);
  }

  /** Letters are digits in either case. */
  lemma HexLetters(k: nat)
    requires k < 6
    ensures DigitValue('A' + k as char) == DigitValue('a' + k as char) == 10 + k
  {
  }

  lemma {:induction false} BlankFront(s: string) returns (sp: string)
    ensures s == sp + SkipSpace(s) && Blank(sp) && (SkipSpace(s) == [] || !IsSpace(SkipSpace(s)[0]))
  {
    if s != [] && IsSpace(s[0]) {
      sp := BlankFront(s[1..]);
      sp := [s[0]] + sp;
    } else {
      sp := "";
    }
  }

  /** The sign that is skipped. */
  function SignOf(s: string): (sign: string)
    ensures |sign| <= |s| && s == sign + SkipSign(s).1
  {
    if s != [] && (s[0] == '-' || s[0] == '+') then [s[0]] else ""
  }

  lemma StolHasDigits(s: string)
    requires !Stol(s).Invalid?
    ensures DigitRun(SkipSign(SkipSpace(s)).1, 10) > 0
  {
    hide SkipSpace, SkipSign, DigitRun, PrefixValue;
  }

  /** Every other text is no number. */
  lemma StolNeeds(s: string) returns (sp: string, sign: string, d: string, rest: string)
    requires !Stol(s).Invalid?
    ensures Blank(sp) && (sign == "" || sign == "-" || sign == "+") && d != "" && IsNumeral(d, 10)
    ensures s == sp + (sign + (d + rest)) && (rest == [] || DigitValue(rest[0]) >= 10)
  {
    StolHasDigits(s);
    hide Stol, SkipSpace, SkipSign, DigitRun, DigitValue, Blank, IsNumeral;
    sp := BlankFront(s);
    sign := SignOf(SkipSpace(s));
    var t := SkipSign(SkipSpace(s)).1;
    d, rest := t[..DigitRun(t, 10)], t[DigitRun(t, 10)..];
    assert t == d + rest;
  }

  lemma StolDecimal(n: nat, rest: string)
    requires rest == [] || DigitValue(rest[0]) >= 10
    ensures Stol(Decimal(n) + rest) == if n > LONG_MAX then OutOfRange else Value(n)
  {
    var d := Decimal(n);
    var s := d + rest;
    DecimalChars(n);
    assert '0' <= s[0] <= '9';
    assert SkipSpace(s) == s && SkipSign(s) == (false, s);
    DigitRunStops(d, 10, rest);
    PrefixValueOfNumeral(d, 10, rest);
    NumeralRoundTrip(n, 10);
  }

  lemma {:induction false} SkipSpaceStops(a: string, rest: string)
    requires rest == [] || !IsSpace(rest[0])
    ensures SkipSpace(a + rest) == SkipSpace(a) + rest
  {
    if a == [] {
      assert a + rest == rest;
    } else if IsSpace(a[0]) {
      assert (a + rest)[1..] == a[1..] + rest;
      SkipSpaceStops(a[1..], rest);
    }
  }

  lemma {:induction false} DigitRunIgnores(t: string, rest: string)
    requires rest == [] || DigitValue(rest[0]) >= 10
    ensures DigitRun(t + rest, 10) == DigitRun(t, 10)
  {
    if t == [] {
      assert t + rest == rest;
    } else if DigitValue(t[0]) < 10 {
      assert (t + rest)[1..] == t[1..] + rest;
      DigitRunIgnores(t[1..], rest);
    }
  }

  lemma SkipSignStops(b: string, rest: string)
    requires rest == [] || (rest[0] != '-' && rest[0] != '+')
    ensures SkipSign(b + rest) == (SkipSign(b).0, SkipSign(b).1 + rest)
  {
    if b == [] {
      assert b + rest == rest && "" + rest == rest;
    } else {
      assert (b + rest)[1..] == b[1..] + rest;
    }
  }

  lemma PrefixValueStops(t: string, rest: string)
    requires rest == [] || DigitValue(rest[0]) >= 10
    ensures PrefixValue(t + rest, 10) == PrefixValue(t, 10)
  {
    DigitRunIgnores(t, rest);
    assert (t + rest)[..DigitRun(t, 10)] == t[..DigitRun(t, 10)];
  }

  /** What stands behind a character that can be no part of a number does not matter. */
  lemma StolStops(a: string, rest: string)
    requires rest == [] || rest[0] == '#' || rest[0] == '|'
    ensures Stol(a + rest) == Stol(a)
  {
    SkipSpaceStops(a, rest);
    SkipSignStops(SkipSpace(a), rest);
    DigitRunIgnores(SkipSign(SkipSpace(a)).1, rest);
    PrefixValueStops(SkipSign(SkipSpace(a)).1, rest);
    hide SkipSpace, SkipSign, DigitRun, PrefixValue, DigitValue;
  }
}

/** The `YYYY-MM-DD` key of a calendar day (getDateString).

    The key is the year as JavaScript prints a number, a dash, the month
    1..12 and a dash, and the day of the month; month and day are padded
    with a leading zero below 10.  Events are looked up by this key, so the
    module proves that the key identifies the calendar day: it is parsed
    back by ParseDateKey.
 */
module DateKey {
  import opened CivilDate

  predicate IsDigit(c: char) {
    '0' <= c <= '9'
  }

  predicate AllDigits(s: string) {
    forall i :: 0 <= i < |s| ==> IsDigit(s[i])
  }

  function DigitChar(n: int): (c: char)
    requires 0 <= n < 10
    ensures IsDigit(c)
  {
    ('0' as int + n) as char
  }

  function DigitValue(c: char): int
    requires IsDigit(c)
  {
    c as int - '0' as int
  }

  /** Decimal digits of n, most significant first, no leading zero. */
  function NatToString(n: nat): (s: string)
    ensures 1 <= |s| && AllDigits(s)
    decreases n
  {
    if n < 10 then [DigitChar(n)] else NatToString(n / 10) + [DigitChar(n % 10)]
  }

  /** Value of a string of decimal digits. */
  function ParseDigits(s: string): nat
    requires AllDigits(s)
    decreases |s|
  {
    if s == [] then 0 else ParseDigits(s[..|s| - 1]) * 10 + DigitValue(s[|s| - 1])
  }

  /** How JavaScript prints an integral number. */
  function IntToString(n: int): string {
    if n < 0 then "-" + NatToString(-n) else NatToString(n)
  }

  predicate IsNumeral(s: string) {
    (1 <= |s| && AllDigits(s)) || (2 <= |s| && s[0] == '-' && AllDigits(s[1..]))
  }

  function ParseInt(s: string): int
    requires IsNumeral(s)
  {
    if s[0] == '-' then -(ParseDigits(s[1..]) as int) else ParseDigits(s)
  }

  /** The local `pad` of getDateString. */
  function Pad(n: int): (r: string)
    ensures 0 <= n < 100 ==> |r| == 2 && AllDigits(r)
  {
    if n < 10 then "0" + IntToString(n)
    else
      assert n < 100 ==> NatToString(n) == NatToString(n / 10) + [DigitChar(n % 10)] && |NatToString(n / 10)| == 1;
      IntToString(n)
  }

  /** getDateString: the event key of a day. */
  function DateString(d: Date): (s: string)
    ensures ValidDate(d) ==>
      && |s| == |IntToString(d.year)| + 6
      && s[..|s| - 6] == IntToString(d.year) && s[|s| - 6] == '-' && s[|s| - 3] == '-'
      && AllDigits(s[|s| - 5..|s| - 3]) && AllDigits(s[|s| - 2..])
  {
    IntToString(d.year) + "-" + Pad(d.month + 1) + "-" + Pad(d.day)
  }

  /** Reads a key back: the last six characters hold "-MM-DD", everything
      before them is the year. */
  function ParseDateKey(s: string): Option<Date> {
    if |s| < 7 || s[|s| - 6] != '-' || s[|s| - 3] != '-' then None
    else
      var y, mm, dd := s[..|s| - 6], s[|s| - 5..|s| - 3], s[|s| - 2..];
      if IsNumeral(y) && AllDigits(mm) && AllDigits(dd) then
        Some(Date(ParseInt(y), ParseDigits(mm) - 1, ParseDigits(dd)))
      else None
  }

  // ---------------------------------------------------------------------

  lemma {:induction false} ParseNatToString(n: nat)
    ensures ParseDigits(NatToString(n)) == n
    decreases n
  {
    if n >= 10 {
      var s := NatToString(n);
      assert s[..|s| - 1] == NatToString(n / 10);
      ParseNatToString(n / 10);
    }
  }

  lemma ParseIntToString(n: int)
    ensures IsNumeral(IntToString(n)) && ParseInt(IntToString(n)) == n
  {
    if n < 0 {
      assert IntToString(n)[1..] == NatToString(-n);
      ParseNatToString(-n);
    } else {
      ParseNatToString(n);
    }
  }

  /** Month 1..12 and day 1..31 are printed as exactly two digits. */
  lemma PadTwoDigits(n: int)
    requires 1 <= n <= 99
    ensures |Pad(n)| == 2 && AllDigits(Pad(n)) && ParseDigits(Pad(n)) == n
  {
    if n < 10 {
      var p := Pad(n);
      assert p == ['0', DigitChar(n)];
      assert p[..1] == ['0'] && p[..1][..0] == [];
      assert ParseDigits(p[..1]) == 0;
      assert ParseDigits(p) == n;
    } else {
      var p := Pad(n);
      assert NatToString(n / 10) == [DigitChar(n / 10)];
      assert p == [DigitChar(n / 10), DigitChar(n % 10)];
      assert p[..1] == [DigitChar(n / 10)] && p[..1][..0] == [];
      assert ParseDigits(p[..1]) == n / 10;
      assert ParseDigits(p) == (n / 10) * 10 + n % 10;
    }
  }

  /** The key of a valid date parses back to that date. */
  lemma DateKeyRoundTrip(d: Date)
    requires ValidDate(d)
    ensures ParseDateKey(DateString(d)) == Some(d)
  {
    hide IsLeapYear;
    hide Pad;
    hide IntToString;
    hide NatToString;
    hide ParseDigits;
    var y, mm, dd := IntToString(d.year), Pad(d.month + 1), Pad(d.day);
    PadTwoDigits(d.month + 1);
    PadTwoDigits(d.day);
    ParseIntToString(d.year);
    var s := DateString(d);
    assert s == y + "-" + mm + "-" + dd;
    assert |s| == |y| + 6;
    assert s[..|s| - 6] == y;
    assert s[|s| - 5..|s| - 3] == mm;
    assert s[|s| - 2..] == dd;
  }

  /** Two days have the same key exactly when they are the same calendar day. */
  lemma DateKeyInjective(a: Date, b: Date)
    requires ValidDate(a) && ValidDate(b)
    ensures DateString(a) == DateString(b) <==> a == b
  {
    DateKeyRoundTrip(a);
    DateKeyRoundTrip(b);
  }

  lemma FourDigitYear(n: int)
    requires 1000 <= n <= 9999
    ensures |IntToString(n)| == 4
  {
    assert |NatToString(n / 1000)| == 1;
    assert |NatToString(n / 100)| == |NatToString(n / 100 / 10)| + 1 && n / 100 / 10 == n / 1000;
    assert |NatToString(n / 10)| == |NatToString(n / 10 / 10)| + 1 && n / 10 / 10 == n / 100;
    assert |NatToString(n)| == |NatToString(n / 10)| + 1;
  }

  /** For years 1000..9999 the key is the ten characters YYYY-MM-DD. */
  lemma DateKeyShape(d: Date)
    requires ValidDate(d) && 1000 <= d.year <= 9999
    ensures var s := DateString(d);
      |s| == 10 && s[4] == '-' && s[7] == '-' &&
      AllDigits(s[..4]) && AllDigits(s[5..7]) && AllDigits(s[8..])
  {
    FourDigitYear(d.year);
    PadTwoDigits(d.month + 1);
    PadTwoDigits(d.day);
    var s := DateString(d);
    assert s[..4] == IntToString(d.year);
    assert s[5..7] == Pad(d.month + 1);
    assert s[8..] == Pad(d.day);
  }
}

/** The date key `getFormattedDate` builds: the year as `Number.toString`
    writes it, then `-`, the 1-based month and the day, each zero-padded to two
    digits. The key is the only link between grid cells, the selection
    highlight and the note buckets. */
module DateKey {
  import opened Gregorian
  import opened Wrappers

  predicate IsDigit(c: char) {
    '0' <= c <= '9'
  }

  predicate AllDigits(s: string) {
    forall i :: 0 <= i < |s| ==> IsDigit(s[i])
  }

  function DigitChar(v: int): (c: char)
    requires 0 <= v < 10
    ensures IsDigit(c) && DigitValue(c) == v
  {
    ('0' as int + v) as char
  }

  function DigitValue(c: char): int
    requires IsDigit(c)
  {
    c as int - '0' as int
  }

  /** Decimal digits of `n`, most significant first, without leading zeros. */
  function NatToString(n: nat): (s: string)
    ensures |s| >= 1 && AllDigits(s)
    ensures n >= 10 ==> s[0] != '0'
  {
    if n < 10 then [DigitChar(n)] else NatToString(n / 10) + [DigitChar(n % 10)]
  }

  /** `Number.prototype.toString()` of an integral number. */
  function IntToString(i: int): (s: string)
    ensures |s| >= 1
  {
    if i < 0 then "-" + NatToString(-i) else NatToString(i)
  }

  /** `String.prototype.padStart(width, fill)` with a one-character fill. */
  function PadStart(s: string, width: nat, fill: char): (r: string)
    ensures |r| == if |s| >= width then |s| else width
    ensures r[|r| - |s|..] == s
    ensures forall i :: 0 <= i < |r| - |s| ==> r[i] == fill
  {
    if |s| >= width then s else seq(width - |s|, _ => fill) + s
  }

  /** `getFormattedDate(date)`. */
  function FormattedDate(d: Date): string {
    IntToString(d.year) + "-" + PadStart(NatToString(d.month0 + 1), 2, '0') + "-" +
      PadStart(NatToString(d.day), 2, '0')
  }

  /** Value of a string of decimal digits; leading zeros are allowed. */
  function ParseNat(s: string): nat
    requires AllDigits(s)
  {
    if |s| == 0 then 0 else ParseNat(s[..|s| - 1]) * 10 + DigitValue(s[|s| - 1])
  }

  predicate IsIntString(s: string) {
    if |s| > 0 && s[0] == '-' then |s| > 1 && AllDigits(s[1..]) else |s| > 0 && AllDigits(s)
  }

  function ParseInt(s: string): int
    requires IsIntString(s)
  {
    var magnitude: int := if s[0] == '-' then ParseNat(s[1..]) else ParseNat(s);
    if s[0] == '-' then -magnitude else magnitude
  }

  /** Reads a key back into a (possibly out-of-range) date: the year is
      everything before the last six characters, which must be `-MM-DD`. */
  function ParseKey(s: string): Option<Ymd> {
    if |s| < 7 then None
    else
      var y, mm, dd := s[..|s| - 6], s[|s| - 5..|s| - 3], s[|s| - 2..];
      if s[|s| - 6] == '-' && s[|s| - 3] == '-' && IsIntString(y) && AllDigits(mm) && AllDigits(dd)
      then Some(Ymd(ParseInt(y), ParseNat(mm) - 1, ParseNat(dd)))
      else None
  }

  lemma {:induction false} NatRoundTrip(n: nat)
    ensures ParseNat(NatToString(n)) == n
  {
    if n >= 10 {
      var p := NatToString(n / 10);
      var s := NatToString(n);
      assert s == p + [DigitChar(n % 10)];
      assert s[..|s| - 1] == p;
      NatRoundTrip(n / 10);
    }
  }

  lemma IntRoundTrip(i: int)
    ensures IsIntString(IntToString(i)) && ParseInt(IntToString(i)) == i
  {
    var s := IntToString(i);
    if i < 0 {
      assert s[1..] == NatToString(-i);
      NatRoundTrip(-i);
    } else {
      NatRoundTrip(i);
    }
  }

  /** A number in 1..99 padded to two digits reads back as itself. */
  lemma TwoDigitRoundTrip(n: nat)
    requires 1 <= n <= 99
    ensures var p := PadStart(NatToString(n), 2, '0'); |p| == 2 && AllDigits(p) && ParseNat(p) == n
  {
    var p := PadStart(NatToString(n), 2, '0');
    if n < 10 {
      assert p == ['0', DigitChar(n)];
      assert p[..1] == ['0'];
      assert ['0'][..0] == [];
      assert ParseNat(['0']) == 0;
    } else {
      assert NatToString(n) == [DigitChar(n / 10)] + [DigitChar(n % 10)];
      assert p[..1] == [DigitChar(n / 10)];
    }
  }

  /** The key is `year`, `-`, two month digits, `-`, two day digits. */
  lemma KeyLayout(d: Date)
    ensures var k := FormattedDate(d);
      && |k| == |IntToString(d.year)| + 6
      && k[..|k| - 6] == IntToString(d.year)
      && k[|k| - 6] == '-' && k[|k| - 3] == '-'
      && k[|k| - 5..|k| - 3] == PadStart(NatToString(d.month0 + 1), 2, '0')
      && k[|k| - 2..] == PadStart(NatToString(d.day), 2, '0')
  {
    var y := IntToString(d.year);
    var mm := PadStart(NatToString(d.month0 + 1), 2, '0');
    var dd := PadStart(NatToString(d.day), 2, '0');
    TwoDigitRoundTrip(d.month0 + 1);
    TwoDigitRoundTrip(d.day);
    var k := FormattedDate(d);
    assert k == y + "-" + mm + "-" + dd;
    SplitKey(y, mm, dd);
  }

  lemma SplitKey(y: string, mm: string, dd: string)
    requires |mm| == 2 && |dd| == 2
    ensures var k := y + "-" + mm + "-" + dd;
      && |k| == |y| + 6
      && k[..|k| - 6] == y
      && k[|k| - 6] == '-' && k[|k| - 3] == '-'
      && k[|k| - 5..|k| - 3] == mm
      && k[|k| - 2..] == dd
  {
  }

  /** Parsing inverts formatting on every valid date, whatever its year. */
  lemma ParseKeyRoundTrip(d: Date)
    ensures ParseKey(FormattedDate(d)) == Some(d)
  {
    var y := IntToString(d.year);
    var mm := PadStart(NatToString(d.month0 + 1), 2, '0');
    var dd := PadStart(NatToString(d.day), 2, '0');
    IntRoundTrip(d.year);
    TwoDigitRoundTrip(d.month0 + 1);
    TwoDigitRoundTrip(d.day);
    assert FormattedDate(d) == y + "-" + mm + "-" + dd;
    ParseParts(y, mm, dd);
  }

  lemma ParseParts(y: string, mm: string, dd: string)
    requires IsIntString(y) && AllDigits(mm) && AllDigits(dd) && |mm| == 2 && |dd| == 2
    ensures ParseKey(y + "-" + mm + "-" + dd) == Some(Ymd(ParseInt(y), ParseNat(mm) - 1, ParseNat(dd)))
  {
    var k := y + "-" + mm + "-" + dd;
    SplitKey(y, mm, dd);
    assert |k| >= 7;
    var y', mm', dd' := k[..|k| - 6], k[|k| - 5..|k| - 3], k[|k| - 2..];
    assert y' == y && mm' == mm && dd' == dd;
    assert k[|k| - 6] == '-' && k[|k| - 3] == '-';
  }

  /** Distinct dates have distinct keys. */
  lemma FormattedDateInjective(a: Date, b: Date)
    ensures FormattedDate(a) == FormattedDate(b) <==> a == b
  {
    ParseKeyRoundTrip(a);
    ParseKeyRoundTrip(b);
  }

  /** RFC 3339 section 5.6 `full-date`: four year digits, `-`, two month
      digits in 01..12, `-`, two day digits within the month's length
      (section 5.7). */
  predicate IsFullDate(s: string) {
    && |s| == 10 && s[4] == '-' && s[7] == '-'
    && AllDigits(s[..4]) && AllDigits(s[5..7]) && AllDigits(s[8..])
    && 1 <= ParseNat(s[5..7]) <= 12
    && 1 <= ParseNat(s[8..]) <= DaysInMonth(ParseNat(s[..4]), ParseNat(s[5..7]) - 1)
  }

  lemma DigitCount(n: nat)
    ensures 1000 <= n <= 9999 ==> |NatToString(n)| == 4
    ensures 100 <= n <= 999 ==> |NatToString(n)| == 3
    ensures 10 <= n <= 99 ==> |NatToString(n)| == 2
    ensures n <= 9 ==> |NatToString(n)| == 1
  {
    if n >= 10 {
      DigitCount(n / 10);
    }
  }

  /** For a four-digit year the key has length 10 with `-` at indices 4 and
      7, and is an RFC 3339 full-date. */
  lemma FourDigitYearKey(d: Date)
    requires 1000 <= d.year <= 9999
    ensures var k := FormattedDate(d);
      |k| == 10 && k[4] == '-' && k[7] == '-' && IsFullDate(k)
  {
    var y := NatToString(d.year);
    var mm := PadStart(NatToString(d.month0 + 1), 2, '0');
    var dd := PadStart(NatToString(d.day), 2, '0');
    assert FormattedDate(d) == y + "-" + mm + "-" + dd;
    assert |y| == 4 && ParseNat(y) == d.year by {
      DigitCount(d.year);
      NatRoundTrip(d.year);
    }
    assert |mm| == 2 && AllDigits(mm) && ParseNat(mm) == d.month0 + 1 by {
      TwoDigitRoundTrip(d.month0 + 1);
    }
    assert |dd| == 2 && AllDigits(dd) && ParseNat(dd) == d.day by {
      TwoDigitRoundTrip(d.day);
    }
    FullDateOfParts(y, mm, dd, d);
  }

  lemma FullDateOfParts(y: string, mm: string, dd: string, d: Date)
    requires |y| == 4 && |mm| == 2 && |dd| == 2
    requires AllDigits(y) && AllDigits(mm) && AllDigits(dd)
    requires ParseNat(y) == d.year && ParseNat(mm) == d.month0 + 1 && ParseNat(dd) == d.day
    ensures var k := y + "-" + mm + "-" + dd;
      |k| == 10 && k[4] == '-' && k[7] == '-' && IsFullDate(k)
  {
    var k := y + "-" + mm + "-" + dd;
    SplitKey(y, mm, dd);
    assert k[..4] == y && k[5..7] == mm && k[8..] == dd;
  }

  lemma {:induction false} NatToStringOfDigits(s: string)
    requires |s| >= 1 && AllDigits(s) && (|s| == 1 || s[0] != '0')
    ensures NatToString(ParseNat(s)) == s
    decreases |s|
  {
    if |s| > 1 {
      var p := s[..|s| - 1];
      assert p[0] == s[0];
      NatToStringOfDigits(p);
      LeadingDigitPositive(p);
      var n := ParseNat(s);
      assert n / 10 == ParseNat(p) && n % 10 == DigitValue(s[|s| - 1]);
      assert DigitChar(DigitValue(s[|s| - 1])) == s[|s| - 1];
      assert s == p + [s[|s| - 1]];
    } else {
      assert ParseNat(s) == DigitValue(s[0]);
      assert s == [DigitChar(DigitValue(s[0]))];
    }
  }

  lemma {:induction false} LeadingDigitPositive(s: string)
    requires |s| >= 1 && AllDigits(s) && s[0] != '0'
    ensures ParseNat(s) >= 1
    decreases |s|
  {
    if |s| > 1 {
      var p := s[..|s| - 1];
      assert p[0] == s[0];
      LeadingDigitPositive(p);
    }
  }

  lemma TwoDigitsOfValue(t: string)
    requires |t| == 2 && AllDigits(t) && ParseNat(t) >= 1
    ensures PadStart(NatToString(ParseNat(t)), 2, '0') == t
  {
    var n := ParseNat(t);
    assert t[..1][..0] == [] && t[..1][0] == t[0];
    assert ParseNat(t[..1]) == DigitValue(t[0]);
    assert n == DigitValue(t[0]) * 10 + DigitValue(t[1]);
    if t[0] == '0' {
      assert NatToString(n) == [t[1]];
    } else {
      NatToStringOfDigits(t);
    }
  }

  /** Conversely, every RFC 3339 full-date whose year does not start with `0`
      is the key of exactly the date it reads as. */
  lemma FullDateIsKey(s: string)
    requires IsFullDate(s) && s[0] != '0'
    ensures exists d: Date ::
      && d == Ymd(ParseNat(s[..4]), ParseNat(s[5..7]) - 1, ParseNat(s[8..]))
      && ParseKey(s) == Some(d) && FormattedDate(d) == s
  {
    var ys, ms, ds := s[..4], s[5..7], s[8..];
    var d: Date := Ymd(ParseNat(ys), ParseNat(ms) - 1, ParseNat(ds));
    assert s == ys + "-" + ms + "-" + ds;
    KeyOfParts(d, ys, ms, ds);
    ParseKeyRoundTrip(d);
    assert ParseKey(s) == Some(d) && FormattedDate(d) == s;
  }

  lemma KeyOfParts(d: Date, ys: string, ms: string, ds: string)
    requires |ys| == 4 && AllDigits(ys) && ys[0] != '0' && ParseNat(ys) == d.year
    requires |ms| == 2 && AllDigits(ms) && ParseNat(ms) == d.month0 + 1
    requires |ds| == 2 && AllDigits(ds) && ParseNat(ds) == d.day
    ensures FormattedDate(d) == ys + "-" + ms + "-" + ds
  {
    NatToStringOfDigits(ys);
    TwoDigitsOfValue(ms);
    TwoDigitsOfValue(ds);
    assert NatToString(d.year) == ys;
    assert IntToString(d.year) == ys;
    assert PadStart(NatToString(d.month0 + 1), 2, '0') == ms;
    assert PadStart(NatToString(d.day), 2, '0') == ds;
  }
}

/** The `DD-MM-YYYY` text form of expiry dates: `strftime("%d-%m-%Y")` and
    `pd.to_datetime(..., format="%d-%m-%Y")`. */
module DateText {
  import opened Wrappers
  import opened Calendar
  import opened Sequences

  function DigitChar(n: int): (ch: char)
    requires 0 <= n <= 9
    ensures IsDigit(ch) && DigitValue(ch) == n
  {
    (n + '0' as int) as char
  }

  /** Two decimal digits, zero-padded. */
  function Pad2(n: int): (s: string)
    requires 0 <= n < 100
    ensures |s| == 2 && IsDigit(s[0]) && IsDigit(s[1])
    ensures DigitValue(s[0]) * 10 + DigitValue(s[1]) == n
  {
    [DigitChar(n / 10), DigitChar(n % 10)]
  }

  /** Four decimal digits, zero-padded. */
  function Pad4(n: int): (s: string)
    requires 0 <= n < 10000
    ensures |s| == 4 && forall i :: 0 <= i < 4 ==> IsDigit(s[i])
    ensures Value4(s) == n
  {
    Pad2(n / 100) + Pad2(n % 100)
  }

  function Value2(f: string): int
    requires |f| == 2 && IsDigit(f[0]) && IsDigit(f[1])
  {
    DigitValue(f[0]) * 10 + DigitValue(f[1])
  }

  function Value4(f: string): int
    requires |f| == 4 && forall i :: 0 <= i < 4 ==> IsDigit(f[i])
  {
    Value2(f[..2]) * 100 + Value2(f[2..])
  }

  /** `%d` as strptime reads it: `3[01]|[12]\d|0[1-9]|[1-9]| [1-9]`. */
  function DayField(f: string): (r: Option<int>)
    ensures r.Some? ==> 1 <= r.value <= 31
  {
    if |f| == 1 && IsDigit(f[0]) && f[0] != '0' then Some(DigitValue(f[0]))
    else if |f| == 2 && f[0] == ' ' && IsDigit(f[1]) && f[1] != '0' then Some(DigitValue(f[1]))
    else if |f| == 2 && IsDigit(f[0]) && IsDigit(f[1]) && 1 <= Value2(f) <= 31 then Some(Value2(f))
    else None
  }

  /** `%m` as strptime reads it: `1[0-2]|0[1-9]|[1-9]`. */
  function MonthField(f: string): (r: Option<int>)
    ensures r.Some? ==> 1 <= r.value <= 12
  {
    if |f| == 1 && IsDigit(f[0]) && f[0] != '0' then Some(DigitValue(f[0]))
    else if |f| == 2 && IsDigit(f[0]) && IsDigit(f[1]) && 1 <= Value2(f) <= 12 then Some(Value2(f))
    else None
  }

  /** `%Y` as strptime reads it: exactly four digits. */
  function YearField(f: string): (r: Option<int>)
    ensures r.Some? ==> 0 <= r.value <= 9999
  {
    if |f| == 4 && IsDigit(f[0]) && IsDigit(f[1]) && IsDigit(f[2]) && IsDigit(f[3]) then Some(Value4(f))
    else None
  }

  /** The text split as a day field of `dl` characters and a month field of `ml`. */
  function ParseLayout(s: string, dl: nat, ml: nat): (r: Option<Civil>)
    requires 1 <= dl <= 2 && 1 <= ml <= 2
    ensures r.Some? ==> Valid(r.value)
  {
    if |s| != dl + ml + 6 || s[dl] != '-' || s[dl + 1 + ml] != '-' then None
    else
      match (DayField(s[..dl]), MonthField(s[dl + 1..dl + 1 + ml]), YearField(s[dl + ml + 2..]))
      case (Some(d), Some(m), Some(y)) =>
        if Valid(Civil(y, m, d)) then Some(Civil(y, m, d)) else None
      case _ => None
  }

  /** `datetime.strptime(s, "%d-%m-%Y")`: None where it raises ValueError
      (wrong shape, or a date that does not exist such as 30-02-2025). */
  function Parse(s: string): (r: Option<Civil>)
    ensures r.Some? ==> Valid(r.value)
  {
    var a := ParseLayout(s, 2, 2);
    if a.Some? then a else
    var b := ParseLayout(s, 2, 1);
    if b.Some? then b else
    var c := ParseLayout(s, 1, 2);
    if c.Some? then c else
    ParseLayout(s, 1, 1)
  }

  /** `strftime("%d-%m-%Y")`. */
  function Format(c: Civil): (s: string)
    requires Valid(c) && c.year <= 9999
    ensures |s| == 10 && IsDigit(s[0]) && s[2] == '-' && s[5] == '-'
  {
    Pad2(c.day) + "-" + Pad2(c.month) + "-" + Pad4(c.year)
  }

  /** The form `Format` writes: ten characters, the day zero-padded. */
  predicate Canonical(s: string) {
    |s| == 10 && s[0] != ' '
  }

  lemma ParseFormat(c: Civil)
    requires Valid(c) && c.year <= 9999
    ensures Canonical(Format(c))
    ensures Parse(Format(c)) == Some(c)
  {
    var s := Format(c);
    assert s[..2] == Pad2(c.day);
    assert s[3..5] == Pad2(c.month);
    assert s[6..] == Pad4(c.year);
    assert DayField(s[..2]) == Some(c.day);
  }

  lemma Pad2Value(f: string)
    requires |f| == 2 && IsDigit(f[0]) && IsDigit(f[1])
    ensures Pad2(Value2(f)) == f
  {
  }

  lemma Pad4Value(f: string)
    requires |f| == 4 && forall i :: 0 <= i < 4 ==> IsDigit(f[i])
    ensures Pad4(Value4(f)) == f
  {
    var a, b := Value2(f[..2]), Value2(f[2..]);
    HundredsSplit(a, b);
    assert Pad4(Value4(f)) == Pad2(a) + Pad2(b);
    Pad2Value(f[..2]);
    Pad2Value(f[2..]);
    assert f == f[..2] + f[2..];
  }

  lemma HundredsSplit(a: int, b: int)
    requires 0 <= b < 100
    ensures (a * 100 + b) / 100 == a && (a * 100 + b) % 100 == b
  {
  }

  /** Canonical text is exactly what formatting its date gives back. */
  lemma FormatParse(s: string)
    requires Canonical(s) && Parse(s).Some?
    ensures Parse(s).value.year <= 9999
    ensures Format(Parse(s).value) == s
  {
    var c := Parse(s).value;
    assert ParseLayout(s, 2, 2) == Some(c);
    Pad2Value(s[..2]);
    Pad2Value(s[3..5]);
    Pad4Value(s[6..]);
    assert s == s[..2] + "-" + s[3..5] + "-" + s[6..];
  }

  // ---------------------------------------------------------------------
  // Day numbers in text

  /** `pd.to_datetime(s, format="%d-%m-%Y")` for one value: None where pandas
      raises (not a date in this form, or outside the timestamp range). */
  function ParseDay(s: string): (r: Option<Day>)
    ensures r.Some? ==> InRange(r.value)
  {
    match Parse(s)
    case Some(c) => if InRange(ToDayNumber(c)) then Some(ToDayNumber(c)) else None
    case None => None
  }

  /** A text parses to a day exactly when it is a date inside the range of
      pandas timestamps. */
  lemma ParseDayRange(s: string)
    ensures ParseDay(s).Some? <==> Parse(s).Some? && InTimestampRange(Parse(s).value)
  {
    if Parse(s).Some? {
      TimestampRangeDays(Parse(s).value);
    }
  }

  /** `.strftime("%d-%m-%Y")` of a timestamp on day `n`. */
  function FormatDay(n: Day): (s: string)
    requires InRange(n)
    ensures Canonical(s)
  {
    InRangeYear(n);
    Format(FromDayNumber(n))
  }

  /** Formatting then parsing a representable day gives the same day back. */
  lemma ParseFormatDay(n: Day)
    requires InRange(n)
    ensures ParseDay(FormatDay(n)) == Some(n)
  {
    InRangeMeans(n);
    ParseFormat(FromDayNumber(n));
  }

  /** Parsing then formatting canonical text gives the same text back. */
  lemma FormatParseDay(s: string)
    requires Canonical(s) && ParseDay(s).Some?
    ensures FormatDay(ParseDay(s).value) == s
  {
    var c := Parse(s).value;
    DayNumberRoundTrip(c);
    FormatParse(s);
  }
}

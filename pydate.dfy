/** `datetime.strptime(text, "%Y-%m-%d")`, the sort key of report.py, as a
    partial function: the calendar date the text spells, or None where
    Python raises ValueError. */
module PyDate {
  import opened Wrappers

  /** A `datetime` whose time of day is midnight: only the date matters. */
  datatype Date = Date(year: int, month: int, day: int)

  predicate IsLeapYear(year: int) {
    year % 4 == 0 && (year % 100 != 0 || year % 400 == 0)
  }

  function DaysInMonth(year: int, month: int): int
    requires 1 <= month <= 12
  {
    if month == 2 then (if IsLeapYear(year) then 29 else 28)
    else if month == 4 || month == 6 || month == 9 || month == 11 then 30
    else 31
  }

  /** The dates `datetime` can hold: years 1 to 9999 of the proleptic
      Gregorian calendar. */
  predicate IsValid(d: Date) {
    1 <= d.year <= 9999 && 1 <= d.month <= 12 && 1 <= d.day <= DaysInMonth(d.year, d.month)
  }

  /** `a < b` on dates: earlier in the calendar. */
  predicate Less(a: Date, b: Date) {
    a.year < b.year
    || (a.year == b.year && (a.month < b.month || (a.month == b.month && a.day < b.day)))
  }

  predicate IsDigit(c: char) {
    '0' <= c <= '9'
  }

  predicate AllDigits(t: string) {
    forall k | 0 <= k < |t| :: IsDigit(t[k])
  }

  function DigitValue(c: char): int
    requires IsDigit(c)
  {
    c as int - '0' as int
  }

  function DigitChar(n: int): char
    requires 0 <= n <= 9
  {
    ('0' as int + n) as char
  }

  /** `int(t)` for a string of decimal digits. */
  function Value(t: string): int
    requires AllDigits(t)
  {
    if t == [] then 0 else 10 * Value(t[..|t| - 1]) + DigitValue(t[|t| - 1])
  }

  /** `t` is a decimal spelling of `n` (leading zeros allowed). */
  predicate Spells(t: string, n: int) {
    AllDigits(t) && Value(t) == n
  }

  /** Width of the text that the `%m` group `1[0-2]|0[1-9]|[1-9]` matches at
      the start of `s`, given that the literal `-` of the format follows it. */
  function MonthWidth(s: string): Option<nat> {
    if |s| >= 3 && ((s[0] == '1' && '0' <= s[1] <= '2') || (s[0] == '0' && '1' <= s[1] <= '9')) && s[2] == '-'
    then Some(2)
    else if |s| >= 2 && '1' <= s[0] <= '9' && s[1] == '-' then Some(1)
    else None
  }

  /** Width of the text that the `%d` group `3[01]|[12]\d|0[1-9]|[1-9]| [1-9]`
      matches at the start of `s`: the first alternative that matches wins,
      since nothing follows the group in the format. */
  function DayWidth(s: string): Option<nat> {
    if |s| >= 2 && s[0] == '3' && '0' <= s[1] <= '1' then Some(2)
    else if |s| >= 2 && '1' <= s[0] <= '2' && IsDigit(s[1]) then Some(2)
    else if |s| >= 2 && s[0] == '0' && '1' <= s[1] <= '9' then Some(2)
    else if |s| >= 1 && '1' <= s[0] <= '9' then Some(1)
    else if |s| >= 2 && s[0] == ' ' && '1' <= s[1] <= '9' then Some(2)
    else None
  }

  /** `int()` of the text of the day group; `int` skips the leading space of
      the ` [1-9]` alternative. */
  function DayValue(t: string): int {
    if |t| == 2 && t[0] == ' ' && IsDigit(t[1]) then DigitValue(t[1])
    else if AllDigits(t) then Value(t)
    else 0
  }

  /** `datetime.strptime(s, "%Y-%m-%d")`: four digits, `-`, the month group,
      `-`, the day group, and nothing after it ("unconverted data remains");
      then the numbers must name a day `datetime` can hold. */
  function ParseDate(s: string): (r: Option<Date>)
    ensures r.Some? ==> IsValid(r.value)
  {
    if |s| < 5 || !AllDigits(s[..4]) || s[4] != '-' then None
    else
      match MonthWidth(s[5..])
      case None => None
      case Some(mw) =>
        var rest := s[5 + mw + 1..];
        match DayWidth(rest)
        case None => None
        case Some(dw) =>
          if dw != |rest| then None
          else
            var date := Date(Value(s[..4]), Value(s[5..5 + mw]), DayValue(rest));
            if IsValid(date) then Some(date) else None
  }

  /** The day field of a `%Y-%m-%d` spelling: one or two digits, or a space
      and one digit. */
  predicate DaySpelling(t: string, day: int) {
    ((|t| == 1 || |t| == 2) && Spells(t, day)) || (|t| == 2 && t[0] == ' ' && Spells(t[1..], day))
  }

  /** `s` spells `d` as four year digits, `-`, one or two month digits, `-`,
      and a day field. */
  predicate IsSpelling(s: string, d: Date) {
    |s| >= 5 && s[4] == '-' && Spells(s[..4], d.year)
    && (|| (|s| >= 7 && s[6] == '-' && Spells(s[5..6], d.month) && DaySpelling(s[7..], d.day))
        || (|s| >= 8 && s[7] == '-' && Spells(s[5..7], d.month) && DaySpelling(s[8..], d.day)))
  }

  lemma ValueOfTwo(t: string)
    requires |t| == 2 && AllDigits(t)
    ensures Value(t) == 10 * DigitValue(t[0]) + DigitValue(t[1])
  {
    ValueOfOne(t[..1]);
  }

  lemma ValueOfOne(t: string)
    requires |t| == 1 && AllDigits(t)
    ensures Value(t) == DigitValue(t[0])
  {
    assert t[..0] == [];
  }

  /** The month group followed by `-` is exactly a one- or two-digit
      spelling of a month number 1 to 12, followed by `-`. */
  lemma {:induction false} MonthWidthSpells(s: string, month: int)
    requires 1 <= month <= 12
    ensures (MonthWidth(s) == Some(1) && Spells(s[..1], month))
        <==> (|s| >= 2 && s[1] == '-' && Spells(s[..1], month))
    ensures (MonthWidth(s) == Some(2) && Spells(s[..2], month))
        <==> (|s| >= 3 && s[2] == '-' && Spells(s[..2], month))
  {
    if |s| >= 2 && AllDigits(s[..1]) { ValueOfOne(s[..1]); }
    if |s| >= 3 && AllDigits(s[..2]) { ValueOfTwo(s[..2]); }
  }

  /** The day group that takes the whole rest of the text is exactly a day
      field spelling a day number 1 to 31. */
  lemma {:induction false} DayWidthSpells(t: string, day: int)
    requires 1 <= day <= 31
    ensures (DayWidth(t) == Some(|t|) && DayValue(t) == day) <==> DaySpelling(t, day)
  {
    if |t| == 1 && AllDigits(t) { ValueOfOne(t); }
    if |t| == 2 && AllDigits(t) { ValueOfTwo(t); }
    if |t| == 2 && AllDigits(t[1..]) { ValueOfOne(t[1..]); }
  }

  /** `strptime` with `%Y-%m-%d` accepts a text exactly when it spells a
      valid date: four year digits, one or two month digits, a day field of
      one or two digits or a space and a digit; and it yields that date. */
  lemma {:induction false} ParseDateSpelling(s: string, d: Date)
    ensures ParseDate(s) == Some(d) <==> IsSpelling(s, d) && IsValid(d)
  {
    if |s| >= 5 && s[4] == '-' {
      var t := s[5..];
      if 1 <= d.month <= 12 {
        MonthWidthSpells(t, d.month);
        if |s| >= 6 { assert t[..1] == s[5..6]; }
        if |s| >= 7 { assert t[..2] == s[5..7]; }
      }
      if |s| >= 7 && 1 <= d.day <= 31 { DayWidthSpells(s[7..], d.day); }
      if |s| >= 8 && 1 <= d.day <= 31 { DayWidthSpells(s[8..], d.day); }
    }
  }

  function Pow10(w: nat): nat {
    if w == 0 then 1 else 10 * Pow10(w - 1)
  }

  /** The `w`-digit zero-padded decimal spelling of `n`, as `%Y`, `%m` and
      `%d` print it. */
  function Pad(n: nat, w: nat): (t: string)
    ensures |t| == w && AllDigits(t)
  {
    if w == 0 then [] else Pad(n / 10, w - 1) + [DigitChar(n % 10)]
  }

  lemma {:induction false} PadSpells(n: nat, w: nat)
    requires n < Pow10(w)
    ensures Spells(Pad(n, w), n)
  {
    if w > 0 {
      PadSpells(n / 10, w - 1);
      var t := Pad(n, w);
      assert t[..|t| - 1] == Pad(n / 10, w - 1);
    }
  }

  /** The zero-padded `YYYY-MM-DD` form that git's `%as` placeholder prints
      (and `date.isoformat()` gives). */
  function FormatDate(d: Date): string
    requires IsValid(d)
  {
    Pad(d.year, 4) + "-" + Pad(d.month, 2) + "-" + Pad(d.day, 2)
  }

  /** Every valid date printed as `%Y-%m-%d` parses back to itself. */
  lemma FormatParse(d: Date)
    requires IsValid(d)
    ensures ParseDate(FormatDate(d)) == Some(d)
  {
    var s := FormatDate(d);
    PadSpells(d.year, 4);
    PadSpells(d.month, 2);
    PadSpells(d.day, 2);
    assert s[..4] == Pad(d.year, 4);
    assert s[5..7] == Pad(d.month, 2);
    assert s[8..] == Pad(d.day, 2);
    ParseDateSpelling(s, d);
  }
}

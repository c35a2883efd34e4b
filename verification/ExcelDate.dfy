/** Reading the text of a date cell in several formats. */
module ExcelDate {
  import opened Options
  import opened JsString
  import opened Decimals

  datatype Date = Date(year: nat, month: nat, day: nat)

  function DaysInMonth(year: nat, month: nat): nat {
    if month == 2 then
      if (year % 4 == 0 && year % 100 != 0) || year % 400 == 0 then 29 else 28
    else if month in {4, 6, 9, 11} then 30
    else 31
  }

  predicate IsValidCalendarDate(d: Date) {
    && 1 <= d.year <= 9999
    && 1 <= d.month <= 12
    && 1 <= d.day <= DaysInMonth(d.year, d.month)
  }

  /** `formatDateByParts` */
  function Format(d: Date): string {
    Decimal(d.year) + "-" + PadStart(Decimal(d.month), 2) + "-" + PadStart(Decimal(d.day), 2)
  }

  predicate IsSeparator(c: char) {
    c == '/' || c == '-'
  }

  // ----- the regular expressions

  /** How many digits a text starts with. */
  function DigitRun(s: string): (n: nat)
    ensures n <= |s| && AllDigits(s[..n]) && (n < |s| ==> !IsDigit(s[n]))
  {
    if s == [] || !IsDigit(s[0]) then 0
    else
      var n := DigitRun(s[1..]) + 1;
      assert forall i :: 1 <= i < n ==> s[..n][i] == s[1..][..n - 1][i - 1];
      n
  }

  /** Three numerals with two separators between them, and what follows. */
  datatype Parts = Parts(a: string, s: char, b: string, t: char, c: string, rest: string)

  /** A numeral, a separator, and what follows. */
  datatype Cutting = Cutting(digits: string, separator: char, after: string)

  function Cut(s: string): Option<Cutting> {
    var n := DigitRun(s);
    if n >= |s| || !IsSeparator(s[n]) then None else Some(Cutting(s[..n], s[n], s[n + 1..]))
  }

  function Split(raw: string): Option<Parts> {
    var one := Cut(raw);
    if one.None? then None
    else
      var two := Cut(one.value.after);
      if two.None? then None
      else
        var tail := two.value.after;
        var k := DigitRun(tail);
        Some(Parts(one.value.digits, one.value.separator, two.value.digits, two.value.separator, tail[..k], tail[k..]))
  }

  /** `d/m/yyyy` with one or two digits for day and month, either separator */
  predicate IsDayFirst(p: Parts) {
    1 <= |p.a| <= 2 && 1 <= |p.b| <= 2 && |p.c| == 4 && p.rest == ""
  }

  /** `yyyy/m/d` likewise */
  predicate IsYearFirst(p: Parts) {
    |p.a| == 4 && 1 <= |p.b| <= 2 && 1 <= |p.c| <= 2 && p.rest == ""
  }

  /** What may stand behind an ISO date: nothing, or a `T`, a `t` or white space and anything. */
  predicate EndsIso(rest: string) {
    rest == "" || rest[0] == 'T' || rest[0] == 't' || IsSpace(rest[0])
  }

  /** `yyyy-mm-dd`, alone or followed by `T`, `t` or white space and anything */
  predicate IsIsoPrefix(p: Parts) {
    && |p.a| == 4 && p.s == '-' && |p.b| == 2 && p.t == '-' && |p.c| == 2
    && EndsIso(p.rest)
  }

  predicate HasNumerals(p: Parts) {
    AllDigits(p.a) && AllDigits(p.b) && AllDigits(p.c)
  }

  /** `normalizeExcelDate` of a text. */
  function Normalize(value: string): Option<string> {
    var raw := Trim(value);
    if raw == "" then None
    else
      var parts := Split(raw);
      if parts.None? then None
      else
        var p := parts.value;
        var dayFirst := Date(ToNat(p.c), ToNat(p.b), ToNat(p.a));
        var yearFirst := Date(ToNat(p.a), ToNat(p.b), ToNat(p.c));
        if IsDayFirst(p) && IsValidCalendarDate(dayFirst) then Some(Format(dayFirst))
        else if IsYearFirst(p) && IsValidCalendarDate(yearFirst) then Some(Format(yearFirst))
        else if IsIsoPrefix(p) && IsValidCalendarDate(yearFirst) then
          Some(Decimal(yearFirst.year) + "-" + p.b + "-" + p.c)
        else None
  }

  // ----- what a text denotes, said without reading it

  /** The text made of three numerals, two separators and the rest. */
  function Written(p: Parts): string {
    p.a + [p.s] + p.b + [p.t] + p.c + p.rest
  }

  ghost predicate WellFormed(p: Parts) {
    && HasNumerals(p) && IsSeparator(p.s) && IsSeparator(p.t)
    && (p.rest == "" || !IsDigit(p.rest[0]))
  }

  /** `p` is one of the formats, with the parts of the date `d`. */
  ghost predicate Reads(p: Parts, d: Date)
    requires HasNumerals(p)
  {
    || (IsDayFirst(p) && d == Date(ToNat(p.c), ToNat(p.b), ToNat(p.a)))
    || ((IsYearFirst(p) || IsIsoPrefix(p)) && d == Date(ToNat(p.a), ToNat(p.b), ToNat(p.c)))
  }

  /** Trimmed, the text is a valid date in one of the formats. */
  ghost predicate Denotes(value: string, d: Date) {
    IsValidCalendarDate(d) && exists p :: Written(p) == Trim(value) && WellFormed(p) && Reads(p, d)
  }

  lemma {:induction false} DigitRunIs(ds: string, s: string)
    requires AllDigits(ds) && (s == "" || !IsDigit(s[0]))
    ensures DigitRun(ds + s) == |ds|
  {
    if ds == [] {
      assert ds + s == s;
    } else {
      assert (ds + s)[1..] == ds[1..] + s;
      DigitRunIs(ds[1..], s);
    }
  }

  lemma CutJoined(ds: string, sep: char, after: string)
    requires AllDigits(ds) && IsSeparator(sep)
    ensures Cut(ds + [sep] + after) == Some(Cutting(ds, sep, after))
  {
    var s := ds + [sep] + after;
    DigitRunIs(ds, [sep] + after);
    assert s == ds + ([sep] + after);
    assert s[..|ds|] == ds && s[|ds|] == sep && s[|ds| + 1..] == after;
  }

  lemma JoinedCut(s: string)
    requires Cut(s).Some?
    ensures var c := Cut(s).value;
            c.digits + [c.separator] + c.after == s && AllDigits(c.digits) && IsSeparator(c.separator)
  {
  }

  lemma Regroup(p: Parts)
    ensures Written(p) == p.a + [p.s] + (p.b + [p.t] + (p.c + p.rest))
  {
    var tail := p.c + p.rest;
    assert p.a + [p.s] + p.b + [p.t] + p.c + p.rest == p.a + [p.s] + p.b + [p.t] + tail;
    assert p.a + [p.s] + (p.b + [p.t] + tail) == p.a + [p.s] + p.b + [p.t] + tail;
  }

  /** Splitting undoes writing: a text denotes in one way only. */
  lemma SplitWritten(p: Parts)
    requires WellFormed(p)
    ensures Split(Written(p)) == Some(p)
  {
    hide Cut, Written;
    var tail := p.c + p.rest;
    Regroup(p);
    CutJoined(p.a, p.s, p.b + [p.t] + tail);
    CutJoined(p.b, p.t, tail);
    DigitRunIs(p.c, p.rest);
    assert tail[..|p.c|] == p.c && tail[|p.c|..] == p.rest;
  }

  lemma WrittenSplit(raw: string)
    requires Split(raw).Some?
    ensures WellFormed(Split(raw).value) && Written(Split(raw).value) == raw
  {
    hide Cut, Written;
    var one := Cut(raw).value;
    var two := Cut(one.after).value;
    JoinedCut(raw);
    JoinedCut(one.after);
    var k := DigitRun(two.after);
    assert two.after == two.after[..k] + two.after[k..];
    Regroup(Split(raw).value);
  }

  /** The last branch copies the numerals of month and day, which is the same as formatting them. */
  lemma IsoIsFormat(p: Parts)
    requires HasNumerals(p) && |p.b| == 2 && |p.c| == 2
    ensures Decimal(ToNat(p.a)) + "-" + p.b + "-" + p.c == Format(Date(ToNat(p.a), ToNat(p.b), ToNat(p.c)))
  {
    PadBack(p.b);
    PadBack(p.c);
  }

  lemma ReadIsDenoted(value: string) returns (d: Date)
    requires Normalize(value).Some?
    ensures Denotes(value, d) && Normalize(value) == Some(Format(d))
  {
    hide Split, Trim, Written, Format;
    var raw := Trim(value);
    var p := Split(raw).value;
    WrittenSplit(raw);
    d := Date(ToNat(p.c), ToNat(p.b), ToNat(p.a));
    if !IsDayFirst(p) || !IsValidCalendarDate(d) {
      d := Date(ToNat(p.a), ToNat(p.b), ToNat(p.c));
      if IsIsoPrefix(p) {
        IsoIsFormat(p);
      }
    }
    assert Written(p) == raw && Reads(p, d);
  }

  /** A text is read as a date exactly when it denotes one, and then as that date's format. */
  lemma NormalizeMeaning(value: string, r: string)
    ensures Normalize(value) == Some(r) <==> exists d :: Denotes(value, d) && r == Format(d)
  {
    hide Normalize, Denotes, Format;
    if Normalize(value) == Some(r) {
      var d := ReadIsDenoted(value);
    }
    if d :| Denotes(value, d) && r == Format(d) {
      DenotedIsRead(value, d);
    }
  }

  lemma WrittenNonEmpty(p: Parts)
    ensures Written(p) != ""
  {
    assert |Written(p)| >= |[p.s]|;
  }

  lemma DenotedIsRead(value: string, d: Date)
    requires Denotes(value, d)
    ensures Normalize(value) == Some(Format(d))
  {
    hide Split, Trim, Written, Format;
    var p :| Written(p) == Trim(value) && WellFormed(p) && Reads(p, d);
    SplitWritten(p);
    assert p.a != "";
    WrittenNonEmpty(p);
    if IsIsoPrefix(p) {
      IsoIsFormat(p);
    }
  }

  lemma DenotedParts(value: string, d: Date) returns (p: Parts)
    requires Denotes(value, d)
    ensures WellFormed(p) && Reads(p, d) && Split(Trim(value)) == Some(p)
  {
    hide Split, Trim, Written;
    p :| Written(p) == Trim(value) && WellFormed(p) && Reads(p, d);
    SplitWritten(p);
  }

  /** No text denotes two dates. */
  lemma Unambiguous(value: string, d: Date, e: Date)
    requires Denotes(value, d) && Denotes(value, e)
    ensures d == e
  {
    hide Split, Trim, Denotes;
    var p := DenotedParts(value, d);
    var q := DenotedParts(value, e);
  }

  lemma TwoDigits(n: nat)
    requires n <= 31
    ensures 1 <= |Decimal(n)| <= 2 && |PadStart(Decimal(n), 2)| == 2
  {
    assert n >= 10 ==> |Decimal(n)| == |Decimal(n / 10)| + 1;
  }

  lemma FourDigits(n: nat)
    requires 1 <= n <= 9999
    ensures |PadStart(Decimal(n), 4)| == 4
    ensures |Decimal(n)| == 4 <==> n >= 1000
    ensures n < 1000 ==> |Decimal(n)| <= 3
  {
    DecimalLength(n, 4);
    DecimalLength(n, 3);
    assert Pow10(0) == 1 && Pow10(1) == 10 && Pow10(2) == 100 && Pow10(3) == 1000 && Pow10(4) == 10000;
  }

  /** A numeral for `n`, padded to two digits or not. */
  function Numeral(n: nat, padded: bool): string {
    if padded then PadStart(Decimal(n), 2) else Decimal(n)
  }

  lemma NumeralReads(n: nat, padded: bool)
    requires n <= 31
    ensures AllDigits(Numeral(n, padded)) && ToNat(Numeral(n, padded)) == n && 1 <= |Numeral(n, padded)| <= 2
  {
    TwoDigits(n);
    ToNatDecimal(n);
    ToNatPadDecimal(n, 2);
  }

  /** All formats of a date with a four-digit year agree: day first and year first, with either
      separator, padded or not. */
  lemma FormatsAgree(d: Date, s: char, t: char, padMonth: bool, padDay: bool)
    requires IsValidCalendarDate(d) && d.year >= 1000 && IsSeparator(s) && IsSeparator(t)
    ensures var year, month, day := Decimal(d.year), Numeral(d.month, padMonth), Numeral(d.day, padDay);
            && Normalize(day + [s] + month + [t] + year) == Some(Format(d))
            && Normalize(year + [s] + month + [t] + day) == Some(Format(d))
  {
    hide Normalize, Format, Decimal, Numeral;
    var year, month, day := Decimal(d.year), Numeral(d.month, padMonth), Numeral(d.day, padDay);
    FourDigits(d.year);
    ToNatDecimal(d.year);
    NumeralReads(d.month, padMonth);
    NumeralReads(d.day, padDay);
    ReadsWritten(Parts(day, s, month, t, year, ""), d);
    assert day + [s] + month + [t] + year == Written(Parts(day, s, month, t, year, ""));
    ReadsWritten(Parts(year, s, month, t, day, ""), d);
    assert year + [s] + month + [t] + day == Written(Parts(year, s, month, t, day, ""));
  }

  /** So does the ISO format with a time, or anything else, behind it, and with nothing but such
      a rest is it read. */
  lemma IsoAgrees(d: Date, rest: string)
    requires IsValidCalendarDate(d) && d.year >= 1000
    ensures Normalize(Format(d) + rest) ==
            if rest == "" || rest[0] == 'T' || rest[0] == 't' || IsSpace(rest[0]) then Some(Format(d)) else None
  {
    hide Normalize, Format, Written, FormatParts, Split;
    FormatWellFormed(d);
    var left := TrimEnd(rest);
    TrimEndEnds(rest);
    TrimBehind(d, rest);
    var k := DigitRun(left);
    assert left == left[..k] + left[k..];
    var f := FormatParts(d);
    var p := f.(c := f.c + left[..k], rest := left[k..]);
    WrittenBehind(f, left[..k], left[k..]);
    SplitWritten(p);
    if EndsIso(rest) {
      assert left != [] ==> left[0] == rest[0] && !IsDigit(left[0]);
      assert k == 0 && p == f.(rest := left);
      assert Reads(p, d);
      assert Denotes(Format(d) + rest, d);
      DenotedIsRead(Format(d) + rest, d);
    } else {
      assert left != [] && left[0] == rest[0];
      NotRead(Format(d) + rest, p);
    }
  }

  lemma TrimBehind(d: Date, rest: string)
    requires IsValidCalendarDate(d)
    ensures Trim(Format(d) + rest) == Format(d) + TrimEnd(rest)
  {
    hide Format, Written, FormatParts;
    var f, p := Format(d), FormatParts(d);
    FormatWellFormed(d);
    WrittenEnds(p);
    TrimEndBehind(f, rest);
    assert !IsSpace((f + rest)[0]);
    assert TrimStart(f + rest) == f + rest;
  }

  lemma WrittenEnds(p: Parts)
    requires WellFormed(p) && p.a != "" && p.c != "" && p.rest == ""
    ensures var w := Written(p);
            w != "" && IsDigit(w[0]) && IsDigit(w[|w| - 1])
  {
    var w := Written(p);
    assert w[0] == p.a[0] && w[|w| - 1] == p.c[|p.c| - 1];
  }

  lemma WrittenBehind(p: Parts, digits: string, rest: string)
    requires p.rest == ""
    ensures Written(p.(c := p.c + digits, rest := rest)) == Written(p) + (digits + rest)
  {
  }

  lemma NotRead(value: string, p: Parts)
    requires WellFormed(p) && Split(Trim(value)) == Some(p) && |p.a| == 4
    requires |p.c| > 2 || !EndsIso(p.rest)
    ensures Normalize(value) == None
  {
    hide Split, Trim;
  }

  lemma ReadsWritten(p: Parts, d: Date)
    requires WellFormed(p) && Reads(p, d) && IsValidCalendarDate(d) && p.rest == ""
    ensures Normalize(Written(p)) == Some(Format(d))
  {
    hide Normalize, Written, Trim;
    var w := Written(p);
    WrittenEnds(p);
    TrimKeepsTrimmed(w);
    assert Denotes(w, d);
    DenotedIsRead(w, d);
  }

  function FormatParts(d: Date): (p: Parts) {
    Parts(Decimal(d.year), '-', Numeral(d.month, true), '-', Numeral(d.day, true), "")
  }

  lemma FormatWellFormed(d: Date)
    requires IsValidCalendarDate(d)
    ensures var p := FormatParts(d);
            && WellFormed(p) && Written(p) == Format(d) && p.s == p.t == '-' && p.rest == ""
            && |p.b| == |p.c| == 2 && 0 < |p.a| <= 4 && (|p.a| == 4 <==> d.year >= 1000)
            && d == Date(ToNat(p.a), ToNat(p.b), ToNat(p.c))
  {
    FourDigits(d.year);
    ToNatDecimal(d.year);
    NumeralReads(d.month, true);
    NumeralReads(d.day, true);
    TwoDigits(d.month);
    TwoDigits(d.day);
  }

  lemma ShortYear(p: Parts)
    requires WellFormed(p) && 0 < |p.a| < 4 && |p.c| == 2 && p.rest == ""
    ensures Normalize(Written(p)) == None
  {
    hide Split, Trim;
    var w := Written(p);
    SplitWritten(p);
    assert w[0] == p.a[0] && w[|w| - 1] == p.c[|p.c| - 1];
    TrimKeepsTrimmed(w);
  }

  lemma FormatAgain(d: Date)
    requires IsValidCalendarDate(d)
    ensures Normalize(Format(d)) == if d.year >= 1000 then Some(Format(d)) else None
  {
    hide Normalize, Format, Written, FormatParts;
    var p := FormatParts(d);
    FormatWellFormed(d);
    if d.year >= 1000 {
      ReadsWritten(p, d);
    } else {
      ShortYear(p);
    }
  }

  /** Normalising again changes nothing exactly when the year has four digits; a shorter year
      is printed without its zeros and is then no longer a date. */
  lemma NormalizeTwice(value: string, d: Date)
    requires Denotes(value, d)
    ensures Normalize(value).Some?
    ensures var r := Normalize(value).value;
            Normalize(r) == Some(r) <==> d.year >= 1000
  {
    hide Normalize, Format;
    DenotedIsRead(value, d);
    FormatAgain(d);
  }

  /** The first of January 500 is read, but what it is normalised to is not. */
  lemma ShortYearIsLost()
    ensures Normalize("1/1/0500") == Some("500-01-01")
    ensures Normalize("500-01-01") == None
  {
    hide Normalize, ToNat, Decimal, PadStart, Written;
    var d := Date(500, 1, 1);
    var p := Parts("1", '/', "1", '/', "0500", "");
    SmallNumerals();
    assert Format(d) == "500-01-01";
    assert Written(p) == "1/1/0500" by {
      WrittenAs("1", '/', "1", '/', "0500");
      assert "1" + ['/'] + "1" + ['/'] + "0500" == "1/1/0500";
    }
    ReadsWritten(p, d);
    FormatAgain(d);
  }

  lemma WrittenAs(a: string, s: char, b: string, t: char, c: string)
    ensures Written(Parts(a, s, b, t, c, "")) == a + [s] + b + [t] + c
  {
  }

  lemma SmallNumerals()
    ensures Decimal(500) == "500" && PadStart(Decimal(1), 2) == "01"
    ensures ToNat("1") == 1 && ToNat("0500") == 500
  {
    assert Decimal(5) == "5" && Decimal(50) == "50";
    ToNatDecimal(1);
    ToNatPadDecimal(500, 4);
    assert PadStart("500", 4) == "0500";
  }

  // ----- exactly which texts are read

  /** Three numerals with a slash or a hyphen between them are read exactly if their lengths are
      those of day, month and year, or of year, month and day, and they make up a date; behind an
      ISO date alone something may follow. */
  lemma ReadExactly(value: string, p: Parts)
    requires HasNumerals(p) && Written(p) == Trim(value)
    requires (p.s == '/' || p.s == '-') && (p.t == '/' || p.t == '-')
    requires p.rest == "" || !('0' <= p.rest[0] <= '9')
    ensures var dayFirst, yearFirst :=
              Date(ToNat(p.c), ToNat(p.b), ToNat(p.a)), Date(ToNat(p.a), ToNat(p.b), ToNat(p.c));
            var shortMonth := |p.b| == 1 || |p.b| == 2;
            Normalize(value) ==
            if (|p.a| == 1 || |p.a| == 2) && shortMonth && |p.c| == 4 && p.rest == "" then
              if IsValidCalendarDate(dayFirst) then Some(Format(dayFirst)) else None
            else if |p.a| == 4 && shortMonth && (|p.c| == 1 || |p.c| == 2) && p.rest == "" then
              if IsValidCalendarDate(yearFirst) then Some(Format(yearFirst)) else None
            else if |p.a| == 4 && |p.b| == 2 && |p.c| == 2 && p.s == '-' && p.t == '-'
                    && p.rest != "" && (p.rest[0] == 'T' || p.rest[0] == 't' || IsSpace(p.rest[0])) then
              if IsValidCalendarDate(yearFirst) then Some(Format(yearFirst)) else None
            else None
  {
    hide Split, Trim, Written, Format, IsValidCalendarDate;
    SplitWritten(p);
    WrittenNonEmpty(p);
    if |p.b| == 2 && |p.c| == 2 {
      IsoIsFormat(p);
    }
  }

  /** With any other character between the numerals a text is not read. */
  lemma OtherSeparators(value: string, p: Parts)
    requires HasNumerals(p) && Written(p) == Trim(value) && !IsDigit(p.s) && !IsDigit(p.t)
    requires !((p.s == '/' || p.s == '-') && (p.t == '/' || p.t == '-'))
    ensures Normalize(value) == None
  {
    hide Trim, Written;
    var tail := p.c + p.rest;
    Regroup(p);
    CutAnywhere(p.a, p.s, p.b + [p.t] + tail);
    CutAnywhere(p.b, p.t, tail);
  }

  lemma CutAnywhere(ds: string, sep: char, after: string)
    requires AllDigits(ds) && !IsDigit(sep)
    ensures Cut(ds + [sep] + after) == if IsSeparator(sep) then Some(Cutting(ds, sep, after)) else None
  {
    var s := ds + [sep] + after;
    DigitRunIs(ds, [sep] + after);
    assert s == ds + ([sep] + after);
    assert s[..|ds|] == ds && s[|ds|] == sep && s[|ds| + 1..] == after;
  }

  /** The calendar: months alternate between 31 and 30 days and start over in August, February has
      28, and one more in the years that four divides, of the centuries those that sixteen divides. */
  lemma CalendarMeaning(d: Date)
    ensures IsValidCalendarDate(d) <==>
            && 0 < d.year < 10000 && 0 < d.month < 13 && 0 < d.day
            && d.day <= (if d.month != 2 then 30 + (d.month + d.month / 8) % 2
                         else if d.year % 4 == 0 && (d.year % 25 != 0 || d.year % 16 == 0) then 29 else 28)
  {
    LeapYears(d.year);
  }

  lemma LeapYears(year: nat)
    ensures (year % 4 == 0 && (year % 100 != 0 || year % 400 == 0))
            <==> (year % 4 == 0 && (year % 25 != 0 || year % 16 == 0))
  {
    if year % 4 == 0 {
      Hundreds(year);
      if year % 100 == 0 {
        Centuries(year / 100);
        assert year == 100 * (year / 100);
      }
    }
  }

  lemma Hundreds(year: nat)
    requires year % 4 == 0
    ensures year % 100 == 0 <==> year % 25 == 0
  {
    var k, r := year / 100, year % 100;
    var f, g := year / 4, year / 25;
    assert year == 100 * k + r == 4 * f;
    assert r == 0 ==> year == 25 * (4 * k);
    assert year % 25 == 0 ==> r == 4 * (f - 25 * k) == 25 * (g - 4 * k);
  }

  lemma Centuries(century: nat)
    ensures (100 * century) % 400 == 0 <==> (100 * century) % 16 == 0
  {
    var q, r := century / 4, century % 4;
    assert century == 4 * q + r;
    assert 100 * century == 400 * q + 100 * r == 16 * (25 * q + 6 * r) + 4 * r;
  }
}

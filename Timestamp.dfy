/** Timestamp extraction from a comment: `get_comment_timestamp`, whose regex
    search is not modelled (its result is an input), and the two
    `datetime.strptime` formats it tries in turn, `'%H:%M, %d %B %Y'` and then
    `'%H:%M, %d %b %Y'`. */
module Timestamp {
  import opened Wrappers
  import opened Strings

  /** A naive `datetime` as `strptime` builds it (seconds are always zero). */
  datatype DateTime = DateTime(year: int, month: int, day: int, hour: int, minute: int)

  /** Month names of the C locale, lower-cased, as `%B` and `%b` compare them. */
  const FullMonths: seq<string> := ["january", "february", "march", "april", "may", "june",
    "july", "august", "september", "october", "november", "december"]
  const AbbrMonths: seq<string> := ["jan", "feb", "mar", "apr", "may", "jun",
    "jul", "aug", "sep", "oct", "nov", "dec"]

  predicate IsLeapYear(y: int) {
    y % 4 == 0 && (y % 100 != 0 || y % 400 == 0)
  }

  function DaysInMonth(y: int, m: int): (d: int)
    requires 1 <= m <= 12
    ensures 28 <= d <= 31
  {
    if m == 2 then (if IsLeapYear(y) then 29 else 28)
    else if m == 4 || m == 6 || m == 9 || m == 11 then 30
    else 31
  }

  /** The values `datetime` accepts for the fields `strptime` fills in. */
  predicate ValidDateTime(t: DateTime) {
    && 1 <= t.year <= 9999 && 1 <= t.month <= 12
    && 1 <= t.day <= DaysInMonth(t.year, t.month)
    && 0 <= t.hour <= 23 && 0 <= t.minute <= 59
  }

  /** February 29 is a valid date exactly in the leap years of the range. */
  lemma LeapDayIsValid(y: int, hour: int, minute: int)
    requires 0 <= hour <= 23 && 0 <= minute <= 59
    ensures ValidDateTime(DateTime(y, 2, 29, hour, minute)) <==> 1 <= y <= 9999 && IsLeapYear(y)
  {
  }

  /** `c.isspace()`, which is what `\s` matches in a `str` pattern. */
  predicate IsSpace(c: char) {
    var n := c as int;
    || n == 0x20 || 0x09 <= n <= 0x0D || 0x1C <= n <= 0x1F || n == 0x85 || n == 0xA0
    || n == 0x1680 || 0x2000 <= n <= 0x200A || n == 0x2028 || n == 0x2029
    || n == 0x202F || n == 0x205F || n == 0x3000
  }

  /** The character classes the compiled format scans runs of. */
  datatype CharClass = Digit | Space | NonSpace

  predicate InClass(c: char, cls: CharClass) {
    match cls
    case Digit => IsAsciiDigit(c)
    case Space => IsSpace(c)
    case NonSpace => !IsSpace(c)
  }

  /** Every character of `s[i..j]` is in `cls`. */
  predicate AllIn(s: string, i: nat, j: nat, cls: CharClass)
    requires i <= j <= |s|
  {
    forall k :: i <= k < j ==> InClass(s[k], cls)
  }

  /** The end of the longest run of characters of class `cls` starting at `i`. */
  function SpanFrom(s: string, i: nat, cls: CharClass): (j: nat)
    requires i <= |s|
    ensures i <= j <= |s| && AllIn(s, i, j, cls)
    ensures j == |s| || !InClass(s[j], cls)
    decreases |s| - i
  {
    if i == |s| || !InClass(s[i], cls) then i else SpanFrom(s, i + 1, cls)
  }

  /** The converse of `SpanFrom`'s contract: a run that stops at `j` ends at `j`. */
  lemma {:induction false} SpanFromStops(s: string, i: nat, j: nat, cls: CharClass)
    requires i <= j <= |s| && AllIn(s, i, j, cls)
    requires j == |s| || !InClass(s[j], cls)
    ensures SpanFrom(s, i, cls) == j
    decreases j - i
  {
    if i < j {
      SpanFromStops(s, i + 1, j, cls);
    }
  }

  function DigitValue(c: char): nat {
    if IsAsciiDigit(c) then c as int - '0' as int else 0
  }

  /** The number the digits `s[i..j]` denote. */
  function ValueOf(s: string, i: nat, j: nat): nat
    requires i <= j <= |s|
    decreases j - i
  {
    if i == j then 0 else 10 * ValueOf(s, i, j - 1) + DigitValue(s[j - 1])
  }

  /** The first position at or after `k` where `months` holds `name`, counted from 1. */
  function MonthFrom(name: string, months: seq<string>, k: nat): (r: Option<nat>)
    requires k <= |months|
    ensures r.Some? ==> k < r.value <= |months| && months[r.value - 1] == name
    ensures r.Some? ==> forall j :: k <= j < r.value - 1 ==> months[j] != name
    ensures r.None? ==> forall j :: k <= j < |months| ==> months[j] != name
    decreases |months| - k
  {
    if k == |months| then None
    else if months[k] == name then Some(k + 1)
    else MonthFrom(name, months, k + 1)
  }

  /** The month number of `token` in the table `months`: the position of its
      lower-cased form, counted from 1. */
  function MonthNumber(token: string, months: seq<string>): (r: Option<nat>)
    ensures r.Some? ==> 1 <= r.value <= |months| && months[r.value - 1] == AsciiLowerAll(token)
    ensures r.Some? ==> forall j :: 0 <= j < r.value - 1 ==> months[j] != AsciiLowerAll(token)
    ensures r.None? ==> AsciiLowerAll(token) !in months
  {
    MonthFrom(AsciiLowerAll(token), months, 0)
  }

  /** The fields of a signature date as the format's directives capture them. */
  datatype Fields = Fields(hour: nat, minute: nat, day: nat, monthName: string, year: nat)

  /** The values `strptime` starts from before any directive is read. */
  const Defaults: Fields := Fields(0, 0, 1, "", 1900)

  /** The pieces of a compiled `strptime` format: a directive, a literal
      character, or `\s+`, which every whitespace of the format becomes. */
  datatype Directive = Hour | Minute | Day | MonthName | Year | Literal(c: char) | Whitespace

  /** `'%H:%M, %d <month> %Y'`, the layout both formats share. */
  const Layout: seq<Directive> :=
    [Hour, Literal(':'), Minute, Literal(','), Whitespace, Day, Whitespace, MonthName, Whitespace, Year]

  /** A number of one digit or two read at `i`, between `lo` and `hi`, and the
      position after it. In the layout every number is followed by a character
      that is not a digit, so the regex's alternatives for `%H`, `%M` and `%d`
      match exactly when the whole run of digits has one or two digits and a
      value in range. */
  function Number(s: string, i: nat, lo: nat, hi: nat): (r: Option<(nat, nat)>)
    requires i <= |s|
    ensures r.Some? ==> lo <= r.value.0 <= hi && i < r.value.1 <= i + 2 && r.value.1 <= |s|
    ensures r.Some? ==> AllIn(s, i, r.value.1, Digit) && r.value.0 == ValueOf(s, i, r.value.1)
    ensures r.Some? ==> r.value.1 == |s| || !IsAsciiDigit(s[r.value.1])
  {
    var j := SpanFrom(s, i, Digit);
    if 1 <= j - i <= 2 && lo <= ValueOf(s, i, j) <= hi then Some((ValueOf(s, i, j), j)) else None
  }

  /** One piece of the format read at `i`: the fields with what it captured,
      and the position after it. */
  function Step(s: string, i: nat, d: Directive, f: Fields): (r: Option<(Fields, nat)>)
    requires i <= |s|
    ensures r.Some? ==> i < r.value.1 <= |s|
  {
    match d
    case Hour =>
      (match Number(s, i, 0, 23)
       case None => None
       case Some((v, j)) => Some((f.(hour := v), j)))
    case Minute =>
      (match Number(s, i, 0, 59)
       case None => None
       case Some((v, j)) => Some((f.(minute := v), j)))
    case Day =>
      (match Number(s, i, 1, 31)
       case None => None
       case Some((v, j)) => Some((f.(day := v), j)))
    case MonthName =>
      var j := SpanFrom(s, i, NonSpace);
      if j == i then None else Some((f.(monthName := s[i..j]), j))
    case Year =>
      if SpanFrom(s, i, Digit) < i + 4 then None else Some((f.(year := ValueOf(s, i, i + 4)), i + 4))
    case Literal(c) =>
      if i < |s| && s[i] == c then Some((f, i + 1)) else None
    case Whitespace =>
      var j := SpanFrom(s, i, Space);
      if j == i then None else Some((f, j))
  }

  /** The pieces `ds` read one after the other from `i`, followed by the check
      that no data remains. */
  function Scan(s: string, i: nat, ds: seq<Directive>, f: Fields): (r: Option<Fields>)
    requires i <= |s|
    decreases |ds|
  {
    if ds == [] then (if i == |s| then Some(f) else None)
    else match Step(s, i, ds[0], f)
      case None => None
      case Some((g, j)) => Scan(s, j, ds[1..], g)
  }

  /** The match of the regex that `strptime` builds from the layout, followed
      by its check that no data remains: the captured fields. */
  function Tokenize(s: string): Option<Fields> {
    Scan(s, 0, Layout, Defaults)
  }

  /** A scan whose last piece is `%Y` ends with four digits. */
  lemma {:induction false} ScanEndsWithYear(s: string, i: nat, ds: seq<Directive>, f: Fields)
    requires i <= |s| && ds != [] && ds[|ds| - 1] == Year
    requires Scan(s, i, ds, f).Some?
    ensures i + 4 <= |s| && AllIn(s, |s| - 4, |s|, Digit)
    decreases |ds|
  {
    var st := Step(s, i, ds[0], f);
    var j := st.value.1;
    if |ds| == 1 {
      assert SpanFrom(s, i, Digit) >= i + 4;
      assert j == |s|;
    } else {
      ScanEndsWithYear(s, j, ds[1..], st.value.0);
    }
  }

  /** What `strptime` does with the captured fields: look the month name up in
      `months`, then build the `datetime`, which refuses a year outside 1-9999
      and a day past the end of its month. */
  function Convert(f: Fields, months: seq<string>): (r: Option<DateTime>)
    ensures r.Some? ==> ValidDateTime(r.value)
    ensures r.Some? ==> r.value.month <= |months| && months[r.value.month - 1] == AsciiLowerAll(f.monthName)
    ensures r.Some? ==> r.value == DateTime(f.year, r.value.month, f.day, f.hour, f.minute)
  {
    match MonthNumber(f.monthName, months)
    case None => None
    case Some(month) =>
      var t := DateTime(f.year, month, f.day, f.hour, f.minute);
      if ValidDateTime(t) then Some(t) else None
  }

  /** `datetime.strptime(s, '%H:%M, %d <month> %Y')` where `<month>` ranges over
      the names in `months`, with `ValueError` as `None`. */
  function ParseSignatureDate(s: string, months: seq<string>): (r: Option<DateTime>)
    ensures r.Some? ==> ValidDateTime(r.value)
  {
    match Tokenize(s)
    case None => None
    case Some(f) => Convert(f, months)
  }

  /** `datetime.strptime(s, '%H:%M, %d %B %Y')`. */
  function ParseFullMonth(s: string): (r: Option<DateTime>)
    ensures r.Some? ==> Tokenize(s).Some? && 1 <= r.value.month <= 12
    ensures r.Some? ==> FullMonths[r.value.month - 1] == AsciiLowerAll(Tokenize(s).value.monthName)
  {
    ParseSignatureDate(s, FullMonths)
  }

  /** `datetime.strptime(s, '%H:%M, %d %b %Y')`. */
  function ParseAbbrMonth(s: string): (r: Option<DateTime>)
    ensures r.Some? ==> Tokenize(s).Some? && 1 <= r.value.month <= 12
    ensures r.Some? ==> AbbrMonths[r.value.month - 1] == AsciiLowerAll(Tokenize(s).value.monthName)
  {
    ParseSignatureDate(s, AbbrMonths)
  }

  /** `get_comment_timestamp`, given what the regex search for a signature
      date found in the comment: `None` when it found nothing, the matched text
      otherwise. The full-month format is tried first; the abbreviated one only
      when it fails. */
  function GetCommentTimestamp(found: Option<string>): (r: Option<DateTime>)
    ensures r.Some? ==> ValidDateTime(r.value)
    ensures found.None? ==> r.None?
    ensures found.Some? ==>
      && (r.Some? <==> ParseFullMonth(found.value).Some? || ParseAbbrMonth(found.value).Some?)
      && (ParseFullMonth(found.value).Some? ==> r == ParseFullMonth(found.value))
      && (ParseAbbrMonth(found.value).Some? ==> r == ParseAbbrMonth(found.value))
  {
    match found
    case None => None
    case Some(m) =>
      FormatsAgree(m);
      match ParseFullMonth(m)
      case Some(t) => Some(t)
      case None => ParseAbbrMonth(m)
  }

  /** Only "may" is both a full and an abbreviated month name. */
  lemma OnlyMayIsShared(t: string)
    requires t in FullMonths && t in AbbrMonths
    ensures t == "may"
  {
  }

  lemma MayIsFifth(months: seq<string>, k: nat)
    requires months == FullMonths || months == AbbrMonths
    requires k < |months| && months[k] == "may"
    ensures k == 4
  {
  }

  /** When both formats accept a text they agree on the date, so trying them in
      the other order would change nothing. */
  lemma FormatsAgree(s: string)
    ensures ParseFullMonth(s).Some? && ParseAbbrMonth(s).Some? ==> ParseFullMonth(s) == ParseAbbrMonth(s)
  {
    if ParseFullMonth(s).Some? && ParseAbbrMonth(s).Some? {
      var f := Tokenize(s).value;
      var full := Convert(f, FullMonths).value;
      var abbr := Convert(f, AbbrMonths).value;
      var t := AsciiLowerAll(f.monthName);
      assert FullMonths[full.month - 1] == t;
      assert AbbrMonths[abbr.month - 1] == t;
      OnlyMayIsShared(t);
      MayIsFifth(FullMonths, full.month - 1);
      MayIsFifth(AbbrMonths, abbr.month - 1);
    }
  }

  /** A text whose third-to-last character is not a digit, as when the search
      ends on a two-digit year after a non-digit, is rejected by both formats,
      since `%Y` wants four digits at the end. */
  lemma TwoDigitYearRejected(s: string, months: seq<string>)
    requires |s| >= 3 && !IsAsciiDigit(s[|s| - 3])
    ensures ParseSignatureDate(s, months) == None
  {
    if Tokenize(s).Some? {
      ScanEndsWithYear(s, 0, Layout, Defaults);
      assert false;
    }
  }

  /** `s` is laid out as the format demands. The parts are `s[..h]` (hour),
      `s[h]` (`:`), `s[h + 1..m]` (minute), `s[m]` (`,`), `s[m + 1..w1]`
      (whitespace), `s[w1..d]` (day), `s[d..w2]` (whitespace), `s[w2..n]`
      (month name), `s[n..w3]` (whitespace) and `s[w3..]` (year). */
  predicate HasLayout(s: string, h: nat, m: nat, w1: nat, d: nat, w2: nat, n: nat, w3: nat) {
    && 1 <= h <= 2 && h < |s| && s[h] == ':' && AllIn(s, 0, h, Digit) && ValueOf(s, 0, h) <= 23
    && h + 2 <= m <= h + 3 && m < |s| && s[m] == ',' && AllIn(s, h + 1, m, Digit) && ValueOf(s, h + 1, m) <= 59
    && m + 1 < w1 && w1 < d <= w1 + 2 && d < w2 < n < w3 && w3 + 4 == |s|
    && AllIn(s, m + 1, w1, Space) && AllIn(s, w1, d, Digit) && 1 <= ValueOf(s, w1, d) <= 31
    && AllIn(s, d, w2, Space) && AllIn(s, w2, n, NonSpace) && AllIn(s, n, w3, Space)
    && AllIn(s, w3, |s|, Digit)
  }

  /** A text laid out as the format demands is accepted, with the fields read
      off its parts. */
  lemma TokenizeAccepts(s: string, h: nat, m: nat, w1: nat, d: nat, w2: nat, n: nat, w3: nat)
    requires HasLayout(s, h, m, w1, d, w2, n, w3)
    ensures Tokenize(s) == Some(Fields(ValueOf(s, 0, h), ValueOf(s, h + 1, m), ValueOf(s, w1, d),
                                       s[w2..n], ValueOf(s, w3, |s|)))
  {
    var f1 := Defaults.(hour := ValueOf(s, 0, h));
    var f2 := f1.(minute := ValueOf(s, h + 1, m));
    NumberAt(s, 0, h, 0, 23);
    ScanNext(s, 0, 0, Hour, Defaults, f1, h);
    LiteralAt(s, h, ':', f1);
    ScanNext(s, h, 1, Literal(':'), f1, f1, h + 1);
    NumberAt(s, h + 1, m, 0, 59);
    ScanNext(s, h + 1, 2, Minute, f1, f2, m);
    LiteralAt(s, m, ',', f2);
    ScanNext(s, m, 3, Literal(','), f2, f2, m + 1);
    RestAccepts(s, m + 1, w1, d, w2, n, w3, f2);
  }

  /** A scan of the layout from its piece `k` that succeeds reads that piece
      first and goes on with the rest. */
  lemma ScanSplit(s: string, i: nat, k: nat, f: Fields) returns (g: Fields, j: nat)
    requires i <= |s| && k < |Layout| && Scan(s, i, Layout[k..], f).Some?
    ensures Step(s, i, Layout[k], f) == Some((g, j))
    ensures j <= |s| && Scan(s, j, Layout[k + 1..], g) == Scan(s, i, Layout[k..], f)
  {
    assert Layout[k..][0] == Layout[k];
    assert Layout[k..][1..] == Layout[k + 1..];
    var st := Step(s, i, Layout[k], f).value;
    g, j := st.0, st.1;
  }

  /** The converse of `TokenizeAccepts`: every text the format accepts is laid
      out as it demands, and the fields are those read off its parts. */
  lemma TokenizeInverts(s: string) returns (h: nat, m: nat, w1: nat, d: nat, w2: nat, n: nat, w3: nat)
    requires Tokenize(s).Some?
    ensures HasLayout(s, h, m, w1, d, w2, n, w3)
    ensures Tokenize(s) == Some(Fields(ValueOf(s, 0, h), ValueOf(s, h + 1, m), ValueOf(s, w1, d),
                                       s[w2..n], ValueOf(s, w3, |s|)))
  {
    assert Layout[0..] == Layout;
    var f0, j0 := ScanSplit(s, 0, 0, Defaults);
    h := j0;
    var f1, j1 := ScanSplit(s, h, 1, f0);
    var f2, j2 := ScanSplit(s, j1, 2, f1);
    m := j2;
    var f3, j3 := ScanSplit(s, m, 3, f2);
    w1, d, w2, n, w3 := RestInverts(s, j3, f3);
    TokenizeAccepts(s, h, m, w1, d, w2, n, w3);
  }

  /** The part of `TokenizeInverts` after the comma. */
  lemma RestInverts(s: string, i: nat, f: Fields) returns (w1: nat, d: nat, w2: nat, n: nat, w3: nat)
    requires i <= |s| && Scan(s, i, Layout[4..], f).Some?
    ensures i < w1 && w1 < d <= w1 + 2 && d < w2 < n < w3 && w3 + 4 == |s|
    ensures AllIn(s, i, w1, Space) && AllIn(s, w1, d, Digit) && 1 <= ValueOf(s, w1, d) <= 31
    ensures AllIn(s, d, w2, Space) && AllIn(s, w2, n, NonSpace) && AllIn(s, n, w3, Space)
    ensures AllIn(s, w3, |s|, Digit)
  {
    var f4, j4 := ScanSplit(s, i, 4, f);
    w1 := j4;
    var f5, j5 := ScanSplit(s, w1, 5, f4);
    d := j5;
    var f6, j6 := ScanSplit(s, d, 6, f5);
    w2 := j6;
    var f7, j7 := ScanSplit(s, w2, 7, f6);
    n := j7;
    var f8, j8 := ScanSplit(s, n, 8, f7);
    w3 := j8;
    var f9, j9 := ScanSplit(s, w3, 9, f8);
    assert Layout[10..] == [];
    assert j9 == |s|;
    assert SpanFrom(s, w3, Digit) >= w3 + 4;
  }

  /** A date `strptime` accepts comes from a text laid out as the format
      demands: hour, minute, day and year are the numbers of their parts, and
      the month is the table position of the month name, lowered. */
  lemma SignatureDateLayout(s: string, months: seq<string>)
    returns (h: nat, m: nat, w1: nat, d: nat, w2: nat, n: nat, w3: nat)
    requires ParseSignatureDate(s, months).Some?
    ensures HasLayout(s, h, m, w1, d, w2, n, w3)
    ensures var t := ParseSignatureDate(s, months).value;
      && t.hour == ValueOf(s, 0, h) && t.minute == ValueOf(s, h + 1, m)
      && t.day == ValueOf(s, w1, d) && t.year == ValueOf(s, w3, |s|)
      && 1 <= t.month <= |months| && months[t.month - 1] == AsciiLowerAll(s[w2..n])
  {
    ParsedFields(s, months);
    h, m, w1, d, w2, n, w3 := TokenizeInverts(s);
    var f := Tokenize(s).value;
    assert f.monthName == s[w2..n];
    var t := Convert(f, months).value;
    assert months[t.month - 1] == AsciiLowerAll(f.monthName);
  }

  /** An accepted date is the conversion of the fields the format read. */
  lemma ParsedFields(s: string, months: seq<string>)
    requires ParseSignatureDate(s, months).Some?
    ensures Tokenize(s).Some? && Convert(Tokenize(s).value, months) == ParseSignatureDate(s, months)
  {
  }

  /** The part of `TokenizeAccepts` after the comma: whitespace, day,
      whitespace, month name, whitespace and year. */
  lemma RestAccepts(s: string, i: nat, w1: nat, d: nat, w2: nat, n: nat, w3: nat, f: Fields)
    requires i < w1 && w1 < d <= w1 + 2 && d < w2 < n < w3 && w3 + 4 == |s|
    requires AllIn(s, i, w1, Space) && AllIn(s, w1, d, Digit) && 1 <= ValueOf(s, w1, d) <= 31
    requires AllIn(s, d, w2, Space) && AllIn(s, w2, n, NonSpace) && AllIn(s, n, w3, Space)
    requires AllIn(s, w3, |s|, Digit)
    ensures Scan(s, i, Layout[4..], f)
         == Some(f.(day := ValueOf(s, w1, d), monthName := s[w2..n], year := ValueOf(s, w3, |s|)))
  {
    var g := f.(day := ValueOf(s, w1, d));
    assert !IsSpace(s[w2]) by { assert InClass(s[w2], NonSpace); }
    DayAccepts(s, i, w1, d, w2, f);
    MonthYearAccepts(s, w2, n, w3, g);
    assert g.(monthName := s[w2..n], year := ValueOf(s, w3, |s|))
        == f.(day := ValueOf(s, w1, d), monthName := s[w2..n], year := ValueOf(s, w3, |s|));
  }

  /** Whitespace, a day and whitespace, up to the month name at `w2`. */
  lemma DayAccepts(s: string, i: nat, w1: nat, d: nat, w2: nat, f: Fields)
    requires i < w1 && w1 < d <= w1 + 2 && d < w2 < |s|
    requires AllIn(s, i, w1, Space) && AllIn(s, w1, d, Digit) && 1 <= ValueOf(s, w1, d) <= 31
    requires AllIn(s, d, w2, Space) && !IsSpace(s[w2])
    ensures Scan(s, i, Layout[4..], f) == Scan(s, w2, Layout[7..], f.(day := ValueOf(s, w1, d)))
  {
    var g := f.(day := ValueOf(s, w1, d));
    assert InClass(s[w1], Digit);
    BlankAt(s, i, w1, f);
    ScanNext(s, i, 4, Whitespace, f, f, w1);
    assert InClass(s[d], Space);
    NumberAt(s, w1, d, 1, 31);
    ScanNext(s, w1, 5, Day, f, g, d);
    BlankAt(s, d, w2, g);
    ScanNext(s, d, 6, Whitespace, g, g, w2);
  }

  /** The month name, whitespace and the year that ends the text. */
  lemma MonthYearAccepts(s: string, w2: nat, n: nat, w3: nat, f: Fields)
    requires w2 < n < w3 && w3 + 4 == |s|
    requires AllIn(s, w2, n, NonSpace) && AllIn(s, n, w3, Space) && AllIn(s, w3, |s|, Digit)
    ensures Scan(s, w2, Layout[7..], f) == Some(f.(monthName := s[w2..n], year := ValueOf(s, w3, |s|)))
  {
    var g := f.(monthName := s[w2..n]);
    var h := g.(year := ValueOf(s, w3, |s|));
    assert InClass(s[n], Space);
    SpanFromStops(s, w2, n, NonSpace);
    ScanNext(s, w2, 7, MonthName, f, g, n);
    assert InClass(s[w3], Digit);
    BlankAt(s, n, w3, g);
    ScanNext(s, n, 8, Whitespace, g, g, w3);
    YearAt(s, w3, g);
    ScanNext(s, w3, 9, Year, g, h, |s|);
  }

  /** A run of one digit or two that stops at `j`, with a value in range, is
      the number `Number` reads. */
  lemma NumberAt(s: string, i: nat, j: nat, lo: nat, hi: nat)
    requires i < j <= i + 2 && j <= |s| && AllIn(s, i, j, Digit)
    requires j == |s| || !IsAsciiDigit(s[j])
    requires lo <= ValueOf(s, i, j) <= hi
    ensures Number(s, i, lo, hi) == Some((ValueOf(s, i, j), j))
  {
    SpanFromStops(s, i, j, Digit);
  }

  /** A literal character is read when it is there. */
  lemma LiteralAt(s: string, i: nat, c: char, f: Fields)
    requires i < |s| && s[i] == c
    ensures Step(s, i, Literal(c), f) == Some((f, i + 1))
  {
  }

  /** Four digits that end the text are what `%Y` reads. */
  lemma YearAt(s: string, i: nat, f: Fields)
    requires i + 4 == |s| && AllIn(s, i, |s|, Digit)
    ensures Step(s, i, Year, f) == Some((f.(year := ValueOf(s, i, |s|)), |s|))
  {
    SpanFromStops(s, i, |s|, Digit);
  }

  /** A run of whitespace that stops at `j`, before a character that is not
      whitespace, is what `\s+` reads. */
  lemma BlankAt(s: string, i: nat, j: nat, f: Fields)
    requires i < j < |s| && AllIn(s, i, j, Space) && !IsSpace(s[j])
    ensures Step(s, i, Whitespace, f) == Some((f, j))
  {
    SpanFromStops(s, i, j, Space);
  }

  /** Reading the piece at position `k` of the layout moves the scan on to the
      rest of the layout. */
  lemma ScanNext(s: string, i: nat, k: nat, d: Directive, f: Fields, g: Fields, j: nat)
    requires i <= |s| && k < |Layout| && Layout[k] == d
    requires Step(s, i, d, f) == Some((g, j))
    ensures Scan(s, i, Layout[k..], f) == Scan(s, j, Layout[k + 1..], g)
  {
    assert Layout[k..][1..] == Layout[k + 1..];
  }

  /** A signature date as Wikipedia writes it is read by the `%B` layout. */
  lemma SignatureIsParsed()
    ensures ParseFullMonth("12:34, 5 May 2001") == Some(DateTime(2001, 5, 5, 12, 34))
  {
    SampleIsTokenized();
    MayIsNamed();
  }

  /** The fields the layout reads off that date. */
  lemma SampleIsTokenized()
    ensures Tokenize("12:34, 5 May 2001") == Some(Fields(12, 34, 5, "May", 2001))
  {
    var s := "12:34, 5 May 2001";
    SampleHasLayout();
    TokenizeAccepts(s, 2, 5, 7, 8, 9, 12, 13);
  }

  /** That text is laid out as the format demands, and its parts hold those
      fields. */
  lemma SampleHasLayout()
    ensures var s := "12:34, 5 May 2001";
      && HasLayout(s, 2, 5, 7, 8, 9, 12, 13) && s[9..12] == "May"
      && ValueOf(s, 0, 2) == 12 && ValueOf(s, 3, 5) == 34 && ValueOf(s, 7, 8) == 5 && ValueOf(s, 13, 17) == 2001
  {
    var s := "12:34, 5 May 2001";
    assert s[9..12] == "May";
    SampleDigits();
    SampleBlanks();
  }

  /** The digit parts of that text and their values. */
  lemma SampleDigits()
    ensures var s := "12:34, 5 May 2001";
      && AllIn(s, 0, 2, Digit) && AllIn(s, 3, 5, Digit) && AllIn(s, 7, 8, Digit) && AllIn(s, 13, 17, Digit)
      && ValueOf(s, 0, 2) == 12 && ValueOf(s, 3, 5) == 34 && ValueOf(s, 7, 8) == 5 && ValueOf(s, 13, 17) == 2001
  {
  }

  /** The whitespace parts of that text, and its month word. */
  lemma SampleBlanks()
    ensures var s := "12:34, 5 May 2001";
      && AllIn(s, 6, 7, Space) && AllIn(s, 8, 9, Space) && AllIn(s, 12, 13, Space) && AllIn(s, 9, 12, NonSpace)
  {
  }

  /** `May` names the fifth month of the `%B` table. */
  lemma MayIsNamed()
    ensures Convert(Fields(12, 34, 5, "May", 2001), FullMonths) == Some(DateTime(2001, 5, 5, 12, 34))
  {
    var lowered := AsciiLowerAll("May");
    assert lowered[0] == 'm' && lowered[1] == 'a' && lowered[2] == 'y';
    assert lowered == FullMonths[4];
    assert forall j :: 0 <= j < 4 ==> |FullMonths[j]| != 3;
    ConvertAccepts(Fields(12, 34, 5, "May", 2001), FullMonths, 4);
  }

  /** The converse of `Convert`'s contract: a month name found first at
      position `k` of the table, with a year `datetime` allows and a day within
      that month, gives the date with month `k + 1`. */
  lemma ConvertAccepts(f: Fields, months: seq<string>, k: nat)
    requires f.hour <= 23 && f.minute <= 59 && 1 <= f.day <= 31
    requires |months| == 12 && k < 12
    requires months[k] == AsciiLowerAll(f.monthName)
    requires forall j :: 0 <= j < k ==> months[j] != months[k]
    requires 1 <= f.year <= 9999 && f.day <= DaysInMonth(f.year, k + 1)
    ensures Convert(f, months) == Some(DateTime(f.year, k + 1, f.day, f.hour, f.minute))
  {
    assert months[k] in months;
    assert MonthNumber(f.monthName, months) == Some(k + 1);
  }
}

/** `parse_installation_date(date_str)`: finds the leftmost 21-character
    window shaped like `\d{2}-[a-zA-Z]{3}-\d{2} \d{2}:\d{2}:\d{2} [APMapm]{2}`
    and reads it with `datetime.strptime(..., '%d-%b-%y %I:%M:%S %p')`;
    any failure gives None. A datetime is the tuple of its six fields. */
module InstallDate {
  import opened Wrappers
  import opened Text

  datatype DateTime = DateTime(year: int, month: int, day: int, hour: int, minute: int, second: int)

  const WindowLength: nat := 21
  /** `%b` in the English locale, as displayed. */
  const MonthAbbrs: seq<string> :=
    ["Jan", "Feb", "Mar", "Apr", "May", "Jun", "Jul", "Aug", "Sep", "Oct", "Nov", "Dec"]
  /** The same names lower-cased: `%b` is matched case-insensitively. */
  const MonthNames: seq<string> :=
    ["jan", "feb", "mar", "apr", "may", "jun", "jul", "aug", "sep", "oct", "nov", "dec"]

  predicate IsDigit(c: char) { '0' <= c <= '9' }
  predicate IsLetter(c: char) { 'a' <= c <= 'z' || 'A' <= c <= 'Z' }
  predicate IsMarkerLetter(c: char) {
    c == 'A' || c == 'P' || c == 'M' || c == 'a' || c == 'p' || c == 'm'
  }

  /** A match of the search pattern. */
  predicate Shaped(w: string) {
    && |w| == WindowLength
    && IsDigit(w[0]) && IsDigit(w[1]) && w[2] == '-'
    && IsLetter(w[3]) && IsLetter(w[4]) && IsLetter(w[5]) && w[6] == '-'
    && IsDigit(w[7]) && IsDigit(w[8]) && w[9] == ' '
    && IsDigit(w[10]) && IsDigit(w[11]) && w[12] == ':'
    && IsDigit(w[13]) && IsDigit(w[14]) && w[15] == ':'
    && IsDigit(w[16]) && IsDigit(w[17]) && w[18] == ' '
    && IsMarkerLetter(w[19]) && IsMarkerLetter(w[20])
  }

  predicate ShapedAt(s: string, i: nat) {
    i + WindowLength <= |s| && Shaped(s[i..i + WindowLength])
  }

  lemma ShapedAtDayField(s: string, i: nat)
    requires ShapedAt(s, i)
    ensures IsDigit(s[i]) && IsDigit(s[i + 1]) && s[i + 2] == '-'
  {
    var w := s[i..i + WindowLength];
    assert w[0] == s[i] && w[1] == s[i + 1] && w[2] == s[i + 2];
  }

  /** `re.search` from position `from`: the leftmost window that matches. */
  function FindWindowFrom(s: string, from: nat): (r: Option<nat>)
    ensures r.Some? ==> from <= r.value && ShapedAt(s, r.value)
    ensures r.Some? ==> forall j :: from <= j < r.value ==> !ShapedAt(s, j)
    ensures r.None? ==> forall j :: from <= j ==> !ShapedAt(s, j)
    decreases |s| - from
  {
    if from + WindowLength > |s| then None
    else if ShapedAt(s, from) then Some(from)
    else FindWindowFrom(s, from + 1)
  }

  function DigitValue(c: char): int
    requires IsDigit(c)
  {
    c as int - '0' as int
  }

  function TwoDigits(hi: char, lo: char): int
    requires IsDigit(hi) && IsDigit(lo)
  {
    10 * DigitValue(hi) + DigitValue(lo)
  }

  /** Month number of a `%b` field, compared case-insensitively. */
  function MonthNumber(name: string): (r: Option<int>)
    ensures r.Some? ==> 1 <= r.value <= 12 && Lower(name) == MonthNames[r.value - 1]
    ensures r.None? ==> forall m :: 0 <= m < 12 ==> Lower(name) != MonthNames[m]
  {
    MonthFrom(Lower(name), 0)
  }

  function MonthFrom(lowered: string, m: nat): (r: Option<int>)
    requires m <= 12
    ensures r.Some? ==> m < r.value <= 12 && lowered == MonthNames[r.value - 1]
    ensures r.None? ==> forall k :: m <= k < 12 ==> lowered != MonthNames[k]
    decreases 12 - m
  {
    if m == 12 then None
    else if lowered == MonthNames[m] then Some(m + 1)
    else MonthFrom(lowered, m + 1)
  }

  lemma MonthNamesDistinct(i: int, j: int)
    requires 0 <= i < j < 12
    ensures MonthNames[i] != MonthNames[j]
  {
  }

  lemma MonthAbbrFacts(k: int)
    requires 0 <= k < 12
    ensures |MonthAbbrs[k]| == 3
    ensures IsLetter(MonthAbbrs[k][0]) && IsLetter(MonthAbbrs[k][1]) && IsLetter(MonthAbbrs[k][2])
    ensures Lower(MonthAbbrs[k]) == MonthNames[k]
  {
  }

  /** `%y`: 69-99 are 19xx, 00-68 are 20xx. */
  function CenturyYear(yy: int): int {
    if yy <= 68 then 2000 + yy else 1900 + yy
  }

  predicate IsLeapYear(y: int) {
    y % 4 == 0 && (y % 100 != 0 || y % 400 == 0)
  }

  function DaysInMonth(year: int, month: int): int
    requires 1 <= month <= 12
  {
    if month == 2 then (if IsLeapYear(year) then 29 else 28)
    else if month == 4 || month == 6 || month == 9 || month == 11 then 30
    else 31
  }

  /** `%I` with `%p`: 12 AM is 0, 12 PM is 12, any other PM hour adds 12. */
  function Hour24(hour12: int, pm: bool): int {
    if !pm then (if hour12 == 12 then 0 else hour12)
    else (if hour12 == 12 then 12 else hour12 + 12)
  }

  /** The datetimes the parser can produce. */
  predicate Valid(d: DateTime) {
    && 1969 <= d.year <= 2068
    && 1 <= d.month <= 12
    && 1 <= d.day <= DaysInMonth(d.year, d.month)
    && 0 <= d.hour < 24 && 0 <= d.minute < 60 && 0 <= d.second < 60
  }

  /** `strptime(w, '%d-%b-%y %I:%M:%S %p')` on a matched window. */
  function ParseWindow(w: string): (r: Option<DateTime>)
    requires Shaped(w)
    ensures r.Some? ==> Valid(r.value)
  {
    Assemble(TwoDigits(w[0], w[1]), MonthNumber(w[3..6]), TwoDigits(w[7], w[8]),
             TwoDigits(w[10], w[11]), TwoDigits(w[13], w[14]), TwoDigits(w[16], w[17]),
             Lower(w[19..21]))
  }

  /** The checks `strptime` and the `datetime` constructor make on the
      fields: a known month, a day that month has, hour 1-12, minute and
      second 0-59, marker am or pm. */
  function Assemble(day: int, month: Option<int>, yy: int, hour12: int, minute: int,
                    second: int, marker: string): (r: Option<DateTime>)
    requires 0 <= yy < 100 && 0 <= minute && 0 <= second
    requires month.Some? ==> 1 <= month.value <= 12
    ensures r.Some? ==> Valid(r.value)
  {
    var year := CenturyYear(yy);
    if month.None? || (marker != "am" && marker != "pm") then None
    else if 1 <= day <= DaysInMonth(year, month.value) && 1 <= hour12 <= 12
            && minute <= 59 && second <= 59 then
      Some(DateTime(year, month.value, day, Hour24(hour12, marker == "pm"), minute, second))
    else None
  }

  /** The search stops at the first window that matches. */
  lemma FindWindowLeftmost(s: string)
    ensures forall i: nat :: ShapedAt(s, i) && (forall j: nat :: j < i ==> !ShapedAt(s, j))
                             ==> FindWindowFrom(s, 0) == Some(i)
  {
    forall i: nat | ShapedAt(s, i) && (forall j: nat :: j < i ==> !ShapedAt(s, j))
      ensures FindWindowFrom(s, 0) == Some(i)
    {
    }
  }

  /** `parse_installation_date`: only the leftmost matching window is read,
      and without a match the result is None. */
  function ParseInstallationDate(s: string): (r: Option<DateTime>)
    ensures r.Some? ==> Valid(r.value)
    ensures r.Some? ==> exists i: nat :: ShapedAt(s, i) && r == ParseWindow(s[i..i + WindowLength])
    ensures forall i: nat :: ShapedAt(s, i) && (forall j: nat :: j < i ==> !ShapedAt(s, j))
                             ==> r == ParseWindow(s[i..i + WindowLength])
    ensures (forall i: nat :: !ShapedAt(s, i)) ==> r.None?
  {
    FindWindowLeftmost(s);
    match FindWindowFrom(s, 0)
    case None => None
    case Some(i) => ParseWindow(s[i..i + WindowLength])
  }

  // ---- Formatting: the inverse of the parser, used to state what it accepts.

  function DigitChar(n: int): (c: char)
    requires 0 <= n < 10
    ensures IsDigit(c) && DigitValue(c) == n
  {
    ('0' as int + n) as char
  }

  function Hour12(h: int): int {
    if h % 12 == 0 then 12 else h % 12
  }

  /** `d` written as `DD-Mon-YY HH:MM:SS AM`. */
  function Format(d: DateTime): (w: string)
    requires Valid(d)
    ensures |w| == WindowLength
  {
    var mon := MonthAbbrs[d.month - 1];
    MonthAbbrFacts(d.month - 1);
    var yy := d.year % 100;
    var h := Hour12(d.hour);
    [ DigitChar(d.day / 10), DigitChar(d.day % 10), '-', mon[0], mon[1], mon[2], '-',
      DigitChar(yy / 10), DigitChar(yy % 10), ' ',
      DigitChar(h / 10), DigitChar(h % 10), ':',
      DigitChar(d.minute / 10), DigitChar(d.minute % 10), ':',
      DigitChar(d.second / 10), DigitChar(d.second % 10), ' ',
      if d.hour < 12 then 'A' else 'P', 'M' ]
  }

  lemma FormatShaped(d: DateTime)
    requires Valid(d)
    ensures Shaped(Format(d))
  {
    var w := Format(d);
    MonthAbbrFacts(d.month - 1);
    assert IsDigit(w[0]) && IsDigit(w[1]) && w[2] == '-';
    assert IsLetter(w[3]) && IsLetter(w[4]) && IsLetter(w[5]) && w[6] == '-';
    assert IsDigit(w[7]) && IsDigit(w[8]) && w[9] == ' ';
    assert IsDigit(w[10]) && IsDigit(w[11]) && w[12] == ':';
    assert IsDigit(w[13]) && IsDigit(w[14]) && w[15] == ':';
    assert IsDigit(w[16]) && IsDigit(w[17]) && w[18] == ' ';
    assert IsMarkerLetter(w[19]) && IsMarkerLetter(w[20]);
  }

  /** Every month abbreviation ends in two lower-case letters. */
  lemma MonthAbbrTails(k: int)
    requires 0 <= k < 12
    ensures |MonthAbbrs[k]| == 3
    ensures 'a' <= MonthAbbrs[k][1] <= 'z' && 'a' <= MonthAbbrs[k][2] <= 'z'
  {
  }

  /** A window holds "NT" only inside its month field. */
  lemma ShapedNoNT(w: string)
    requires Shaped(w) && w[4] != 'T' && w[5] != 'T'
    ensures !ContainsNT(w)
  {
    forall j | 0 <= j < |w| - 1
      ensures !(w[j] == 'N' && w[j + 1] == 'T')
    {
    }
  }

  /** A formatted datetime contains no "NT", so stripping leaves it alone. */
  lemma FormatNoNT(d: DateTime)
    requires Valid(d)
    ensures !ContainsNT(Format(d))
  {
    FormatShaped(d);
    FormatMonth(d);
    MonthAbbrTails(d.month - 1);
    ShapedNoNT(Format(d));
  }

  lemma DigitsOfValue(hi: char, lo: char)
    requires IsDigit(hi) && IsDigit(lo)
    ensures DigitChar(TwoDigits(hi, lo) / 10) == hi && DigitChar(TwoDigits(hi, lo) % 10) == lo
  {
  }

  lemma ValueOfDigits(n: int)
    requires 0 <= n < 100
    ensures TwoDigits(DigitChar(n / 10), DigitChar(n % 10)) == n
  {
  }

  lemma MonthRoundTrip(m: int)
    requires 1 <= m <= 12
    ensures MonthNumber(MonthAbbrs[m - 1]) == Some(m)
  {
    MonthAbbrFacts(m - 1);
    var r := MonthNumber(MonthAbbrs[m - 1]);
    if r.value < m {
      MonthNamesDistinct(r.value - 1, m - 1);
    } else if r.value > m {
      MonthNamesDistinct(m - 1, r.value - 1);
    }
  }

  lemma HourRoundTrip(h: int)
    requires 0 <= h < 24
    ensures 1 <= Hour12(h) <= 12
    ensures Hour24(Hour12(h), h >= 12) == h
  {
  }

  lemma AssembleFormat(d: DateTime)
    requires Valid(d)
    ensures Assemble(d.day, Some(d.month), d.year % 100, Hour12(d.hour), d.minute, d.second,
                     if d.hour < 12 then "am" else "pm") == Some(d)
  {
    HourRoundTrip(d.hour);
  }

  /** Every datetime the parser can produce is read back from its own
      formatting. */
  lemma ParseFormat(d: DateTime)
    requires Valid(d)
    ensures Shaped(Format(d))
    ensures ParseWindow(Format(d)) == Some(d)
  {
    var w := Format(d);
    FormatShaped(d);
    MonthAbbrFacts(d.month - 1);
    assert w[3..6] == MonthAbbrs[d.month - 1];
    MonthRoundTrip(d.month);
    HourRoundTrip(d.hour);
    var marker := if d.hour < 12 then "am" else "pm";
    assert Lower(w[19..21]) == marker;
    ValueOfDigits(d.day);
    assert TwoDigits(w[0], w[1]) == d.day;
    ValueOfDigits(d.year % 100);
    assert TwoDigits(w[7], w[8]) == d.year % 100;
    ValueOfDigits(Hour12(d.hour));
    assert TwoDigits(w[10], w[11]) == Hour12(d.hour);
    ValueOfDigits(d.minute);
    assert TwoDigits(w[13], w[14]) == d.minute;
    ValueOfDigits(d.second);
    assert TwoDigits(w[16], w[17]) == d.second;
    AssembleFormat(d);
  }

  /** A date preceded by text without digits (such as "NT AUTHORITY\SYSTEM ")
      is found and read back. */
  lemma ParseAfterDigitFreePrefix(p: string, d: DateTime)
    requires Valid(d)
    requires forall k :: 0 <= k < |p| ==> !IsDigit(p[k])
    ensures ParseInstallationDate(p + Format(d)) == Some(d)
  {
    var s := p + Format(d);
    ParseFormat(d);
    assert s[|p|..|p| + WindowLength] == Format(d);
    assert ShapedAt(s, |p|);
    forall j | 0 <= j < |p|
      ensures !ShapedAt(s, j)
    {
      assert s[j] == p[j];
      if j + WindowLength <= |s| {
        assert s[j..j + WindowLength][0] == s[j];
      }
    }
  }

  /** Only the leftmost match is read: a window the pattern accepts at the
      start of the string decides the result, whatever follows it. */
  lemma FirstWindowDecides(b: string, rest: string)
    requires Shaped(b)
    ensures ParseInstallationDate(b + rest) == ParseWindow(b)
  {
    var s := b + rest;
    assert s[0..WindowLength] == b;
    assert ShapedAt(s, 0);
  }

  /** A text without two digits followed by a dash holds no date window. */
  lemma NoWindowWithoutDayField(s: string)
    requires forall i :: 0 <= i < |s| - 2 ==> !(IsDigit(s[i]) && IsDigit(s[i + 1]) && s[i + 2] == '-')
    ensures ParseInstallationDate(s) == None
  {
    if FindWindowFrom(s, 0).Some? {
      ShapedAtDayField(s, FindWindowFrom(s, 0).value);
    }
  }

  /** "00-Jan-24 01:00:00 AM" has the searched shape but day 00 is refused. */
  lemma DayZeroRefused()
    ensures Shaped("00-Jan-24 01:00:00 AM")
    ensures ParseWindow("00-Jan-24 01:00:00 AM") == None
  {
    var bad := "00-Jan-24 01:00:00 AM";
    assert TwoDigits(bad[0], bad[1]) == 0;
  }

  /** A later, valid date is never tried when an earlier window has the
      right shape but is not a date. */
  lemma LaterWindowNotTried(d: DateTime)
    requires Valid(d)
    ensures ParseInstallationDate(Format(d)) == Some(d)
    ensures ParseInstallationDate("00-Jan-24 01:00:00 AM" + " " + Format(d)) == None
  {
    var bad := "00-Jan-24 01:00:00 AM";
    ParseAfterDigitFreePrefix("", d);
    assert "" + Format(d) == Format(d);
    DayZeroRefused();
    FirstWindowDecides(bad, " " + Format(d));
    assert bad + (" " + Format(d)) == bad + " " + Format(d);
  }

  lemma LowerShaped(w: string)
    requires Shaped(w)
    ensures Shaped(Lower(w))
    ensures ParseWindow(Lower(w)) == ParseWindow(w)
  {
    var l := Lower(w);
    assert Lower(l[3..6]) == Lower(w[3..6]);
    assert Lower(l[19..21]) == Lower(w[19..21]);
  }

  /** `d` is what `strptime` reads from the fields of window `w`. */
  predicate ReadsAs(w: string, d: DateTime)
    requires Shaped(w)
  {
    && Valid(d)
    && d.day == TwoDigits(w[0], w[1])
    && MonthNumber(w[3..6]) == Some(d.month)
    && d.year == CenturyYear(TwoDigits(w[7], w[8]))
    && 1 <= TwoDigits(w[10], w[11]) <= 12
    && (Lower(w[19..21]) == "am" || Lower(w[19..21]) == "pm")
    && d.hour == Hour24(TwoDigits(w[10], w[11]), Lower(w[19..21]) == "pm")
    && d.minute == TwoDigits(w[13], w[14])
    && d.second == TwoDigits(w[16], w[17])
  }

  lemma ParseWindowFields(w: string)
    requires Shaped(w) && ParseWindow(w).Some?
    ensures ReadsAs(w, ParseWindow(w).value)
  {
  }

  lemma MarkerCase(w: string, pm: bool)
    requires Shaped(w)
    requires Lower(w[19..21]) == (if pm then "pm" else "am")
    ensures LowerChar(w[19]) == (if pm then 'p' else 'a') && LowerChar(w[20]) == 'm'
  {
    assert Lower(w[19..21])[0] == LowerChar(w[19]);
    assert Lower(w[19..21])[1] == LowerChar(w[20]);
  }

  /** Digits and separators of a successfully read window are exactly those
      its datetime formats to. */
  lemma DigitsAgree(w: string, d: DateTime, pm: bool)
    requires Shaped(w) && Valid(d)
    requires d.day == TwoDigits(w[0], w[1])
    requires d.year == CenturyYear(TwoDigits(w[7], w[8]))
    requires 1 <= TwoDigits(w[10], w[11]) <= 12
    requires d.hour == Hour24(TwoDigits(w[10], w[11]), pm)
    requires d.minute == TwoDigits(w[13], w[14])
    requires d.second == TwoDigits(w[16], w[17])
    ensures var f := Format(d);
      forall k :: 0 <= k < WindowLength && !(3 <= k < 6) && k < 19 ==> f[k] == w[k]
  {
    var f := Format(d);
    var yy := TwoDigits(w[7], w[8]);
    CenturyYearDigits(yy);
    Hour12OfHour24(TwoDigits(w[10], w[11]), pm);
    DigitsOfValue(w[0], w[1]);
    assert f[0] == w[0] && f[1] == w[1];
    DigitsOfValue(w[7], w[8]);
    assert f[7] == w[7] && f[8] == w[8];
    DigitsOfValue(w[10], w[11]);
    assert f[10] == w[10] && f[11] == w[11];
    DigitsOfValue(w[13], w[14]);
    assert f[13] == w[13] && f[14] == w[14];
    DigitsOfValue(w[16], w[17]);
    assert f[16] == w[16] && f[17] == w[17];
  }

  lemma CenturyYearDigits(yy: int)
    requires 0 <= yy < 100
    ensures CenturyYear(yy) % 100 == yy
  {
    if yy <= 68 {
      assert 2000 + yy == 20 * 100 + yy;
    } else {
      assert 1900 + yy == 19 * 100 + yy;
    }
  }

  lemma Hour12OfHour24(h12: int, pm: bool)
    requires 1 <= h12 <= 12
    ensures Hour12(Hour24(h12, pm)) == h12
  {
  }

  /** Month letters and the AM/PM marker agree up to case. */
  lemma LettersAgree(w: string, d: DateTime)
    requires Shaped(w) && Valid(d)
    requires MonthNumber(w[3..6]) == Some(d.month)
    requires 1 <= TwoDigits(w[10], w[11]) <= 12
    requires Lower(w[19..21]) == "am" || Lower(w[19..21]) == "pm"
    requires d.hour == Hour24(TwoDigits(w[10], w[11]), Lower(w[19..21]) == "pm")
    ensures var f := Format(d);
      forall k :: (3 <= k < 6) ==> LowerChar(f[k]) == LowerChar(w[k])
  {
    var f := Format(d);
    var name, mon := w[3..6], MonthAbbrs[d.month - 1];
    MonthLetters(name, d.month);
    FormatMonth(d);
    assert name[0] == w[3] && name[1] == w[4] && name[2] == w[5];
    MarkerLetters(w, TwoDigits(w[10], w[11]), d);
  }

  lemma FormatMonth(d: DateTime)
    requires Valid(d)
    ensures var f, mon := Format(d), MonthAbbrs[d.month - 1];
      f[3] == mon[0] && f[4] == mon[1] && f[5] == mon[2]
  {
  }

  lemma MonthLetters(name: string, m: int)
    requires MonthNumber(name) == Some(m)
    ensures 1 <= m <= 12 && |name| == 3
    ensures var mon := MonthAbbrs[m - 1];
      && LowerChar(mon[0]) == LowerChar(name[0])
      && LowerChar(mon[1]) == LowerChar(name[1])
      && LowerChar(mon[2]) == LowerChar(name[2])
  {
    MonthAbbrFacts(m - 1);
    var mon := MonthAbbrs[m - 1];
    assert Lower(name) == Lower(mon);
    forall k | 0 <= k < 3
      ensures LowerChar(mon[k]) == LowerChar(name[k])
    {
      assert Lower(name)[k] == LowerChar(name[k]);
      assert Lower(mon)[k] == LowerChar(mon[k]);
    }
  }

  lemma MarkerLetters(w: string, h12: int, d: DateTime)
    requires Shaped(w) && Valid(d) && 1 <= h12 <= 12
    requires Lower(w[19..21]) == "am" || Lower(w[19..21]) == "pm"
    requires d.hour == Hour24(h12, Lower(w[19..21]) == "pm")
    ensures var f := Format(d);
      LowerChar(f[19]) == LowerChar(w[19]) && LowerChar(f[20]) == LowerChar(w[20])
  {
    var pm := Lower(w[19..21]) == "pm";
    assert (d.hour >= 12) == pm;
    MarkerCase(w, pm);
  }

  lemma ParseWindowCase(w: string, d: DateTime)
    requires Shaped(w) && ReadsAs(w, d)
    ensures Lower(w) == Lower(Format(d))
  {
    DigitsAgree(w, d, Lower(w[19..21]) == "pm");
    LettersAgree(w, d);
    FieldsAgree(w, Format(d));
  }

  lemma FieldsAgree(w: string, f: string)
    requires |w| == |f| == WindowLength
    requires forall k :: 0 <= k < WindowLength && !(3 <= k < 6) && k < 19 ==> f[k] == w[k]
    requires forall k :: (3 <= k < 6 || 19 <= k < WindowLength) ==> LowerChar(f[k]) == LowerChar(w[k])
    ensures Lower(w) == Lower(f)
  {
    forall k | 0 <= k < WindowLength
      ensures LowerChar(w[k]) == LowerChar(f[k])
    {
      if !((3 <= k < 6) || 19 <= k) {
        assert f[k] == w[k];
      }
    }
    LowerAgrees(w, f);
  }

  /** A window is accepted exactly when, up to letter case, it is the
      formatting of a valid datetime, and then it denotes that datetime. */
  lemma ParseWindowExactly(w: string, d: DateTime)
    requires Shaped(w)
    ensures ParseWindow(w) == Some(d) <==> Valid(d) && Lower(w) == Lower(Format(d))
  {
    if ParseWindow(w) == Some(d) {
      ParseWindowFields(w);
      ParseWindowCase(w, d);
    }
    if Valid(d) && Lower(w) == Lower(Format(d)) {
      ParseFormat(d);
      LowerShaped(w);
      LowerShaped(Format(d));
    }
  }

  /** Chronological order: the lexicographic order of the fields. */
  predicate DateLe(a: DateTime, b: DateTime) {
    if a.year != b.year then a.year < b.year
    else if a.month != b.month then a.month < b.month
    else if a.day != b.day then a.day < b.day
    else if a.hour != b.hour then a.hour < b.hour
    else if a.minute != b.minute then a.minute < b.minute
    else a.second <= b.second
  }

  lemma DateLeTotalOrder(a: DateTime, b: DateTime, c: DateTime)
    ensures DateLe(a, b) || DateLe(b, a)
    ensures DateLe(a, b) && DateLe(b, a) ==> a == b
    ensures DateLe(a, b) && DateLe(b, c) ==> DateLe(a, c)
  {
  }
}

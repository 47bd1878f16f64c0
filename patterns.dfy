/**
 * The four anchored header patterns of the patch parser (R_HASH_LINE,
 * R_AUTHOR_LINE, R_DATE_LINE and R_SUBJECT_LINE in src/patch.rs), written
 * out as predicates over character classes. Each pattern has a matcher that
 * returns the capture groups the parser keeps (or None when the line does
 * not match), and a renderer that builds a matching line from its parts;
 * the lemmas prove that the two are inverse to each other.
 *
 * `\d` is read as an ASCII digit and `\s` as an ASCII white-space character;
 * the regular-expression library reads both as Unicode classes. `.` is any
 * character except a line feed.
 */
module PatchPatterns {
  import opened Wrappers

  // ---------------------------------------------------------------------
  // Character classes

  /** `\d` */
  predicate IsDigit(c: char) { '0' <= c <= '9' }

  /** `[A-Z]` */
  predicate IsUpper(c: char) { 'A' <= c <= 'Z' }

  /** `[a-z]` */
  predicate IsLower(c: char) { 'a' <= c <= 'z' }

  /** `\s`: space, tab, line feed, vertical tab, form feed, carriage return */
  predicate IsSpace(c: char) { c == ' ' || '\t' <= c <= '\r' }

  /** `[0-9a-z]`: the whole lower-case alphabet, not only hexadecimal digits */
  predicate IsHashChar(c: char) { IsDigit(c) || IsLower(c) }

  /** `.` */
  predicate IsLineChar(c: char) { c != '\n' }

  // ---------------------------------------------------------------------
  // Sub-patterns

  /** `\d*` */
  predicate AllDigits(s: string) { forall i :: 0 <= i < |s| ==> IsDigit(s[i]) }

  /** any number of `/` */
  predicate AllSlashes(s: string) { forall i :: 0 <= i < |s| ==> s[i] == '/' }

  /** `[0-9a-z]{40}` */
  predicate IsHash(s: string) { |s| == 40 && forall i :: 0 <= i < |s| ==> IsHashChar(s[i]) }

  /** `[A-Z][a-z]{2}`: a weekday or month name such as `Mon` or `Jan` */
  predicate IsName(s: string) { |s| == 3 && IsUpper(s[0]) && IsLower(s[1]) && IsLower(s[2]) }

  /** `\d{2}:\d{2}:\d{2}` */
  predicate IsClock(s: string)
  {
    |s| == 8 && IsDigit(s[0]) && IsDigit(s[1]) && s[2] == ':' && IsDigit(s[3]) && IsDigit(s[4])
    && s[5] == ':' && IsDigit(s[6]) && IsDigit(s[7])
  }

  /** `.+` */
  predicate IsText(s: string) { |s| > 0 && forall i :: 0 <= i < |s| ==> IsLineChar(s[i]) }

  /**
   * `[A-Z][a-z]{2} \d+ \d{2}:\d{2}:\d{2} \d{4}`, the export date of the first
   * line, e.g. `Jan 2 03:04:05 2023`. Everything after the day number has a
   * fixed width of 14 characters, which places the day number.
   */
  predicate IsFromDate(d: string)
  {
    var n := |d|;
    n >= 19 && IsName(d[..3]) && d[3] == ' ' && AllDigits(d[4..n - 14])
    && d[n - 14] == ' ' && IsClock(d[n - 13..n - 5]) && d[n - 5] == ' ' && AllDigits(d[n - 4..])
  }

  /**
   * `\d+ [A-Z][a-z]{2} \d{4} \d{2}:\d{2}:\d{2} -\d{4}`, the commit date of
   * the `Date:` header without its weekday, e.g. `2 Jan 2023 03:04:05 -0500`.
   * Only a negative offset from UTC is accepted. Everything after the day
   * number has a fixed width of 24 characters.
   */
  predicate IsOrigDate(d: string)
  {
    var n := |d|;
    n >= 25 && AllDigits(d[..n - 24]) && d[n - 24] == ' ' && IsName(d[n - 23..n - 20])
    && d[n - 20] == ' ' && AllDigits(d[n - 19..n - 15]) && d[n - 15] == ' '
    && IsClock(d[n - 14..n - 6]) && d[n - 6] == ' ' && d[n - 5] == '-' && AllDigits(d[n - 4..])
  }

  /** An export date assembled from its parts: month name, day number, clock and year. */
  function FromDateText(month: string, day: string, clock: string, year: string): string
  {
    month + " " + day + " " + clock + " " + year
  }

  /** Every export date assembled from well-formed parts matches. */
  lemma FromDateTextMatches(month: string, day: string, clock: string, year: string)
    requires IsName(month) && |day| > 0 && AllDigits(day) && IsClock(clock) && |year| == 4 && AllDigits(year)
    ensures IsFromDate(FromDateText(month, day, clock, year))
  {
    var d := FromDateText(month, day, clock, year);
    var n := |d|;
    assert d[..3] == month;
    assert d[4..n - 14] == day;
    assert d[n - 13..n - 5] == clock;
    assert d[n - 4..] == year;
  }

  /** Every string the export-date pattern accepts is such an assembled date. */
  lemma FromDateTextParts(d: string)
    requires IsFromDate(d)
    ensures exists month, day, clock, year ::
      IsName(month) && |day| > 0 && AllDigits(day) && IsClock(clock) && |year| == 4 && AllDigits(year)
      && d == FromDateText(month, day, clock, year)
  {
    var n := |d|;
    assert d == FromDateText(d[..3], d[4..n - 14], d[n - 13..n - 5], d[n - 4..]);
  }

  /** A commit date assembled from its parts: day number, month name, year, clock and the digits of a negative offset. */
  function OrigDateText(day: string, month: string, year: string, clock: string, offset: string): string
  {
    day + " " + month + " " + year + " " + clock + " -" + offset
  }

  /** Every commit date assembled from well-formed parts matches. */
  lemma OrigDateTextMatches(day: string, month: string, year: string, clock: string, offset: string)
    requires |day| > 0 && AllDigits(day) && IsName(month) && |year| == 4 && AllDigits(year)
    requires IsClock(clock) && |offset| == 4 && AllDigits(offset)
    ensures IsOrigDate(OrigDateText(day, month, year, clock, offset))
  {
    var d := OrigDateText(day, month, year, clock, offset);
    var n := |d|;
    assert d[..n - 24] == day;
    assert d[n - 23..n - 20] == month;
    assert d[n - 19..n - 15] == year;
    assert d[n - 14..n - 6] == clock;
    assert d[n - 4..] == offset;
  }

  /** Every string the commit-date pattern accepts is such an assembled date, with a negative offset. */
  lemma OrigDateTextParts(d: string)
    requires IsOrigDate(d)
    ensures exists day, month, year, clock, offset ::
      |day| > 0 && AllDigits(day) && IsName(month) && |year| == 4 && AllDigits(year)
      && IsClock(clock) && |offset| == 4 && AllDigits(offset)
      && d == OrigDateText(day, month, year, clock, offset)
  {
    var n := |d|;
    assert d == OrigDateText(d[..n - 24], d[n - 23..n - 20], d[n - 19..n - 15], d[n - 14..n - 6], d[n - 4..]);
  }

  /** digits, then any number of `/`, then digits (`\d*`, `/` starred, `\d*`) */
  predicate IsNumbering(c: string)
  {
    exists i, j | 0 <= i <= j <= |c| :: AllDigits(c[..i]) && AllSlashes(c[i..j]) && AllDigits(c[j..])
  }

  /** an optional `\s`, then a numbering: the series counter inside `[PATCH…]`, e.g. ` 1/3` */
  predicate IsSeriesCounter(c: string)
  {
    IsNumbering(c) || (|c| > 0 && IsSpace(c[0]) && IsNumbering(c[1..]))
  }

  /** The first position of `c` in `s`, or `|s|` when `c` does not occur. */
  function IndexOf(s: string, c: char): (k: nat)
    ensures k <= |s|
    ensures k < |s| ==> s[k] == c
    ensures forall i :: 0 <= i < k ==> s[i] != c
  {
    if s == [] then 0
    else if s[0] == c then 0
    else 1 + IndexOf(s[1..], c)
  }

  lemma NumberingHasNoBracket(c: string)
    requires IsNumbering(c)
    ensures forall m :: 0 <= m < |c| ==> c[m] != ']'
  {
    var i, j :| 0 <= i <= j <= |c| && AllDigits(c[..i]) && AllSlashes(c[i..j]) && AllDigits(c[j..]);
    forall m | 0 <= m < |c|
      ensures c[m] != ']'
    {
      if m < i {
        assert c[..i][m] == c[m];
      } else if m < j {
        assert c[i..j][m - i] == c[m];
      } else {
        assert c[j..][m - j] == c[m];
      }
    }
  }

  /** No series counter contains the `]` that closes the `[PATCH…]` prefix. */
  lemma SeriesCounterHasNoBracket(c: string)
    requires IsSeriesCounter(c)
    ensures forall m :: 0 <= m < |c| ==> c[m] != ']'
  {
    if IsNumbering(c) {
      NumberingHasNoBracket(c);
    } else {
      NumberingHasNoBracket(c[1..]);
      forall m | 1 <= m < |c|
        ensures c[m] != ']'
      {
        assert c[1..][m - 1] == c[m];
      }
    }
  }

  // ---------------------------------------------------------------------
  // `^From ([0-9a-z]{40}) [A-Z][a-z]{2} (<from date>)$`
  // Captures: the hash and the export date; the weekday is dropped.

  function MatchHashLine(line: string): Option<(string, string)>
  {
    if |line| >= 50 && line[..5] == "From " && IsHash(line[5..45]) && line[45] == ' '
       && IsName(line[46..49]) && line[49] == ' ' && IsFromDate(line[50..])
    then Some((line[5..45], line[50..]))
    else None
  }

  function HashLine(hash: string, weekday: string, fromDate: string): string
  {
    "From " + hash + " " + weekday + " " + fromDate
  }

  lemma HashLineRoundTrip(hash: string, weekday: string, fromDate: string)
    requires IsHash(hash) && IsName(weekday) && IsFromDate(fromDate)
    ensures MatchHashLine(HashLine(hash, weekday, fromDate)) == Some((hash, fromDate))
  {
    var line := HashLine(hash, weekday, fromDate);
    assert line[..5] == "From ";
    assert line[5..45] == hash;
    assert line[46..49] == weekday;
    assert line[50..] == fromDate;
  }

  lemma HashLineCaptures(line: string, hash: string, fromDate: string)
    requires MatchHashLine(line) == Some((hash, fromDate))
    ensures IsHash(hash) && IsFromDate(fromDate)
    ensures exists weekday :: IsName(weekday) && line == HashLine(hash, weekday, fromDate)
  {
    var weekday := line[46..49];
    assert line == line[..5] + line[5..45] + [line[45]] + line[46..49] + [line[49]] + line[50..];
    assert IsName(weekday) && line == HashLine(hash, weekday, fromDate);
  }

  // ---------------------------------------------------------------------
  // `^From: (.+)$`
  // Captures: the author, verbatim.

  function MatchAuthorLine(line: string): Option<string>
  {
    if |line| >= 6 && line[..6] == "From: " && IsText(line[6..])
    then Some(line[6..])
    else None
  }

  function AuthorLine(author: string): string
  {
    "From: " + author
  }

  lemma AuthorLineRoundTrip(author: string)
    requires IsText(author)
    ensures MatchAuthorLine(AuthorLine(author)) == Some(author)
  {
    assert AuthorLine(author)[6..] == author;
  }

  lemma AuthorLineCaptures(line: string, author: string)
    requires MatchAuthorLine(line) == Some(author)
    ensures IsText(author) && line == AuthorLine(author)
  {
    assert line == line[..6] + line[6..];
  }

  // ---------------------------------------------------------------------
  // `^Date: [A-Z][a-z]{2}, (<orig date>)$`
  // Captures: the date without its weekday.

  function MatchDateLine(line: string): Option<string>
  {
    if |line| >= 11 && line[..6] == "Date: " && IsName(line[6..9]) && line[9..11] == ", "
       && IsOrigDate(line[11..])
    then Some(line[11..])
    else None
  }

  function DateLine(weekday: string, date: string): string
  {
    "Date: " + weekday + ", " + date
  }

  lemma DateLineRoundTrip(weekday: string, date: string)
    requires IsName(weekday) && IsOrigDate(date)
    ensures MatchDateLine(DateLine(weekday, date)) == Some(date)
  {
    var line := DateLine(weekday, date);
    assert line[..6] == "Date: ";
    assert line[6..9] == weekday;
    assert line[9..11] == ", ";
    assert line[11..] == date;
  }

  lemma DateLineCaptures(line: string, date: string)
    requires MatchDateLine(line) == Some(date)
    ensures IsOrigDate(date)
    ensures exists weekday :: IsName(weekday) && line == DateLine(weekday, date)
  {
    var weekday := line[6..9];
    assert line == line[..6] + line[6..9] + line[9..11] + line[11..];
    assert IsName(weekday) && line == DateLine(weekday, date);
  }

  /** A `Date:` header whose offset from UTC is positive never matches. */
  lemma PositiveOffsetRejected(line: string)
    requires |line| >= 5 && line[|line| - 5] == '+'
    ensures MatchDateLine(line) == None
  {
    if |line| >= 11 {
      var d := line[11..];
      assert |d| >= 5 ==> d[|d| - 5] == '+';
    }
  }

  // ---------------------------------------------------------------------
  // `^Subject: \[PATCH<series counter>\] (.+)$`
  // Captures: the subject text after the `] ` that closes the prefix; the
  // series counter is dropped.

  function MatchSubjectLine(line: string): Option<string>
  {
    if |line| >= 15 && line[..15] == "Subject: [PATCH" then
      var rest := line[15..];
      var k := IndexOf(rest, ']');
      if k + 1 < |rest| && rest[k + 1] == ' ' && IsSeriesCounter(rest[..k]) && IsText(rest[k + 2..])
      then Some(rest[k + 2..])
      else None
    else None
  }

  function SubjectLine(counter: string, subject: string): string
  {
    "Subject: [PATCH" + counter + "] " + subject
  }

  lemma SubjectLineRoundTrip(counter: string, subject: string)
    requires IsSeriesCounter(counter) && IsText(subject)
    ensures MatchSubjectLine(SubjectLine(counter, subject)) == Some(subject)
  {
    var line := SubjectLine(counter, subject);
    assert line[..15] == "Subject: [PATCH";
    var rest := line[15..];
    assert rest == counter + "] " + subject;
    SeriesCounterHasNoBracket(counter);
    var k := IndexOf(rest, ']');
    assert rest[|counter|] == ']';
    assert forall i :: 0 <= i < |counter| ==> rest[i] == counter[i];
    assert k == |counter|;
    assert rest[..k] == counter;
    assert rest[k + 2..] == subject;
  }

  lemma SubjectLineCaptures(line: string, subject: string)
    requires MatchSubjectLine(line) == Some(subject)
    ensures IsText(subject)
    ensures exists counter :: IsSeriesCounter(counter) && line == SubjectLine(counter, subject)
  {
    var rest := line[15..];
    var k := IndexOf(rest, ']');
    var counter := rest[..k];
    assert rest == counter + rest[k..k + 2] + rest[k + 2..];
    assert rest[k..k + 2] == "] ";
    assert line == line[..15] + rest;
    assert IsSeriesCounter(counter) && line == SubjectLine(counter, subject);
  }
}

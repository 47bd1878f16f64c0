/**
 * Properties of the record that `parse_patch` yields, stated about the
 * declarative `ParseSpec` (which the method `ParsePatch` is proved to
 * compute): when it succeeds, which lines it looks at, and what the fields
 * of the record hold.
 */
module PatchProperties {
  import opened Wrappers
  import opened PatchPatterns
  import opened PatchParser

  /**
   * The parser succeeds exactly when the four header lines match their
   * patterns and a delimiter after them is followed by at least one more line.
   */
  lemma AcceptsExactly(path: string, lines: seq<string>, signature: Option<string>)
    ensures ParseSpec(path, lines, signature).Some? <==>
      HeadersMatched(CaptureHeaders(lines), 4) && exists d :: 4 <= d < |lines| - 1 && lines[d] == Delimiter
  {
    var first := FirstDelimiter(lines, 4);
    if ParseSpec(path, lines, signature).Some? {
      assert 4 <= first.value < |lines| - 1 && lines[first.value] == Delimiter;
    }
    if HeadersMatched(CaptureHeaders(lines), 4) && exists d :: 4 <= d < |lines| - 1 && lines[d] == Delimiter {
      var d :| 4 <= d < |lines| - 1 && lines[d] == Delimiter;
      assert first.Some? && first.value <= d;
    }
  }

  /**
   * A header line that fails its pattern settles the outcome: whatever
   * lines replace the ones after it, there is no record.
   */
  lemma HeaderMismatchIsFinal(path: string, lines: seq<string>, signature: Option<string>, k: nat, more: seq<string>)
    requires k < 4 && k < |lines| && !HeadersMatched(CaptureHeaders(lines), k + 1)
    ensures ParseSpec(path, lines[..k + 1] + more, signature) == None
  {
    var changed := lines[..k + 1] + more;
    assert forall j :: 0 <= j <= k ==> changed[j] == lines[j];
    assert !HeadersMatched(CaptureHeaders(changed), k + 1);
    HeaderMismatchYieldsNothing(path, changed, signature);
  }

  /**
   * Without a line after the first delimiter there is no record: the input
   * ends before any delimiter after the headers, or right on the first one.
   */
  lemma NoLineAfterDelimiter(path: string, lines: seq<string>, signature: Option<string>)
    requires forall k :: 4 <= k < |lines| - 1 ==> lines[k] != Delimiter
    ensures ParseSpec(path, lines, signature) == None
  {
    if |lines| >= 5 && lines[|lines| - 1] == Delimiter {
      DelimiterLastYieldsNothing(path, lines, signature);
    } else {
      NoDelimiterYieldsNothing(path, lines, signature);
    }
  }

  /**
   * Cutting the file off anywhere up to and including its first delimiter
   * after the headers leaves no record.
   */
  lemma TruncatedFails(path: string, lines: seq<string>, signature: Option<string>, d: nat, t: nat)
    requires 4 <= d < |lines| && lines[d] == Delimiter
    requires forall k :: 4 <= k < d ==> lines[k] != Delimiter
    requires t <= d + 1
    ensures ParseSpec(path, lines[..t], signature) == None
  {
    var cut := lines[..t];
    assert forall k :: 4 <= k < |cut| - 1 ==> cut[k] == lines[k];
    NoLineAfterDelimiter(path, cut, signature);
  }

  /**
   * The lines after the one that follows the first delimiter are never
   * looked at: replacing them leaves the outcome as it is.
   */
  lemma TailIgnored(path: string, lines: seq<string>, signature: Option<string>, d: nat, more: seq<string>)
    requires 4 <= d < |lines| - 1 && lines[d] == Delimiter
    requires forall k :: 4 <= k < d ==> lines[k] != Delimiter
    ensures ParseSpec(path, lines[..d + 2] + more, signature) == ParseSpec(path, lines, signature)
  {
    var changed := lines[..d + 2] + more;
    assert forall j :: 0 <= j < d + 2 ==> changed[j] == lines[j];
    assert CaptureHeaders(changed) == CaptureHeaders(lines);
    FirstDelimiterAt(lines, 4, d);
    FirstDelimiterAt(changed, 4, d);
    assert changed[4..d] == lines[4..d];
  }

  /**
   * The fields of a record that the parser returns: each header field is
   * what its pattern captures, and the lines are what the captures render to.
   */
  lemma RecordHeaders(path: string, lines: seq<string>, signature: Option<string>, p: Patch)
    requires ParseSpec(path, lines, signature) == Some(p)
    ensures p.path == path
    ensures IsHash(p.hash) && p.hash == lines[0][5..45]
    ensures IsFromDate(p.fromDate) && exists weekday :: IsName(weekday) && lines[0] == HashLine(p.hash, weekday, p.fromDate)
    ensures IsText(p.origAuthor) && lines[1] == AuthorLine(p.origAuthor)
    ensures IsOrigDate(p.origDate) && exists weekday :: IsName(weekday) && lines[2] == DateLine(weekday, p.origDate)
  {
    var h := CaptureHeaders(lines);
    HashLineCaptures(lines[0], p.hash, p.fromDate);
    AuthorLineCaptures(lines[1], p.origAuthor);
    DateLineCaptures(lines[2], p.origDate);
  }

  /** The hash has 40 characters, each a digit or a lower-case letter (all of `a-z`, not only hex digits). */
  lemma HashShape(path: string, lines: seq<string>, signature: Option<string>, p: Patch)
    requires ParseSpec(path, lines, signature) == Some(p)
    ensures |p.hash| == 40
    ensures forall i :: 0 <= i < 40 ==> '0' <= p.hash[i] <= '9' || 'a' <= p.hash[i] <= 'z'
  {
    RecordHeaders(path, lines, signature, p);
  }

  /**
   * The message is the subject capture, the lines strictly between the
   * subject line and the first delimiter, and the sign-off, each followed by
   * a line feed.
   */
  lemma RecordMessage(path: string, lines: seq<string>, signature: Option<string>, p: Patch, subject: string, d: nat)
    requires ParseSpec(path, lines, signature) == Some(p)
    requires MatchSubjectLine(lines[3]) == Some(subject)
    requires FirstDelimiter(lines, 4) == Some(d)
    ensures IsText(subject) && exists counter :: IsSeriesCounter(counter) && lines[3] == SubjectLine(counter, subject)
    ensures d + 1 < |lines|
    ensures p.message == BodyText([subject] + lines[4..d] + SignOffLines(signature))
  {
    Yielded(path, lines, signature, p);
    SubjectLineCaptures(lines[3], subject);
    MessageAsLines(subject, lines[4..d], signature);
  }

  /** The message text is the subject, body and sign-off lines, each followed by a line feed. */
  lemma MessageAsLines(subject: string, body: seq<string>, signature: Option<string>)
    ensures subject + "\n" + BodyText(body) + SignOff(signature) == BodyText([subject] + body + SignOffLines(signature))
  {
    BodyTextAppend([subject], body);
    BodyTextAppend([subject] + body, SignOffLines(signature));
    assert [subject][1..] == [];
  }

  /** A signature adds exactly its one sign-off line at the end of the message, and changes nothing else. */
  lemma SignatureAppendsOnce(path: string, lines: seq<string>, s: string)
    ensures ParseSpec(path, lines, Some(s)).Some? <==> ParseSpec(path, lines, None).Some?
    ensures ParseSpec(path, lines, None).Some? ==>
      var unsigned := ParseSpec(path, lines, None).value;
      ParseSpec(path, lines, Some(s)) == Some(unsigned.(message := unsigned.message + "Signed-off-by: " + s + "\n"))
  {
    var first := FirstDelimiter(lines, 4);
    SignOffText(Some(s));
    SignOffText(None);
    if ParseSpec(path, lines, None).Some? {
      var h := CaptureHeaders(lines);
      var text := h.subject.value + "\n" + BodyText(lines[4..first.value]);
      assert ParseSpec(path, lines, None).value.message == text + "";
      assert text + "" == text;
      assert ParseSpec(path, lines, Some(s)).value.message == text + (SignOffPrefix + s + "\n");
      assert text + (SignOffPrefix + s + "\n") == text + "Signed-off-by: " + s + "\n";
    }
  }

  /**
   * Rendering a patch and parsing it back: a file whose headers render
   * well-formed fields, whose body has no delimiter, and which has a line
   * after the delimiter yields exactly those fields.
   */
  lemma RenderedPatchParses(path: string, signature: Option<string>,
                            hash: string, weekday: string, fromDate: string, author: string,
                            dateWeekday: string, date: string, counter: string, subject: string,
                            body: seq<string>, rest: seq<string>)
    requires IsHash(hash) && IsName(weekday) && IsFromDate(fromDate)
    requires IsText(author)
    requires IsName(dateWeekday) && IsOrigDate(date)
    requires IsSeriesCounter(counter) && IsText(subject)
    requires forall k :: 0 <= k < |body| ==> body[k] != Delimiter
    requires rest != []
    ensures ParseSpec(path, PatchFile(hash, weekday, fromDate, author, dateWeekday, date, counter, subject, body, rest), signature)
         == Some(Patch(hash, fromDate, author, date, subject + "\n" + BodyText(body) + SignOff(signature), path))
  {
    var lines := PatchFile(hash, weekday, fromDate, author, dateWeekday, date, counter, subject, body, rest);
    PatchFileCaptures(hash, weekday, fromDate, author, dateWeekday, date, counter, subject, body, rest);
    PatchFileDelimiter(hash, weekday, fromDate, author, dateWeekday, date, counter, subject, body, rest);
    Accepted(path, lines, signature, CaptureHeaders(lines), 4 + |body|);
  }

  lemma PatchFileCaptures(hash: string, weekday: string, fromDate: string, author: string,
                          dateWeekday: string, date: string, counter: string, subject: string,
                          body: seq<string>, rest: seq<string>)
    requires IsHash(hash) && IsName(weekday) && IsFromDate(fromDate)
    requires IsText(author)
    requires IsName(dateWeekday) && IsOrigDate(date)
    requires IsSeriesCounter(counter) && IsText(subject)
    ensures CaptureHeaders(PatchFile(hash, weekday, fromDate, author, dateWeekday, date, counter, subject, body, rest))
         == HeaderCaptures(Some((hash, fromDate)), Some(author), Some(date), Some(subject))
  {
    HashLineRoundTrip(hash, weekday, fromDate);
    AuthorLineRoundTrip(author);
    DateLineRoundTrip(dateWeekday, date);
    SubjectLineRoundTrip(counter, subject);
  }

  lemma PatchFileDelimiter(hash: string, weekday: string, fromDate: string, author: string,
                           dateWeekday: string, date: string, counter: string, subject: string,
                           body: seq<string>, rest: seq<string>)
    requires forall k :: 0 <= k < |body| ==> body[k] != Delimiter
    ensures FirstDelimiter(PatchFile(hash, weekday, fromDate, author, dateWeekday, date, counter, subject, body, rest), 4)
         == Some(4 + |body|)
  {
    var lines := PatchFile(hash, weekday, fromDate, author, dateWeekday, date, counter, subject, body, rest);
    var d := 4 + |body|;
    assert forall k :: 4 <= k < d ==> lines[k] == body[k - 4];
    FirstDelimiterAt(lines, 4, d);
  }

  /** The lines of a patch file with the given header fields, body and trailing lines. */
  function PatchFile(hash: string, weekday: string, fromDate: string, author: string,
                     dateWeekday: string, date: string, counter: string, subject: string,
                     body: seq<string>, rest: seq<string>): (lines: seq<string>)
    ensures |lines| == 5 + |body| + |rest|
    ensures lines[0] == HashLine(hash, weekday, fromDate) && lines[1] == AuthorLine(author)
    ensures lines[2] == DateLine(dateWeekday, date) && lines[3] == SubjectLine(counter, subject)
    ensures lines[4..4 + |body|] == body && lines[4 + |body|] == Delimiter
  {
    [HashLine(hash, weekday, fromDate), AuthorLine(author), DateLine(dateWeekday, date), SubjectLine(counter, subject)]
      + body + [Delimiter] + rest
  }

  lemma {:induction false} BodyTextAppend(a: seq<string>, b: seq<string>)
    ensures BodyText(a + b) == BodyText(a) + BodyText(b)
  {
    if a == [] {
      assert [] + b == b;
    } else {
      assert (a + b)[1..] == a[1..] + b;
      BodyTextAppend(a[1..], b);
    }
  }

  /** A piece of text with no line feed in it. */
  predicate NoLineFeed(s: string)
  {
    forall i :: 0 <= i < |s| ==> IsLineChar(s[i])
  }

  /** Cuts text into the pieces between line feeds; a final line feed ends the last piece. */
  function SplitLines(text: string): (lines: seq<string>)
    ensures forall k :: 0 <= k < |lines| ==> NoLineFeed(lines[k])
    decreases |text|
  {
    if text == [] then []
    else
      var k := IndexOf(text, '\n');
      if k == |text| then [text] else [text[..k]] + SplitLines(text[k + 1..])
  }

  /** `SplitLines` undoes `BodyText` on lines without line feeds. */
  lemma {:induction false} SplitBodyText(lines: seq<string>)
    requires forall k :: 0 <= k < |lines| ==> NoLineFeed(lines[k])
    ensures SplitLines(BodyText(lines)) == lines
  {
    if lines != [] {
      var text := BodyText(lines);
      var first := lines[0];
      assert text == first + "\n" + BodyText(lines[1..]);
      var k := IndexOf(text, '\n');
      assert text[|first|] == '\n';
      assert forall i :: 0 <= i < |first| ==> text[i] == first[i];
      assert k == |first|;
      assert text[..k] == first;
      assert text[k + 1..] == BodyText(lines[1..]);
      SplitBodyText(lines[1..]);
      assert lines == [first] + lines[1..];
    }
  }

  /** The lines of a message built from a subject, body lines and a signature, none with a line feed, read back. */
  lemma SplitMessage(subject: string, body: seq<string>, signature: Option<string>)
    requires NoLineFeed(subject)
    requires forall k :: 0 <= k < |body| ==> NoLineFeed(body[k])
    requires signature.Some? ==> NoLineFeed(signature.value)
    ensures SplitLines(BodyText([subject] + body + SignOffLines(signature))) == [subject] + body + SignOffLines(signature)
  {
    MessagePartsHaveNoLineFeed(subject, body, signature);
    SplitBodyText([subject] + body + SignOffLines(signature));
  }

  lemma MessagePartsHaveNoLineFeed(subject: string, body: seq<string>, signature: Option<string>)
    requires NoLineFeed(subject)
    requires forall k :: 0 <= k < |body| ==> NoLineFeed(body[k])
    requires signature.Some? ==> NoLineFeed(signature.value)
    ensures forall k :: 0 <= k < |[subject] + body + SignOffLines(signature)| ==> NoLineFeed(([subject] + body + SignOffLines(signature))[k])
  {
    var tail := SignOffLines(signature);
    var parts := [subject] + body + tail;
    if signature.Some? {
      assert tail == [SignOffPrefix + signature.value];
      assert NoLineFeed(SignOffPrefix);
    }
    assert forall k :: 0 <= k < |parts| ==> parts[k] == if k == 0 then subject else if k <= |body| then body[k - 1] else tail[k - 1 - |body|];
  }

  /**
   * Read back line by line, the message is the subject, each line between
   * the subject line and the first delimiter, and the sign-off line.
   */
  lemma MessageLines(path: string, lines: seq<string>, signature: Option<string>, p: Patch, subject: string, d: nat)
    requires ParseSpec(path, lines, signature) == Some(p)
    requires MatchSubjectLine(lines[3]) == Some(subject)
    requires FirstDelimiter(lines, 4) == Some(d)
    requires forall k :: 0 <= k < |lines| ==> NoLineFeed(lines[k])
    requires signature.Some? ==> NoLineFeed(signature.value)
    ensures SplitLines(p.message) == [subject] + lines[4..d] + SignOffLines(signature)
  {
    RecordMessage(path, lines, signature, p, subject, d);
    SplitMessageOf(lines, signature, subject, d);
  }

  lemma SplitMessageOf(lines: seq<string>, signature: Option<string>, subject: string, d: nat)
    requires 4 <= d <= |lines| && IsText(subject)
    requires forall k :: 0 <= k < |lines| ==> NoLineFeed(lines[k])
    requires signature.Some? ==> NoLineFeed(signature.value)
    ensures SplitLines(BodyText([subject] + lines[4..d] + SignOffLines(signature))) == [subject] + lines[4..d] + SignOffLines(signature)
  {
    TextHasNoLineFeed(subject);
    SliceHasNoLineFeed(lines, 4, d);
    SplitMessage(subject, lines[4..d], signature);
  }

  lemma TextHasNoLineFeed(s: string)
    requires IsText(s)
    ensures NoLineFeed(s)
  {
  }

  lemma SliceHasNoLineFeed(lines: seq<string>, from: nat, to: nat)
    requires from <= to <= |lines|
    requires forall k :: 0 <= k < |lines| ==> NoLineFeed(lines[k])
    ensures forall k :: 0 <= k < to - from ==> NoLineFeed(lines[from..to][k])
  {
    assert forall k :: 0 <= k < to - from ==> lines[from..to][k] == lines[from + k];
  }
}

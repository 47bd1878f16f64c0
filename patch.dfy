/**
 * `parse_patch` of src/patch.rs: a single forward pass over the lines of a
 * patch exported in mbox form, driven by a state variable, that fills in a
 * `Patch` record or gives up.
 *
 * The file is modelled as the sequence of its lines with their terminators
 * already removed, and the file path as the string it converts to.
 * `ParseSpec` says declaratively which record a sequence of lines yields;
 * the method `ParsePatch` is the state machine, proved to compute it.
 */
module PatchParser {
  import opened Wrappers
  import opened PatchPatterns

  /** The states of the line scanner (`ParseStates`). */
  datatype ParseState = Init | Author | Date | Subject | Message | Finish | Invalid

  /** The parsed record (`Patch`); every field starts out empty. */
  datatype Patch = Patch(
    hash: string,
    fromDate: string,
    origAuthor: string,
    origDate: string,
    message: string,
    path: string)

  /** The line that ends the commit message. */
  const Delimiter: string := "---"

  /** The start of the sign-off trailer. */
  const SignOffPrefix: string := "Signed-off-by: "

  /** Each line followed by a line feed, in order. */
  function BodyText(lines: seq<string>): string
  {
    if lines == [] then "" else lines[0] + "\n" + BodyText(lines[1..])
  }

  /** The lines of the sign-off trailer: none, or the one `Signed-off-by:` line. */
  function SignOffLines(signature: Option<string>): seq<string>
  {
    match signature
    case Some(s) => [SignOffPrefix + s]
    case None => []
  }

  /** What the parser appends to the message when it reaches the delimiter: the sign-off lines as text. */
  function SignOff(signature: Option<string>): string
  {
    BodyText(SignOffLines(signature))
  }

  /** The sign-off text is `Signed-off-by: `, the signature and a line feed, or nothing without a signature. */
  lemma SignOffText(signature: Option<string>)
    ensures signature.Some? ==> SignOff(signature) == "Signed-off-by: " + signature.value + "\n"
    ensures signature.None? ==> SignOff(signature) == ""
  {
    if signature.Some? {
      var line := SignOffPrefix + signature.value;
      assert SignOffLines(signature) == [line] && [line][1..] == [];
      assert BodyText([line]) == line + "\n" + BodyText([line][1..]);
      assert SignOff(signature) == line + "\n" + "";
      assert line + "\n" + "" == "Signed-off-by: " + signature.value + "\n";
    }
  }

  /** The first delimiter line at or after `from`, if there is one. */
  function FirstDelimiter(lines: seq<string>, from: nat): (d: Option<nat>)
    decreases |lines| - from
    ensures d.Some? ==> from <= d.value < |lines| && lines[d.value] == Delimiter
    ensures d.Some? ==> forall k :: from <= k < d.value ==> lines[k] != Delimiter
    ensures d.None? ==> forall k :: from <= k < |lines| ==> lines[k] != Delimiter
  {
    if from >= |lines| then None
    else if lines[from] == Delimiter then Some(from)
    else FirstDelimiter(lines, from + 1)
  }

  /** The state that follows a header state when its line matches. */
  function HeaderSuccessor(state: ParseState): ParseState
  {
    match state
    case Init => Author
    case Author => Date
    case Date => Subject
    case Subject => Message
    case _ => state
  }

  /** The delimiter at `d` is the first one at or after `from`. */
  lemma {:induction false} FirstDelimiterAt(lines: seq<string>, from: nat, d: nat)
    requires from <= d < |lines| && lines[d] == Delimiter
    requires forall k :: from <= k < d ==> lines[k] != Delimiter
    ensures FirstDelimiter(lines, from) == Some(d)
    decreases d - from
  {
    if from < d {
      FirstDelimiterAt(lines, from + 1, d);
    }
  }

  /** Without a delimiter at or after `from` there is no first one. */
  lemma {:induction false} NoDelimiterAfter(lines: seq<string>, from: nat)
    requires forall k :: from <= k < |lines| ==> lines[k] != Delimiter
    ensures FirstDelimiter(lines, from) == None
    decreases |lines| - from
  {
    if from < |lines| {
      NoDelimiterAfter(lines, from + 1);
    }
  }

  /**
   * What the four header patterns capture on the first four lines, in
   * order; None for a line that is missing or does not match.
   */
  datatype HeaderCaptures = HeaderCaptures(
    hashLine: Option<(string, string)>,
    author: Option<string>,
    date: Option<string>,
    subject: Option<string>)

  function CaptureHeaders(lines: seq<string>): HeaderCaptures
  {
    HeaderCaptures(
      if |lines| > 0 then MatchHashLine(lines[0]) else None,
      if |lines| > 1 then MatchAuthorLine(lines[1]) else None,
      if |lines| > 2 then MatchDateLine(lines[2]) else None,
      if |lines| > 3 then MatchSubjectLine(lines[3]) else None)
  }

  /** `h` holds what the pattern of header line `k` captures on it, None when the line is missing. */
  ghost predicate CapturedAt(lines: seq<string>, h: HeaderCaptures, k: nat)
  {
    if k == 0 then h.hashLine == (if |lines| > 0 then MatchHashLine(lines[0]) else None)
    else if k == 1 then h.author == (if |lines| > 1 then MatchAuthorLine(lines[1]) else None)
    else if k == 2 then h.date == (if |lines| > 2 then MatchDateLine(lines[2]) else None)
    else h.subject == (if |lines| > 3 then MatchSubjectLine(lines[3]) else None)
  }

  /** `h` holds the captures of each of the four header lines. */
  ghost predicate Captured(lines: seq<string>, h: HeaderCaptures)
  {
    forall k: nat :: k < 4 ==> CapturedAt(lines, h, k)
  }

  /** The captures of the header lines, line by line. */
  lemma CaptureEach(lines: seq<string>) returns (h: HeaderCaptures)
    ensures Captured(lines, h)
  {
    h := CaptureHeaders(lines);
  }

  /** Captures held line by line are the captures of the header lines. */
  lemma CapturedIsCaptures(lines: seq<string>, h: HeaderCaptures)
    requires Captured(lines, h)
    ensures h == CaptureHeaders(lines)
  {
    assert CapturedAt(lines, h, 0) && CapturedAt(lines, h, 1) && CapturedAt(lines, h, 2) && CapturedAt(lines, h, 3);
  }

  /** The first `n` of the four header lines matched. */
  predicate HeadersMatched(h: HeaderCaptures, n: nat)
  {
    (n >= 1 ==> h.hashLine.Some?) && (n >= 2 ==> h.author.Some?)
    && (n >= 3 ==> h.date.Some?) && (n >= 4 ==> h.subject.Some?)
  }

  /**
   * The record that `lines` yield when `h` is what the header patterns
   * capture on them: all four must have matched, some line after the
   * headers must be the delimiter, and at least one more line must follow
   * the first delimiter.
   */
  function Assemble(path: string, lines: seq<string>, signature: Option<string>, h: HeaderCaptures): Option<Patch>
  {
    var d := FirstDelimiter(lines, 4);
    if !HeadersMatched(h, 4) || d.None? || d.value + 1 >= |lines| then None
    else
      var message := h.subject.value + "\n" + BodyText(lines[4..d.value]) + SignOff(signature);
      Some(Patch(h.hashLine.value.0, h.hashLine.value.1, h.author.value, h.date.value, message, path))
  }

  /** The record that `lines` yield: the first four lines are matched against the header patterns. */
  function ParseSpec(path: string, lines: seq<string>, signature: Option<string>): Option<Patch>
  {
    Assemble(path, lines, signature, CaptureHeaders(lines))
  }

  /** The record that `ParseSpec` yields once the headers have matched and the first delimiter `d` is followed by a line. */
  lemma Accepted(path: string, lines: seq<string>, signature: Option<string>, h: HeaderCaptures, d: nat)
    requires h == CaptureHeaders(lines) && HeadersMatched(h, 4)
    requires FirstDelimiter(lines, 4) == Some(d) && d + 1 < |lines|
    ensures ParseSpec(path, lines, signature)
         == Some(Patch(h.hashLine.value.0, h.hashLine.value.1, h.author.value, h.date.value,
                       h.subject.value + "\n" + BodyText(lines[4..d]) + SignOff(signature), path))
  {
  }

  /** What a record that `ParseSpec` yields is made of. */
  lemma Yielded(path: string, lines: seq<string>, signature: Option<string>, p: Patch)
    requires ParseSpec(path, lines, signature) == Some(p)
    ensures HeadersMatched(CaptureHeaders(lines), 4)
    ensures FirstDelimiter(lines, 4).Some? && FirstDelimiter(lines, 4).value + 1 < |lines|
    ensures var h := CaptureHeaders(lines);
      p == Patch(h.hashLine.value.0, h.hashLine.value.1, h.author.value, h.date.value,
                 h.subject.value + "\n" + BodyText(lines[4..FirstDelimiter(lines, 4).value]) + SignOff(signature), path)
  {
  }

  /** Appending a line to the body appends it and a line feed to the text. */
  lemma {:induction false} BodyTextSnoc(lines: seq<string>, line: string)
    ensures BodyText(lines + [line]) == BodyText(lines) + line + "\n"
  {
    if lines == [] {
      assert [] + [line] == [line];
    } else {
      assert (lines + [line])[1..] == lines[1..] + [line];
      BodyTextSnoc(lines[1..], line);
    }
  }

  /**
   * `patch` holds the captures of the first `n` header lines, and its other
   * header fields are still empty.
   */
  predicate HeaderFields(h: HeaderCaptures, n: nat, patch: Patch)
  {
    (if n >= 1 then h.hashLine == Some((patch.hash, patch.fromDate)) else patch.hash == "" && patch.fromDate == "")
    && (if n >= 2 then h.author == Some(patch.origAuthor) else patch.origAuthor == "")
    && (if n >= 3 then h.date == Some(patch.origDate) else patch.origDate == "")
    && (n >= 4 ==> h.subject.Some?)
  }

  /** In state Message after `i` lines: the body so far is lines 4 to `i`, none of them the delimiter. */
  ghost predicate InMessage(lines: seq<string>, h: HeaderCaptures, i: nat, patch: Patch)
  {
    4 <= i <= |lines| && HeaderFields(h, 4, patch)
    && (forall k :: 4 <= k < i ==> lines[k] != Delimiter)
    && patch.message == h.subject.value + "\n" + BodyText(lines[4..i])
  }

  /** In state Finish after `i` lines: line `i - 1` is the first delimiter and the sign-off is appended. */
  ghost predicate AtFinish(lines: seq<string>, signature: Option<string>, h: HeaderCaptures, i: nat, patch: Patch)
  {
    5 <= i <= |lines| && HeaderFields(h, 4, patch) && lines[i - 1] == Delimiter
    && (forall k :: 4 <= k < i - 1 ==> lines[k] != Delimiter)
    && patch.message == h.subject.value + "\n" + BodyText(lines[4..i - 1]) + SignOff(signature)
  }

  /** After `n` header lines have matched, their captures fill the first fields and the message is empty. */
  ghost predicate InHeaders(h: HeaderCaptures, i: nat, n: nat, patch: Patch)
  {
    i == n && HeaderFields(h, n, patch) && patch.message == ""
  }

  /** The header line read last, the `i`-th, failed its pattern. */
  ghost predicate Rejected(h: HeaderCaptures, i: nat)
  {
    1 <= i <= 4 && !HeadersMatched(h, i)
  }

  /**
   * The loop invariant: what the scanner knows after it has read the first
   * `i` lines and is in `state` with the record `patch`, where `h` holds what
   * the header patterns capture on the first four lines.
   */
  ghost predicate Reached(path: string, lines: seq<string>, signature: Option<string>, h: HeaderCaptures,
                          i: nat, state: ParseState, patch: Patch)
  {
    i <= |lines| && patch.path == path
    && match state
       case Init => InHeaders(h, i, 0, patch)
       case Author => InHeaders(h, i, 1, patch)
       case Date => InHeaders(h, i, 2, patch)
       case Subject => InHeaders(h, i, 3, patch)
       case Message => InMessage(lines, h, i, patch)
       case Finish => AtFinish(lines, signature, h, i, patch)
       case Invalid => Rejected(h, i)
  }

  /** A line read in state Finish returns the record that the lines yield. */
  lemma FinishYieldsRecord(path: string, lines: seq<string>, signature: Option<string>, h: HeaderCaptures, i: nat, patch: Patch)
    requires i < |lines| && Reached(path, lines, signature, h, i, Finish, patch)
    ensures Assemble(path, lines, signature, h) == Some(patch)
  {
    FirstDelimiterAt(lines, 4, i - 1);
  }

  /** A header line that is missing or does not match its pattern leaves no record. */
  lemma HeaderMismatchYieldsNothing(path: string, lines: seq<string>, signature: Option<string>)
    requires !HeadersMatched(CaptureHeaders(lines), 4)
    ensures ParseSpec(path, lines, signature) == None
  {
  }

  /** Input that ends before any delimiter after the headers leaves no record. */
  lemma NoDelimiterYieldsNothing(path: string, lines: seq<string>, signature: Option<string>)
    requires forall k :: 4 <= k < |lines| ==> lines[k] != Delimiter
    ensures ParseSpec(path, lines, signature) == None
  {
    NoDelimiterAfter(lines, 4);
  }

  /** Input whose first delimiter after the headers is its last line leaves no record. */
  lemma DelimiterLastYieldsNothing(path: string, lines: seq<string>, signature: Option<string>)
    requires |lines| >= 5 && lines[|lines| - 1] == Delimiter
    requires forall k :: 4 <= k < |lines| - 1 ==> lines[k] != Delimiter
    ensures ParseSpec(path, lines, signature) == None
  {
    FirstDelimiterAt(lines, 4, |lines| - 1);
  }

  /** A scan that stops in state Invalid, or runs out of lines, yields no record. */
  lemma StopYieldsNothing(path: string, lines: seq<string>, signature: Option<string>, h: HeaderCaptures,
                          i: nat, state: ParseState, patch: Patch)
    requires Captured(lines, h)
    requires Reached(path, lines, signature, h, i, state, patch)
    requires state == Invalid || i == |lines|
    ensures ParseSpec(path, lines, signature) == None
  {
    CapturedIsCaptures(lines, h);
    match state {
      case Finish =>
        DelimiterLastYieldsNothing(path, lines, signature);
      case Message =>
        NoDelimiterYieldsNothing(path, lines, signature);
      case Invalid =>
        assert !HeadersMatched(h, 4);
        HeaderMismatchYieldsNothing(path, lines, signature);
      case _ =>
        assert h.subject.None?;
        HeaderMismatchYieldsNothing(path, lines, signature);
    }
  }

  /**
   * One pass of the loop in a state that reads a header line: the line must
   * match the state's pattern, whose captures are appended to the record's
   * fields; otherwise the scanner becomes Invalid.
   */
  method ReadHeaderLine(ghost path: string, lines: seq<string>, ghost signature: Option<string>, ghost h: HeaderCaptures,
                        i: nat, state: ParseState, patch: Patch)
    returns (next: ParseState, updated: Patch)
    requires Captured(lines, h)
    requires state == Init || state == Author || state == Date || state == Subject
    requires i < |lines| && Reached(path, lines, signature, h, i, state, patch)
    ensures next == Invalid || next == HeaderSuccessor(state)
    ensures Reached(path, lines, signature, h, i + 1, next, updated)
  {
    var line := lines[i];
    updated := patch;
    assert CapturedAt(lines, h, i);
    match state {
      case Init =>
        match MatchHashLine(line) {
          case Some((hash, fromDate)) =>
            updated := updated.(hash := updated.hash + hash, fromDate := updated.fromDate + fromDate);
            assert updated.hash == hash && updated.fromDate == fromDate;
            next := Author;
          case None =>
            next := Invalid;
        }
      case Author =>
        match MatchAuthorLine(line) {
          case Some(author) =>
            updated := updated.(origAuthor := updated.origAuthor + author);
            assert updated.origAuthor == author;
            next := Date;
          case None =>
            next := Invalid;
        }
      case Date =>
        match MatchDateLine(line) {
          case Some(date) =>
            updated := updated.(origDate := updated.origDate + date);
            assert updated.origDate == date;
            next := Subject;
          case None =>
            next := Invalid;
        }
      case Subject =>
        match MatchSubjectLine(line) {
          case Some(subject) =>
            updated := updated.(message := updated.message + subject);
            updated := updated.(message := updated.message + "\n");
            assert lines[4..4] == [];
            next := Message;
          case None =>
            next := Invalid;
        }
    }
  }

  /**
   * One pass of the loop in state Message: the delimiter appends the
   * sign-off (if any) and ends the message, any other line is appended to
   * the message with a line feed.
   */
  method ReadMessageLine(ghost path: string, lines: seq<string>, signature: Option<string>, ghost h: HeaderCaptures,
                         i: nat, patch: Patch)
    returns (next: ParseState, updated: Patch)
    requires i < |lines| && Reached(path, lines, signature, h, i, Message, patch)
    ensures next == (if lines[i] == Delimiter then Finish else Message)
    ensures Reached(path, lines, signature, h, i + 1, next, updated)
  {
    var line := lines[i];
    updated := patch;
    if line == Delimiter {
      match signature {
        case Some(sig) =>
          updated := updated.(message := updated.message + SignOffPrefix);
          updated := updated.(message := updated.message + sig);
          updated := updated.(message := updated.message + "\n");
        case None =>
      }
      SignOffText(signature);
      next := Finish;
    } else {
      updated := updated.(message := updated.message + line);
      updated := updated.(message := updated.message + "\n");
      assert lines[4..i + 1] == lines[4..i] + [line];
      BodyTextSnoc(lines[4..i], line);
      next := Message;
    }
  }

  /**
   * The state machine of `parse_patch`. Each pass reads one line and acts on
   * the current state; a line read in state Finish returns the record, a
   * line read in state Invalid stops the scan, and running out of lines
   * yields nothing.
   */
  method ParsePatch(path: string, lines: seq<string>, signature: Option<string>) returns (result: Option<Patch>)
    ensures result == ParseSpec(path, lines, signature)
  {
    // What the header patterns capture, held line by line: each pass needs only its own line's.
    ghost var h := CaptureEach(lines);
    var state := Init;
    var patch := Patch("", "", "", "", "", path);
    var i := 0;
    while i < |lines|
      invariant Reached(path, lines, signature, h, i, state, patch)
    {
      match state {
        case Init | Author | Date | Subject =>
          state, patch := ReadHeaderLine(path, lines, signature, h, i, state, patch);
        case Message =>
          state, patch := ReadMessageLine(path, lines, signature, h, i, patch);
        case Finish =>
          FinishYieldsRecord(path, lines, signature, h, i, patch);
          CapturedIsCaptures(lines, h);
          return Some(patch);
        case Invalid =>
          break;
      }
      i := i + 1;
    }
    StopYieldsNothing(path, lines, signature, h, i, state, patch);
    return None;
  }
}

/**
 * Worked examples: one well-formed exported patch, read with and without a
 * signature, and variants of it that the parser turns down.
 */
module PatchScenarios {
  import opened Wrappers
  import opened PatchPatterns
  import opened PatchParser
  import opened PatchProperties

  const ExampleHash: string := "0123456789abcdefghijklmnopqrstuvwxyzabcd"
  /** `Jan 2 03:04:05 2023` */
  const ExampleFromDate: string := FromDateText("Jan", "2", "03:04:05", "2023")
  const ExampleAuthor: string := "J. Doe <j@example.com>"
  /** `2 Jan 2023 03:04:05 -0500` */
  const ExampleDate: string := OrigDateText("2", "Jan", "2023", "03:04:05", "0500")
  const ExampleBody: seq<string> := ["", "Fixes the thing."]

  const ExampleTrailer: seq<string> := [" src/lib.rs | 2 +-"]

  /**
   * A patch with a two-line body and one line of diff statistics after the
   * delimiter:
   *
   *   From 0123456789abcdefghijklmnopqrstuvwxyzabcd Mon Jan 2 03:04:05 2023
   *   From: J. Doe <j@example.com>
   *   Date: Mon, 2 Jan 2023 03:04:05 -0500
   *   Subject: [PATCH 1/1] Fix bug
   *
   *   Fixes the thing.
   *   ---
   *    src/lib.rs | 2 +-
   */
  const ExampleLines: seq<string> :=
    PatchFile(ExampleHash, "Mon", ExampleFromDate, ExampleAuthor, "Mon", ExampleDate, " 1/1", "Fix bug", ExampleBody, ExampleTrailer)

  lemma ExampleHashIsHash()
    ensures IsHash(ExampleHash)
  {
  }

  lemma ExampleFromDateMatches()
    ensures IsFromDate(ExampleFromDate)
  {
    assert IsName("Jan") && AllDigits("2") && IsClock("03:04:05") && AllDigits("2023");
    FromDateTextMatches("Jan", "2", "03:04:05", "2023");
  }

  lemma ExampleDateMatches()
    ensures IsOrigDate(ExampleDate)
  {
    assert AllDigits("2") && IsName("Jan") && AllDigits("2023") && IsClock("03:04:05") && AllDigits("0500");
    OrigDateTextMatches("2", "Jan", "2023", "03:04:05", "0500");
  }

  lemma ExampleCounterMatches()
    ensures IsSeriesCounter(" 1/1")
  {
    assert IsNumbering("1/1") by {
      assert AllDigits("1/1"[..1]) && AllSlashes("1/1"[1..2]) && AllDigits("1/1"[2..]);
    }
    assert " 1/1"[1..] == "1/1";
  }

  lemma ExampleFields()
    ensures IsHash(ExampleHash) && IsName("Mon") && IsFromDate(ExampleFromDate)
    ensures IsText(ExampleAuthor) && IsOrigDate(ExampleDate)
    ensures IsSeriesCounter(" 1/1") && IsText("Fix bug")
  {
    ExampleHashIsHash();
    ExampleFromDateMatches();
    ExampleDateMatches();
    ExampleCounterMatches();
  }

  /** The example parses to its fields, with the body lines after the subject and no sign-off. */
  lemma ExampleParses(path: string)
    ensures ParseSpec(path, ExampleLines, None)
         == Some(Patch(ExampleHash, ExampleFromDate, ExampleAuthor, ExampleDate, "Fix bug\n\nFixes the thing.\n", path))
  {
    ExampleFields();
    RenderedPatchParses(path, None, ExampleHash, "Mon", ExampleFromDate, ExampleAuthor, "Mon", ExampleDate,
                        " 1/1", "Fix bug", ExampleBody, ExampleTrailer);
    ExampleMessage();
  }

  lemma ExampleMessage()
    ensures "Fix bug" + "\n" + BodyText(ExampleBody) + SignOff(None) == "Fix bug\n\nFixes the thing.\n"
  {
    assert BodyText(ExampleBody) == "" + "\n" + ("Fixes the thing." + "\n" + "");
  }

  /** With a signature, the sign-off line follows the body. */
  lemma ExampleParsesSigned(path: string)
    ensures ParseSpec(path, ExampleLines, Some("Ann <a@x.org>"))
         == Some(Patch(ExampleHash, ExampleFromDate, ExampleAuthor, ExampleDate,
                       "Fix bug\n\nFixes the thing.\n" + "Signed-off-by: Ann <a@x.org>\n", path))
  {
    ExampleParses(path);
    SignatureAppendsOnce(path, ExampleLines, "Ann <a@x.org>");
    ExampleSignedMessage();
  }

  lemma ExampleSignedMessage()
    ensures "Fix bug\n\nFixes the thing.\n" + "Signed-off-by: " + "Ann <a@x.org>" + "\n"
         == "Fix bug\n\nFixes the thing.\n" + "Signed-off-by: Ann <a@x.org>\n"
  {
    var body := "Fix bug\n\nFixes the thing.\n";
    var trailer := "Signed-off-by: " + "Ann <a@x.org>" + "\n";
    assert body + "Signed-off-by: " + "Ann <a@x.org>" + "\n" == body + trailer;
    assert trailer == "Signed-off-by: Ann <a@x.org>\n";
  }

  /** A second header line that is not `From:` fails. */
  lemma ExampleTitleRejected(path: string, signature: Option<string>)
    ensures ParseSpec(path, ExampleLines[1 := "Title: J. Doe <j@example.com>"], signature) == None
  {
    var title := "Title: J. Doe <j@example.com>";
    var lines := ExampleLines[1 := title];
    assert title[..6][0] != "From: "[0];
    assert MatchAuthorLine(lines[1]) == None;
    HeaderMismatchYieldsNothing(path, lines, signature);
  }

  /** A fourth header line that is not `Subject:` fails. */
  lemma ExampleSubjectTitleRejected(path: string, signature: Option<string>)
    ensures ParseSpec(path, ExampleLines[3 := "Title: Fix bug"], signature) == None
  {
    var lines := ExampleLines[3 := "Title: Fix bug"];
    assert MatchSubjectLine(lines[3]) == None;
    HeaderMismatchYieldsNothing(path, lines, signature);
  }

  /** A date line with a positive offset fails. */
  lemma ExamplePositiveOffsetRejected(path: string, signature: Option<string>)
    ensures ParseSpec(path, ExampleLines[2 := "Date: Mon, 2 Jan 2023 03:04:05 +0100"], signature) == None
  {
    var lines := ExampleLines[2 := "Date: Mon, 2 Jan 2023 03:04:05 +0100"];
    PositiveOffsetRejected(lines[2]);
    HeaderMismatchYieldsNothing(path, lines, signature);
  }

  /** A file that ends on the delimiter yields no record. */
  lemma ExampleEndingOnDelimiterRejected(path: string, signature: Option<string>)
    ensures ParseSpec(path, ExampleLines[..7], signature) == None
  {
    DelimiterLastYieldsNothing(path, ExampleLines[..7], signature);
  }
}

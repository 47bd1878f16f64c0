# parse_patch of patch-fix, modelled in Dafny

patch-fix rewrites patches exported by `git format-patch`. Its core is
`parse_patch` in `src/patch.rs`. It reads an exported patch (an mbox file)
line by line with a small state machine: `Init`, `Author`, `Date`,
`Subject`, `Message`, `Finish`, `Invalid`. It then fills in a `Patch`
record, or returns `None`. The record is made of the following parts:

- The first line (`From <hash> <weekday> <date>`) gives the commit hash and
  the export date.
- The `From:`, `Date:` and `Subject:` headers give the author, the commit
  date and the subject.
- Every later line, up to the first line that is exactly `---`, is body.
- An optional signature adds a `Signed-off-by:` line at the end of the
  message.

The project has five modules:

- `Wrappers` (wrappers.dfy): the `Option` type.
- `PatchPatterns` (patterns.dfy): the four anchored header patterns,
  written as predicates over character classes. Each pattern has:
  - a matcher that returns the capture groups the parser keeps;
  - a renderer that builds a matching line from its parts;
  - lemmas proving that the matcher and the renderer are inverse to each
    other.
- `PatchParser` (patch.dfy): the state type and the `Patch` record,
  together with the following members.
  - `ParseSpec` says declaratively which record a sequence of lines yields.
  - The method `ParsePatch` is the state machine as the source writes it.
    It is a loop over the lines with a mutable state and a mutable record.
    Each pass acts on the current state:
    - In a header state, a matching line appends its captures to the
      record's fields, and a mismatch sets the state to Invalid.
    - In Message, `---` appends the sign-off and moves to Finish, and any
      other line is appended to the message.
    - In Finish, the pass returns the record.
    - In Invalid, the pass stops the scan.
  - `ParsePatch` is proved to compute `ParseSpec`.
- `PatchProperties` (properties.dfy): what a successful parse guarantees and
  when parsing fails, stated about `ParseSpec`. This includes a
  render-then-parse round trip for whole patch files.
- `PatchScenarios` (scenarios.dfy): a concrete patch, parsed with and without
  a signature, and variants of it that are turned down.

Inputs are modelled as follows:

- The file is the sequence of its lines, with line terminators already
  removed.
- The path is the string that `to_str` turns it into.
- The signature is an `Option<string>`.

Four facts about the code are easy to miss, and the model keeps each of them:

- The hash is 40 characters from `[0-9a-z]`, so any lower-case letter is
  allowed, not only hexadecimal digits.
- The `Date:` header must end in a negative offset (`-dddd`). A `+dddd`
  offset fails.
- No blank line is inserted after the subject. The message is the subject
  and a line feed, then the body lines exactly as they appear, each with a
  line feed. A blank line appears only when the file has one.
- Reaching `---` is not enough. The record is returned only when one more
  line is read after the first `---`. A file that ends on its delimiter
  yields `None`.

## Model

| member | source | states |
|---|---|---|
| PatchParser.ParseSpec | src/patch.rs:32-126 | The declarative form of the whole parse. It has no contract of its own. `ParsePatch` is proved to compute it, and `AcceptsExactly`, `RecordHeaders`, `RecordMessage`, `TailIgnored`, `HeaderMismatchIsFinal` and `SignatureAppendsOnce` pin it down. |
| PatchParser.ParsePatch | src/patch.rs:32-126 | The state-machine loop returns exactly what `ParseSpec` says. It gives a record only when the four header lines match in order and a line is read after the first `---` (line 4 or later). Otherwise it returns `None` when a header fails or the lines run out. |
| PatchParser.ReadHeaderLine | src/patch.rs:41-102 | One pass in a header state. If the line matches that state's pattern, its captures are appended to the corresponding empty fields and the state advances: Init→Author→Date→Subject→Message. The subject and a line feed start the message. Otherwise the state becomes Invalid. In both cases the loop invariant holds for one more line read. |
| PatchParser.ReadMessageLine | src/patch.rs:103-115 | One pass in state Message. The line `---` appends the sign-off (if any) and moves to Finish. Any other line is appended to the message with a line feed, and the state stays Message. |
| PatchParser.FinishYieldsRecord | src/patch.rs:116-118 | A line read in state Finish returns the record: the one built from the header captures and from the body before the first delimiter, followed by the sign-off. |
| PatchParser.StopYieldsNothing | src/patch.rs:119-125 | A scan that reads a line in state Invalid, or runs out of lines in any state including Finish, yields no record. |
| PatchParser.HeaderMismatchYieldsNothing | src/patch.rs:119-125 | If any of the four header lines is missing or fails its pattern, there is no record. |
| PatchParser.NoDelimiterYieldsNothing | src/patch.rs:103-125 | Input with no `---` line after the headers yields no record. |
| PatchParser.DelimiterLastYieldsNothing | src/patch.rs:110-125 | Input whose first `---` after the headers is its last line yields no record. |
| PatchParser.FirstDelimiter | src/patch.rs:104 | The first line at or after a given index that equals `---`. No earlier line in that range equals `---`. None means no line in the range does. |
| PatchProperties.AcceptsExactly | src/patch.rs:32-126 | A record is produced if and only if all four header lines match their patterns and some `---` at index 4 or later has at least one more line after it. |
| PatchProperties.HeaderMismatchIsFinal | src/patch.rs:119-122 | Once header line k has failed (k < 4), putting any lines after it instead of the original ones still gives no record. |
| PatchProperties.NoLineAfterDelimiter | src/patch.rs:103-125 | Input in which no `---` after the headers is followed by another line yields no record. |
| PatchProperties.TruncatedFails | src/patch.rs:103-125 | Cutting the file off anywhere up to and including its first `---` after the headers gives no record. |
| PatchProperties.TailIgnored | src/patch.rs:116-118 | Lines after the one that follows the first `---` are never looked at. Replacing them leaves the result unchanged. |
| PatchProperties.RecordHeaders | src/patch.rs:36-84 | In a returned record: `path` is the input path. `hash` is characters 5 to 45 of the first line and is a 40-character hash. `fromDate` is the first line's date without its weekday. `origAuthor` is the nonempty text after `From: `. `origDate` is the `Date:` value without its weekday, with a negative offset. Each header line is what its captures render to. |
| PatchProperties.HashShape | src/patch.rs:7 | A returned hash has 40 characters, each in `0-9` or `a-z`. |
| PatchProperties.RecordMessage | src/patch.rs:91-114 | A returned message contains, each followed by a line feed: the subject capture (nonempty text after the `] ` that closes `[PATCH<counter>`, with the counter dropped); then each line strictly between the subject line and the first `---`, in order; then the sign-off line if there is a signature. |
| PatchProperties.MessageLines | src/patch.rs:104-114 | When no line has a line feed in it, splitting the message at its line feeds gives back: the subject, the body lines in order, then the sign-off line. |
| PatchProperties.SplitBodyText | src/patch.rs:112-113 | Joining lines that contain no line feed, each followed by a line feed, and then splitting at the line feeds gives the same lines back. |
| PatchParser.SignOffText | src/patch.rs:105-109 | The text appended at the delimiter is `Signed-off-by: `, the signature and a line feed when there is a signature, and nothing without one. |
| PatchProperties.SignatureAppendsOnce | src/patch.rs:105-110 | A signature does not change whether a record is produced. It adds exactly `Signed-off-by: <s>` and a line feed at the end of the unsigned message, and changes no other field. |
| PatchProperties.RenderedPatchParses | src/patch.rs:32-126 | A patch file rendered from well-formed fields is parsed back to exactly those fields, with the body and the sign-off as its message. Such a file has a body with no `---` line and at least one line after its delimiter. |
| PatchPatterns.MatchHashLine | src/patch.rs:7 | The first-line pattern and the two groups kept at src/patch.rs:45-48. It has no contract of its own. `HashLineRoundTrip` and `HashLineCaptures` pin it down in both directions. |
| PatchPatterns.HashLineRoundTrip | src/patch.rs:7 | A hash, a weekday name and an export date of the right shapes, rendered as `From <hash> <weekday> <date>`, match the first-line pattern. The match captures exactly the hash and the date. |
| PatchPatterns.HashLineCaptures | src/patch.rs:7 | If the first-line pattern captures a hash and a date, the hash has 40 characters from `[0-9a-z]` and the date has the export-date shape. The line is their rendering with some weekday name. |
| PatchPatterns.FromDateTextMatches | src/patch.rs:7 | Every `Mon D hh:mm:ss YYYY` date built from a month name, a day number, a clock and a four-digit year matches the date group of the first-line pattern. |
| PatchPatterns.FromDateTextParts | src/patch.rs:7 | Conversely, every string the export-date predicate accepts is such a date, assembled from a month name, a nonempty day number, a clock and a four-digit year. So the predicate accepts no more than the date group of the pattern. |
| PatchPatterns.MatchAuthorLine | src/patch.rs:8 | The author pattern and the group kept at src/patch.rs:61-63. It has no contract of its own. `AuthorLineRoundTrip` and `AuthorLineCaptures` pin it down in both directions. |
| PatchPatterns.AuthorLineRoundTrip | src/patch.rs:8 | `From: ` followed by nonempty text without a line feed matches the author pattern and captures that text. |
| PatchPatterns.AuthorLineCaptures | src/patch.rs:8 | An author capture is nonempty text without a line feed, and the line is `From: ` followed by it. |
| PatchPatterns.MatchDateLine | src/patch.rs:9 | The date pattern and the group kept at src/patch.rs:76-78. It has no contract of its own. `DateLineRoundTrip`, `DateLineCaptures` and `PositiveOffsetRejected` pin it down. |
| PatchPatterns.DateLineRoundTrip | src/patch.rs:9 | `Date: <weekday>, <date>`, where the date has the commit-date shape, matches the date pattern and captures the date without the weekday. |
| PatchPatterns.DateLineCaptures | src/patch.rs:9 | A date capture has the commit-date shape, and the line is its rendering with some weekday name. |
| PatchPatterns.OrigDateTextMatches | src/patch.rs:9 | Every `D Mon YYYY hh:mm:ss -zzzz` date built from well-formed parts matches the date group of the date pattern. |
| PatchPatterns.OrigDateTextParts | src/patch.rs:9 | Conversely, every string the commit-date predicate accepts is such a date: a nonempty day number, a month name, a four-digit year, a clock and four offset digits after a `-`. So the predicate accepts no more than the date group of the pattern. |
| PatchPatterns.PositiveOffsetRejected | src/patch.rs:9 | A `Date:` line whose offset is signed `+` never matches. |
| PatchPatterns.MatchSubjectLine | src/patch.rs:10 | The subject pattern and the group kept at src/patch.rs:91-94. It has no contract of its own. `SubjectLineRoundTrip` and `SubjectLineCaptures` pin it down in both directions. |
| PatchPatterns.SubjectLineRoundTrip | src/patch.rs:10 | `Subject: [PATCH<counter>] <subject>`, with a series counter (an optional white-space character, digits, any number of `/`, digits) and nonempty subject text, matches the subject pattern and captures exactly the subject. |
| PatchPatterns.SubjectLineCaptures | src/patch.rs:10 | A subject capture is nonempty text, and the line is its rendering with some series counter. |
| PatchPatterns.SeriesCounterHasNoBracket | src/patch.rs:10 | No series counter contains `]`, so the first `]` after `[PATCH` is the one that closes the prefix. |
| PatchScenarios.ExampleParses | src/patch.rs:32-126 | The example patch (hash line, `From: J. Doe <j@example.com>`, a `-0500` date, `Subject: [PATCH 1/1] Fix bug`, a blank line, `Fixes the thing.`, `---`, one diff line) gives the record with those captures and the message `Fix bug\n\nFixes the thing.\n`. |
| PatchScenarios.ExampleParsesSigned | src/patch.rs:105-109 | With a signature, the same example's message ends with `Signed-off-by: <signature>\n`. |
| PatchScenarios.ExampleTitleRejected | src/patch.rs:57-70 | Replacing the `From:` header of the example with a `Title:` line yields no record. |
| PatchScenarios.ExampleSubjectTitleRejected | src/patch.rs:87-101 | Replacing the `Subject:` header of the example with `Title: Fix bug` yields no record. |
| PatchScenarios.ExamplePositiveOffsetRejected | src/patch.rs:72-86 | Replacing the example's date with one whose offset is `+0100` yields no record. |
| PatchScenarios.ExampleEndingOnDelimiterRejected | src/patch.rs:116-125 | The example cut off right after its `---` line yields no record. |

## Left out

- File access is not modelled: `File::open`, `BufReader`, `reader.lines()` and the panics of their `unwrap()` calls on a missing file, a read error or invalid UTF-8 (src/patch.rs:33-39). The model starts from the lines, with their terminators already removed.
- `path.to_str().unwrap()` (src/patch.rs:36) is not modelled. The path is given as the string it converts to, so a path that is not valid Unicode, on which the source panics, is not represented.
- The regular-expression library and the `lazy_static!` compilation of the patterns (src/patch.rs:42-44, 58-60, 73-75, 88-90) are replaced by explicit predicates.
- The library reads `\d` and `\s` as Unicode classes. The model reads `\d` as an ASCII digit and `\s` as space, tab, line feed, vertical tab, form feed or carriage return. So a header line with a non-ASCII digit or white-space character at a place where the pattern has `\d` or `\s` is rejected by the model but accepted by the source. Where the pattern has `.`, both accept any character but a line feed.
- The `println!` diagnostics (src/patch.rs:52, 67, 82, 98, 120) are output only, so they are not modelled.
- src/main.rs is not part of this model. This affects:
  - command-line parsing;
  - collecting the patch files;
  - printing the results;
  - its call to `parse_patch` with a single argument at src/main.rs:47, which does not match the two-parameter signature at src/patch.rs:32.
- `Patch` is modelled as a value that the loop rebuilds at each `push_str`, not as a buffer grown in place. Each field except `path` starts empty and is appended to once (the message several times). `path` is set to the input path before any line is read and is never appended to, so only the final contents are observable.
- Idempotence and determinism of parsing need no lemma, because `ParseSpec` is a function of the lines, the path and the signature.

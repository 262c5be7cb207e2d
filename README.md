# Clippy JSON report reader, in Dafny

This project models the Rust plugin's `ClippyJsonReportReader`. Clippy, the
Rust linter, writes its diagnostics as one JSON object per line. The reader
turns them into flat `ClippyIssue` records in two stages:

1. **Line reassembly** (`toJSON`). A line is kept when it starts with `{` and
   ends with `}`. The kept lines are joined by `,` inside
   `{"results": [` … `]}`. Module `ReportReassembly` (reassembly.dfy).
2. **Diagnostic extraction** (`read`, `onResult`, `addHelpDetails`,
   `suggestedMessage`, `toInteger`). Module `DiagnosticExtraction`
   (extraction.dfy).
   - The elements of `results` are visited in order.
   - Each element passes a chain of guards: a `message` object, a `code`
     object and a non-empty `spans` array.
   - An element that passes becomes one issue. Its file and positions come
     from the first span.
   - Its message is the primary text plus the children that are not noise,
     each with its suggested replacement.

Supporting modules:
- `Json` (json.dfy): the parse tree the JSON library returns, and field access
  as the reader performs it.
- `Strings` (strings.dfy): the `java.lang.String` operations the reader uses.
- `Wrappers` (wrappers.dfy): `Option`.

The two loops are imperative methods, each proved equal to a pure
specification function:
- `ToJson` (the `while` loop of `toJSON`) is proved equal to `Envelope`.
- `AddHelpDetails` (the `for` loop of `addHelpDetails`) is proved equal to
  `message + Details(children)`.

`Read` and `OnResult` are methods proved equal to the functions `Reported` and
`IssueOf`. The properties of the reader are lemmas about those functions.

**Where the Java would throw.** The reader casts fields without checking
their types, and it dereferences a child's `level` and `message` without a
null check. The model gives such inputs no behaviour. The predicates
`RootReadable`, `ResultReadable` (with `MessageReadable` and `SpanReadable`)
and `ChildrenReadable` (with `ChildUsable` and `SuggestionReadable`) describe
exactly the inputs on which the Java does not throw. The operations require
them. Everything the Java handles without throwing is modelled, except
floating-point numbers (see "Left out"). That includes:
- absent fields;
- JSON `null`, which `JSONObject.get` also returns as `null`;
- empty arrays;
- non-numeric positions.

**Behaviour of the code worth stating outright:**
- Line 160 tests the raw line, untrimmed. `IsJsonLine` does not trim, so a
  line with leading or trailing blanks is dropped.
- Lines 83-87 check only that the `code` object exists and that `spans` is
  non-empty. `code.code` and the span positions (lines 95-98) are copied
  whether present or not.
  - `RuleKeyMayBeAbsent` exhibits an issue without a rule key.
  - `PositionsMayBeAbsent` exhibits an issue with all four positions absent.

## Model

| member | source | states |
|---|---|---|
| ReportReassembly.IsJsonLine | src/main/java/org/elegoff/plugins/rust/clippy/ClippyJsonReportReader.java:160 | The keep test: the raw line starts with `{` and ends with `}`, with no trimming and no brace balancing |
| ReportReassembly.JsonLines | src/main/java/org/elegoff/plugins/rust/clippy/ClippyJsonReportReader.java:158-165 | The kept lines, in input order (definition; its properties are JsonLinesMembers and JsonLinesAppend) |
| ReportReassembly.Envelope | src/main/java/org/elegoff/plugins/rust/clippy/ClippyJsonReportReader.java:149-168 | The document: `{"results": [` (BEGIN_JSON, built from RESULTS as at lines 34-35), the kept lines joined by `,`, then `]}` (END_JSON, line 36) |
| ReportReassembly.ConcatenatedReports | src/main/java/org/elegoff/plugins/rust/clippy/ClippyJsonReportReader.java:155-168 | Two reports with kept lines, read one after the other, give the first report's result list, one comma, then the second's |
| ReportReassembly.ToJson | src/main/java/org/elegoff/plugins/rust/clippy/ClippyJsonReportReader.java:149-168 | The buffer built line by line, with the separator that is empty before the first kept line and `,` after it, equals `Envelope(lines)`: `{"results": [` + kept lines joined by `,` + `]}` |
| ReportReassembly.ToJsonStep | src/main/java/org/elegoff/plugins/rust/clippy/ClippyJsonReportReader.java:158-164 | One iteration of the loop: appending separator and line for a kept line (then the separator becomes `,`), or nothing for a dropped one, keeps the buffer equal to the prefix's envelope body and the separator empty exactly when nothing was kept yet |
| ReportReassembly.JsonLinesPrefixStep | src/main/java/org/elegoff/plugins/rust/clippy/ClippyJsonReportReader.java:160-163 | One more line adds itself to the kept list iff it passes the brace test, and then the join grows by the separator and the line |
| ReportReassembly.JsonLinesAppend | src/main/java/org/elegoff/plugins/rust/clippy/ClippyJsonReportReader.java:158-165 | Lines are filtered one by one: the kept lines of `a + b` are those of `a` followed by those of `b`, so input order is kept |
| ReportReassembly.JsonLinesMembers | src/main/java/org/elegoff/plugins/rust/clippy/ClippyJsonReportReader.java:160 | A line is kept iff it occurs in the input and starts with `{` and ends with `}` (both directions) |
| ReportReassembly.EnvelopeWithoutJsonLines | src/main/java/org/elegoff/plugins/rust/clippy/ClippyJsonReportReader.java:149-168 | No line is kept iff no line passes the brace test, and then the document is `{"results": []}` |
| ReportReassembly.EnvelopeSkipsNoise | src/main/java/org/elegoff/plugins/rust/clippy/ClippyJsonReportReader.java:157-163 | A non-object line between two object lines is dropped and the two are joined by exactly one comma |
| Strings.JoinSnoc | src/main/java/org/elegoff/plugins/rust/clippy/ClippyJsonReportReader.java:161-162 | Appending one element to a join adds a separator only when the list was non-empty |
| Strings.JoinAppend | src/main/java/org/elegoff/plugins/rust/clippy/ClippyJsonReportReader.java:161-162 | Joining two non-empty lists puts exactly one separator between their joins |
| Strings.PrefixEachAppend | src/main/java/org/elegoff/plugins/rust/clippy/ClippyJsonReportReader.java:117-121 | Putting a newline before every line distributes over concatenation of the line lists |
| Json.GetObject | src/main/java/org/elegoff/plugins/rust/clippy/ClippyJsonReportReader.java:81-83 | A result is exactly the object stored under the key; when the cast cannot fail the result is present iff `get` returns non-null |
| Json.GetArray | src/main/java/org/elegoff/plugins/rust/clippy/ClippyJsonReportReader.java:86 | A result is exactly the array stored under the key; when the cast cannot fail the result is present iff `get` returns non-null |
| Json.GetString | src/main/java/org/elegoff/plugins/rust/clippy/ClippyJsonReportReader.java:85 | A result is exactly the string stored under the key; when the cast cannot fail the result is present iff `get` returns non-null |
| DiagnosticExtraction.IntValue | src/main/java/org/elegoff/plugins/rust/clippy/ClippyJsonReportReader.java:137 | The int value is congruent to the long modulo 2^32 and equals it when it fits in 32 bits |
| DiagnosticExtraction.ToInteger | src/main/java/org/elegoff/plugins/rust/clippy/ClippyJsonReportReader.java:135-140 | Present iff the value is a number; then congruent to it modulo 2^32 and equal to it when it fits; absent for a missing value or any other type |
| DiagnosticExtraction.SuggestedMessage | src/main/java/org/elegoff/plugins/rust/clippy/ClippyJsonReportReader.java:127-133 | No suggestion when `spans` is absent or empty; when the first span is an object the result is exactly its `suggested_replacement` string, present iff that field is |
| DiagnosticExtraction.SuggestionFromFirstSpanOnly | src/main/java/org/elegoff/plugins/rust/clippy/ClippyJsonReportReader.java:131-132 | Spans after the first never change the suggestion |
| DiagnosticExtraction.IsNoise | src/main/java/org/elegoff/plugins/rust/clippy/ClippyJsonReportReader.java:113-115 | A child is skipped iff its level equals "note" ignoring case or its message starts with "for further information visit" |
| DiagnosticExtraction.Details | src/main/java/org/elegoff/plugins/rust/clippy/ClippyJsonReportReader.java:107-123 | What the children add to the primary text: their contributions in child order (definition; its properties are DetailsAppend, DetailsAsLines and the noise lemmas) |
| DiagnosticExtraction.ChildrenReadable | src/main/java/org/elegoff/plugins/rust/clippy/ClippyJsonReportReader.java:108-132 | The casts and dereferences of lines 108-114, and of suggestedMessage on kept children (lines 129-132), do not throw for any child |
| DiagnosticExtraction.Contribution | src/main/java/org/elegoff/plugins/rust/clippy/ClippyJsonReportReader.java:109-121 | A noise child contributes the empty string; any other child's contribution starts with a newline and its message |
| DiagnosticExtraction.DetailsAppend | src/main/java/org/elegoff/plugins/rust/clippy/ClippyJsonReportReader.java:107-123 | Children contribute independently and in order: the details of `a + b` are those of `a` followed by those of `b` |
| DiagnosticExtraction.NoiseContributesNothing | src/main/java/org/elegoff/plugins/rust/clippy/ClippyJsonReportReader.java:113-115 | Inserting a noise child (level "note" in any case, or a message starting with "for further information visit") anywhere changes nothing, not even through its replacement |
| DiagnosticExtraction.AllNoiseAddsNothing | src/main/java/org/elegoff/plugins/rust/clippy/ClippyJsonReportReader.java:113-115 | Children that are all noise add nothing |
| DiagnosticExtraction.KeptChildren | src/main/java/org/elegoff/plugins/rust/clippy/ClippyJsonReportReader.java:112-115 | Every kept child is readable, is not noise and is one of the children; every child that is not noise is kept; there are never more kept children than children |
| DiagnosticExtraction.KeptChildrenAppend | src/main/java/org/elegoff/plugins/rust/clippy/ClippyJsonReportReader.java:107-115 | The kept children of `a + b` are those of `a` followed by those of `b`, so the filter keeps child order |
| DiagnosticExtraction.ContributionAsLines | src/main/java/org/elegoff/plugins/rust/clippy/ClippyJsonReportReader.java:117-121 | A kept child contributes a newline before its message and a newline before its replacement when it has one |
| DiagnosticExtraction.DetailsAsLines | src/main/java/org/elegoff/plugins/rust/clippy/ClippyJsonReportReader.java:104-124 | The details equal a second, independent definition: a newline before each line (message, then replacement) of each non-noise child, in child order |
| DiagnosticExtraction.DetailsPrefixStep | src/main/java/org/elegoff/plugins/rust/clippy/ClippyJsonReportReader.java:107-123 | One more child extends the buffer by exactly that child's contribution, keeping buffer = message + details of the prefix |
| DiagnosticExtraction.AppendChild | src/main/java/org/elegoff/plugins/rust/clippy/ClippyJsonReportReader.java:108-121 | The loop body appends exactly the child's contribution: nothing for noise, else newline + message and newline + replacement when there is one |
| DiagnosticExtraction.AddHelpDetails | src/main/java/org/elegoff/plugins/rust/clippy/ClippyJsonReportReader.java:104-125 | The composed message is the primary message followed by the details of all children, in order |
| DiagnosticExtraction.ResultReadable | src/main/java/org/elegoff/plugins/rust/clippy/ClippyJsonReportReader.java:81-99 | The casts of lines 81-99 (message, code, code.code, spans, first span, file_name, message text, children, level) do not throw, and the children are readable when addHelpDetails runs |
| DiagnosticExtraction.Reportable | src/main/java/org/elegoff/plugins/rust/clippy/ClippyJsonReportReader.java:81-87 | The guard chain passes: `message` and `message.code` are objects and `message.spans` is a non-empty array |
| DiagnosticExtraction.IssueOf | src/main/java/org/elegoff/plugins/rust/clippy/ClippyJsonReportReader.java:81-87 | An issue is produced iff `message` is an object, `message.code` is an object and `message.spans` is a non-empty array |
| DiagnosticExtraction.IssueFields | src/main/java/org/elegoff/plugins/rust/clippy/ClippyJsonReportReader.java:85-99 | ruleKey is `message.code.code`, severity is `message.level`, and the file and the four positions (through toInteger) come from the first span |
| DiagnosticExtraction.IssueMessage | src/main/java/org/elegoff/plugins/rust/clippy/ClippyJsonReportReader.java:90-94 | The message is exactly the primary text when it is absent or the children are absent or empty; otherwise primary + details, equal to primary + a newline before each kept line, and equal to the primary text when every child is noise |
| DiagnosticExtraction.FirstSpanOnly | src/main/java/org/elegoff/plugins/rust/clippy/ClippyJsonReportReader.java:88 | Spans after the first never change the issue |
| DiagnosticExtraction.RuleKeyMayBeAbsent | src/main/java/org/elegoff/plugins/rust/clippy/ClippyJsonReportReader.java:83-85 | Some readable diagnostic whose code object lacks `code` still yields an issue, with no rule key |
| DiagnosticExtraction.PositionsMayBeAbsent | src/main/java/org/elegoff/plugins/rust/clippy/ClippyJsonReportReader.java:95-98 | Some readable diagnostic yields an issue whose four positions are all absent |
| DiagnosticExtraction.ExampleHelpContribution | src/main/java/org/elegoff/plugins/rust/clippy/ClippyJsonReportReader.java:117-121 | A "help" child with message "try this" and replacement "return x;" contributes `"\ntry this\nreturn x;"` |
| DiagnosticExtraction.ExampleNoteIsNoise | src/main/java/org/elegoff/plugins/rust/clippy/ClippyJsonReportReader.java:113 | A child of level "NOTE" is noise (case is ignored) |
| DiagnosticExtraction.ExampleDetails | src/main/java/org/elegoff/plugins/rust/clippy/ClippyJsonReportReader.java:107-123 | The help child then the note child add `"\ntry this\nreturn x;"` |
| DiagnosticExtraction.HelpAndNoteComposition | src/main/java/org/elegoff/plugins/rust/clippy/ClippyJsonReportReader.java:75-99 | A needless_return warning with a help child and a note child yields the complete issue: file, rule key, positions 10/10/5/17, severity and message `"unneeded return\ntry this\nreturn x;"` |
| DiagnosticExtraction.OnResult | src/main/java/org/elegoff/plugins/rust/clippy/ClippyJsonReportReader.java:75-102 | The early returns, field copies and call to addHelpDetails hand the consumer exactly `IssueOf(result)` |
| DiagnosticExtraction.RootReadable | src/main/java/org/elegoff/plugins/rust/clippy/ClippyJsonReportReader.java:68-71 | The root is an object and `results`, when present, is an array whose elements onResult can read without throwing |
| DiagnosticExtraction.Issues | src/main/java/org/elegoff/plugins/rust/clippy/ClippyJsonReportReader.java:71 | The issues of the elements, one or none each, in array order (definition; its properties are IssuesAppend, AtMostOneIssuePerResult and SkippedResultContinues) |
| DiagnosticExtraction.Reported | src/main/java/org/elegoff/plugins/rust/clippy/ClippyJsonReportReader.java:69-72 | A document without a `results` array yields no issue |
| DiagnosticExtraction.IssuesAppend | src/main/java/org/elegoff/plugins/rust/clippy/ClippyJsonReportReader.java:71 | Elements are handled independently and in array order: the issues of `a + b` are those of `a` followed by those of `b` |
| DiagnosticExtraction.AtMostOneIssuePerResult | src/main/java/org/elegoff/plugins/rust/clippy/ClippyJsonReportReader.java:71 | There are never more issues than elements |
| DiagnosticExtraction.SkippedResultContinues | src/main/java/org/elegoff/plugins/rust/clippy/ClippyJsonReportReader.java:79-87 | A skipped element yields nothing, and the elements after it are still reported |
| DiagnosticExtraction.Read | src/main/java/org/elegoff/plugins/rust/clippy/ClippyJsonReportReader.java:67-73 | Visiting the elements in order and collecting what the consumer receives gives exactly `Reported(root)` |

## Left out

- File and stream I/O in `toJSON` is not modelled: the reader, try-with-resources, `ByteArrayInputStream` and the platform encoding of `getBytes()` (lines 152-169). The input is the report's lines and the output a `string`.
- The `FileNotFoundException` for a null file (lines 145-147) is not modelled: the lines are always given.
- The JSON parser and UTF-8 decoding (line 68) belong to a foreign library. The model starts from the parse tree, the `JValue` datatype.
- Floating-point numbers are not modelled. The parser returns them as `Double`, and `intValue()` would truncate them. Only integers (`Long`) are modelled, so `ToInteger` treats every number as an integer.
- Java exceptions are not modelled: a `ClassCastException` on a wrongly typed field, or a `NullPointerException` on a child without `level` or `message`. Those inputs are excluded by the readability preconditions, so no exception propagates out of `read`.
- The `Consumer` callback (lines 33, 101) is not modelled. The issues it would receive are returned as a sequence, in call order.
- The mutable `ClippyIssue` is a value. It is filled before it reaches the consumer and never changed afterwards.
- Strings.EqualsIgnoreCaseAscii: it folds case for ASCII letters only. `equalsIgnoreCase` folds all of Unicode, but only the constant "note" is compared, and no non-ASCII character folds to one of its letters.
- DiagnosticExtraction.AppendChild is the body of the `addHelpDetails` loop, written as its own method. It reads the same fields and appends the same strings in the same order.

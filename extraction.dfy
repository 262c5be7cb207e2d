/**
 * Diagnostic extraction (ClippyJsonReportReader.read, onResult,
 * addHelpDetails, suggestedMessage, toInteger): walks the "results" array of
 * the reassembled document and turns each Clippy diagnostic into at most one
 * flat ClippyIssue.
 *
 * The Java code casts fields without checking their types and dereferences
 * child fields without checking for null; where it would throw, the model has
 * no behaviour. The predicates RootReadable, ResultReadable and
 * ChildrenReadable state exactly the inputs on which it does not throw, and
 * the operations require them.
 */
module DiagnosticExtraction {
  import opened Wrappers
  import opened Json
  import opened Strings
  import ReportReassembly

  const MESSAGE := "message"
  const VISIT_MSG := "for further information visit"
  const NOTE := "note"

  /** Java's Integer. */
  newtype int32 = x: int | -0x8000_0000 <= x < 0x8000_0000

  /** The flat issue handed to the consumer; every field may be absent. */
  datatype ClippyIssue = ClippyIssue(
    filePath: Option<string>,
    ruleKey: Option<string>,
    message: Option<string>,
    lineNumberStart: Option<int32>,
    lineNumberEnd: Option<int32>,
    colNumberStart: Option<int32>,
    colNumberEnd: Option<int32>,
    severity: Option<string>)

  // ---------------------------------------------------------------------------
  // toInteger
  // ---------------------------------------------------------------------------

  /** Long.intValue(): the low 32 bits, read as a signed integer. */
  function IntValue(n: int): (r: int32)
    ensures (r as int - n) % 0x1_0000_0000 == 0
    ensures -0x8000_0000 <= n < 0x8000_0000 ==> r as int == n
  {
    ((n + 0x8000_0000) % 0x1_0000_0000 - 0x8000_0000) as int32
  }

  /** toInteger: a number becomes its int value; anything else, or nothing, is absent. */
  function ToInteger(value: Option<JValue>): (r: Option<int32>)
    ensures r.Some? <==> value.Some? && value.value.JInt?
    ensures r.Some? ==> (r.value as int - value.value.n) % 0x1_0000_0000 == 0
    ensures r.Some? && -0x8000_0000 <= value.value.n < 0x8000_0000 ==> r.value as int == value.value.n
  {
    match value
    case Some(JInt(n)) => Some(IntValue(n))
    case _ => None
  }

  // ---------------------------------------------------------------------------
  // suggestedMessage and the children of a diagnostic
  // ---------------------------------------------------------------------------

  /** suggestedMessage: the suggested_replacement of the first span of a child. */
  function SuggestedMessage(child: JMap): (r: Option<string>)
    ensures GetArray(child, "spans").None? ==> r.None?
    ensures GetArray(child, "spans") == Some([]) ==> r.None?
    ensures r.Some? ==> exists span :: GetArray(child, "spans").value[0] == JObject(span)
                                       && GetString(span, "suggested_replacement") == r
    ensures GetArray(child, "spans").Some? && |GetArray(child, "spans").value| > 0
            && GetArray(child, "spans").value[0].JObject? ==>
              r == GetString(GetArray(child, "spans").value[0].fields, "suggested_replacement")
  {
    match GetArray(child, "spans")
    case None => None
    case Some(spans) =>
      if |spans| == 0 || !spans[0].JObject? then None
      else GetString(spans[0].fields, "suggested_replacement")
  }

  /** The first span decides the suggestion; further spans are never looked at. */
  lemma SuggestionFromFirstSpanOnly(child: JMap, first: JValue, rest: seq<JValue>)
    ensures SuggestedMessage(child["spans" := JArray([first] + rest)])
         == SuggestedMessage(child["spans" := JArray([first])])
  {
    var long := child["spans" := JArray([first] + rest)];
    var short := child["spans" := JArray([first])];
    assert GetArray(long, "spans") == Some([first] + rest);
    assert GetArray(short, "spans") == Some([first]);
  }

  /** The casts suggestedMessage performs on a child do not throw. */
  predicate SuggestionReadable(child: JMap)
  {
    && ArrayCastOk(child, "spans")
    && (GetArray(child, "spans").Some? && |GetArray(child, "spans").value| > 0 ==>
          var span := GetArray(child, "spans").value[0];
          span.JObject? && StringCastOk(span.fields, "suggested_replacement"))
  }

  /** addHelpDetails dereferences a child's level and message: both must be present strings. */
  predicate ChildReadable(child: JValue)
  {
    child.JObject? && GetString(child.fields, "level").Some? && GetString(child.fields, MESSAGE).Some?
  }

  /** A child is noise when its level is "note" in any case, or it only points to the documentation. */
  predicate IsNoise(child: JValue)
    requires ChildReadable(child)
  {
    || EqualsIgnoreCaseAscii(GetString(child.fields, "level").value, NOTE)
    || StartsWith(GetString(child.fields, MESSAGE).value, VISIT_MSG)
  }

  /** addHelpDetails does not throw on this child: its level and message are read, and its suggestion when it is kept. */
  predicate ChildUsable(child: JValue)
  {
    ChildReadable(child) && (!IsNoise(child) ==> SuggestionReadable(child.fields))
  }

  /** The children on which addHelpDetails does not throw. */
  predicate ChildrenReadable(children: seq<JValue>)
  {
    forall i :: 0 <= i < |children| ==> ChildUsable(children[i])
  }

  /** What one child adds to the message: nothing if it is noise, else its text and then its suggestion, each on a new line. */
  function Contribution(child: JValue): (r: string)
    requires ChildReadable(child)
    ensures IsNoise(child) ==> r == ""
    ensures !IsNoise(child) ==> StartsWith(r, "\n" + GetString(child.fields, MESSAGE).value)
  {
    if IsNoise(child) then ""
    else
      var text := "\n" + GetString(child.fields, MESSAGE).value;
      match SuggestedMessage(child.fields)
      case Some(replacement) => text + "\n" + replacement
      case None => text
  }

  /** What the children add to the primary message, in child order. */
  function Details(children: seq<JValue>): string
    requires ChildrenReadable(children)
  {
    if children == [] then "" else Contribution(children[0]) + Details(children[1..])
  }

  lemma DetailsSingle(child: JValue)
    requires ChildUsable(child)
    ensures ChildrenReadable([child])
    ensures Details([child]) == Contribution(child)
  {
    assert [child][1..] == [];
  }

  lemma ChildrenReadableAppend(a: seq<JValue>, b: seq<JValue>)
    requires ChildrenReadable(a) && ChildrenReadable(b)
    ensures ChildrenReadable(a + b)
  {
    forall i | 0 <= i < |a + b|
      ensures ChildUsable((a + b)[i])
    {
      if i < |a| {
        assert (a + b)[i] == a[i];
      } else {
        assert (a + b)[i] == b[i - |a|];
      }
    }
  }

  /** The children contribute independently: details distribute over concatenation. */
  lemma {:induction false} DetailsAppend(a: seq<JValue>, b: seq<JValue>)
    requires ChildrenReadable(a) && ChildrenReadable(b)
    ensures ChildrenReadable(a + b)
    ensures Details(a + b) == Details(a) + Details(b)
    decreases |a|
  {
    ChildrenReadableAppend(a, b);
    if a == [] {
      assert a + b == b;
    } else {
      assert (a + b)[0] == a[0];
      assert (a + b)[1..] == a[1..] + b;
      DetailsAppend(a[1..], b);
    }
  }

  /** A noise child contributes nothing, not even its suggested replacement. */
  lemma NoiseContributesNothing(before: seq<JValue>, child: JValue, after: seq<JValue>)
    requires ChildrenReadable(before) && ChildrenReadable(after)
    requires ChildReadable(child) && IsNoise(child)
    ensures ChildrenReadable(before + [child] + after)
    ensures Details(before + [child] + after) == Details(before + after)
  {
    DetailsSingle(child);
    DetailsAppend(before, [child]);
    assert Details(before + [child]) == Details(before);
    DetailsAppend(before + [child], after);
    DetailsAppend(before, after);
  }

  /** Children that are all noise leave the message as it was. */
  lemma {:induction false} AllNoiseAddsNothing(children: seq<JValue>)
    requires ChildrenReadable(children)
    requires forall i :: 0 <= i < |children| ==> IsNoise(children[i])
    ensures Details(children) == ""
    decreases |children|
  {
    if children != [] {
      AllNoiseAddsNothing(children[1..]);
    }
  }

  // A second, independent description of the details: keep the children that
  // are not noise, list their lines (message, then suggestion if any) and put
  // each line after a newline.

  /** The children that are not noise, in order. */
  function KeptChildren(children: seq<JValue>): (kept: seq<JValue>)
    requires forall i :: 0 <= i < |children| ==> ChildReadable(children[i])
    ensures forall i :: 0 <= i < |kept| ==> ChildReadable(kept[i]) && !IsNoise(kept[i]) && kept[i] in children
    ensures forall i :: 0 <= i < |children| && !IsNoise(children[i]) ==> children[i] in kept
    ensures |kept| <= |children|
  {
    if children == [] then []
    else (if IsNoise(children[0]) then [] else [children[0]]) + KeptChildren(children[1..])
  }

  /** Filtering is done child by child, so the kept children stay in child order. */
  lemma {:induction false} KeptChildrenAppend(a: seq<JValue>, b: seq<JValue>)
    requires forall i :: 0 <= i < |a| ==> ChildReadable(a[i])
    requires forall i :: 0 <= i < |b| ==> ChildReadable(b[i])
    ensures forall i :: 0 <= i < |a + b| ==> ChildReadable((a + b)[i])
    ensures KeptChildren(a + b) == KeptChildren(a) + KeptChildren(b)
    decreases |a|
  {
    assert forall i :: 0 <= i < |a + b| ==> (a + b)[i] == if i < |a| then a[i] else b[i - |a|];
    if a == [] {
      assert a + b == b;
    } else {
      assert (a + b)[0] == a[0];
      assert (a + b)[1..] == a[1..] + b;
      KeptChildrenAppend(a[1..], b);
      var head := if IsNoise(a[0]) then [] else [a[0]];
      ConcatAssoc(head, KeptChildren(a[1..]), KeptChildren(b));
    }
  }

  /** The lines a kept child adds: its message, then its suggestion when it has one. */
  function ChildLines(child: JValue): seq<string>
    requires ChildReadable(child)
  {
    [GetString(child.fields, MESSAGE).value]
      + match SuggestedMessage(child.fields) case Some(replacement) => [replacement] case None => []
  }

  /** The lines the kept children add, in order. */
  function DetailLines(kept: seq<JValue>): seq<string>
    requires forall i :: 0 <= i < |kept| ==> ChildReadable(kept[i])
  {
    if kept == [] then [] else ChildLines(kept[0]) + DetailLines(kept[1..])
  }

  /** A kept child contributes a newline before each of its lines. */
  lemma ContributionAsLines(child: JValue)
    requires ChildReadable(child) && !IsNoise(child)
    ensures Contribution(child) == PrefixEach("\n", ChildLines(child))
  {
    var text := GetString(child.fields, MESSAGE).value;
    match SuggestedMessage(child.fields)
    case Some(replacement) =>
      assert ChildLines(child) == [text, replacement];
      assert [text, replacement][1..] == [replacement];
      assert [replacement][1..] == [];
      assert PrefixEach("\n", [replacement]) == "\n" + replacement;
      assert Contribution(child) == "\n" + text + ("\n" + replacement);
    case None =>
      assert ChildLines(child) == [text];
      assert [text][1..] == [];
  }

  /** The loop's accumulation equals: a newline before each line of each kept child. */
  lemma {:induction false} DetailsAsLines(children: seq<JValue>)
    requires ChildrenReadable(children)
    ensures Details(children) == PrefixEach("\n", DetailLines(KeptChildren(children)))
    decreases |children|
  {
    if children != [] {
      var c, rest := children[0], children[1..];
      DetailsAsLines(rest);
      var kept := KeptChildren(rest);
      if IsNoise(c) {
        assert KeptChildren(children) == kept;
      } else {
        assert KeptChildren(children) == [c] + kept;
        assert ([c] + kept)[1..] == kept;
        assert DetailLines([c] + kept) == ChildLines(c) + DetailLines(kept);
        PrefixEachAppend("\n", ChildLines(c), DetailLines(kept));
        ContributionAsLines(c);
      }
    }
  }

  lemma ContributionOfKept(child: JValue)
    requires ChildReadable(child) && !IsNoise(child)
    ensures Contribution(child) == "\n" + GetString(child.fields, MESSAGE).value
      + if SuggestedMessage(child.fields).Some? then "\n" + SuggestedMessage(child.fields).value else ""
  {
  }

  /** Appending one child appends its contribution. */
  lemma DetailsSnoc(children: seq<JValue>, child: JValue)
    requires ChildrenReadable(children) && ChildUsable(child)
    ensures ChildrenReadable(children + [child])
    ensures Details(children + [child]) == Details(children) + Contribution(child)
  {
    DetailsSingle(child);
    DetailsAppend(children, [child]);
  }

  /** One more child of the loop adds exactly that child's contribution. */
  lemma DetailsPrefixStep(message: string, children: seq<JValue>, i: nat, before: string, after: string)
    requires i < |children|
    requires ChildrenReadable(children[..i]) && before == message + Details(children[..i])
    requires ChildUsable(children[i]) && after == before + Contribution(children[i])
    ensures ChildrenReadable(children[..i + 1]) && after == message + Details(children[..i + 1])
  {
    var prefix, child := children[..i], children[i];
    TakeOneMore(children, i);
    DetailsSnoc(prefix, child);
    ConcatAssoc(message, Details(prefix), Contribution(child));
  }

  /** One pass of addHelpDetails' loop: skip a noise child, else append its text and its suggestion. */
  method AppendChild(sb: string, child: JValue) returns (appended: string)
    requires ChildUsable(child)
    ensures appended == sb + Contribution(child)
  {
    var level := GetString(child.fields, "level").value;
    var childMsg := GetString(child.fields, MESSAGE).value;
    var isNote := EqualsIgnoreCaseAscii(level, NOTE);
    var isVisitLink := StartsWith(childMsg, VISIT_MSG);
    if isNote || isVisitLink {
      return sb;
    }
    appended := sb + "\n" + childMsg;
    var replStr := SuggestedMessage(child.fields);
    if replStr.Some? {
      appended := appended + "\n" + replStr.value;
    }
    ContributionOfKept(child);
  }

  /** addHelpDetails: the primary message extended by the details of the children. */
  method AddHelpDetails(message: string, children: seq<JValue>) returns (composed: string)
    requires ChildrenReadable(children)
    ensures composed == message + Details(children)
  {
    var sb := message;
    for i := 0 to |children|
      invariant ChildrenReadable(children[..i])
      invariant sb == message + Details(children[..i])
    {
      ghost var before := sb;
      sb := AppendChild(sb, children[i]);
      DetailsPrefixStep(message, children, i, before, sb);
    }
    assert children[..|children|] == children;
    composed := sb;
  }

  // ---------------------------------------------------------------------------
  // onResult
  // ---------------------------------------------------------------------------

  /** The casts onResult performs on the first span do not throw. */
  predicate SpanReadable(span: JValue)
  {
    span.JObject? && StringCastOk(span.fields, "file_name")
  }

  /** Every cast and dereference onResult reaches on this "message" object succeeds. */
  predicate MessageReadable(message: JMap)
  {
    && ObjectCastOk(message, "code")
    && (GetObject(message, "code").Some? ==>
          && StringCastOk(GetObject(message, "code").value, "code")
          && ArrayCastOk(message, "spans")
          && (GetArray(message, "spans").Some? && |GetArray(message, "spans").value| > 0 ==>
                && SpanReadable(GetArray(message, "spans").value[0])
                && StringCastOk(message, MESSAGE)
                && ArrayCastOk(message, "children")
                && (GetString(message, MESSAGE).Some? && GetArray(message, "children").Some? ==>
                      ChildrenReadable(GetArray(message, "children").value))
                && StringCastOk(message, "level")))
  }

  /** onResult does not throw on this element of "results". */
  predicate ResultReadable(result: JValue)
  {
    && result.JObject?
    && ObjectCastOk(result.fields, MESSAGE)
    && (GetObject(result.fields, MESSAGE).Some? ==> MessageReadable(GetObject(result.fields, MESSAGE).value))
  }

  /** The diagnostic has what an issue needs: a message with a code and at least one span. */
  predicate Reportable(result: JMap)
  {
    && GetObject(result, MESSAGE).Some?
    && GetObject(GetObject(result, MESSAGE).value, "code").Some?
    && GetArray(GetObject(result, MESSAGE).value, "spans").Some?
    && GetArray(GetObject(result, MESSAGE).value, "spans").value != []
  }

  /** The issue onResult hands to the consumer, if any. */
  function IssueOf(result: JValue): (r: Option<ClippyIssue>)
    requires ResultReadable(result)
    ensures r.Some? <==> Reportable(result.fields)
  {
    var message := GetObject(result.fields, MESSAGE);
    if message.None? then None
    else
      var code := GetObject(message.value, "code");
      if code.None? then None
      else
        var spans := GetArray(message.value, "spans");
        if spans.None? || |spans.value| == 0 then None
        else
          var span := spans.value[0].fields;
          var primary := GetString(message.value, MESSAGE);
          var children := GetArray(message.value, "children");
          var text :=
            if primary.Some? && children.Some? && |children.value| > 0
            then Some(primary.value + Details(children.value))
            else primary;
          Some(ClippyIssue(
            filePath := GetString(span, "file_name"),
            ruleKey := GetString(code.value, "code"),
            message := text,
            lineNumberStart := ToInteger(Get(span, "line_start")),
            lineNumberEnd := ToInteger(Get(span, "line_end")),
            colNumberStart := ToInteger(Get(span, "column_start")),
            colNumberEnd := ToInteger(Get(span, "column_end")),
            severity := GetString(message.value, "level")))
  }

  /**
   * Where the fields of an issue come from: the rule key from message.code.code,
   * the severity from message.level, and the file and positions from the first
   * span only.
   */
  lemma IssueFields(result: JValue)
    requires ResultReadable(result) && Reportable(result.fields)
    ensures
      var message := GetObject(result.fields, MESSAGE).value;
      var span := GetArray(message, "spans").value[0].fields;
      var issue := IssueOf(result).value;
      && issue.ruleKey == GetString(GetObject(message, "code").value, "code")
      && issue.severity == GetString(message, "level")
      && issue.filePath == GetString(span, "file_name")
      && issue.lineNumberStart == ToInteger(Get(span, "line_start"))
      && issue.lineNumberEnd == ToInteger(Get(span, "line_end"))
      && issue.colNumberStart == ToInteger(Get(span, "column_start"))
      && issue.colNumberEnd == ToInteger(Get(span, "column_end"))
  {
  }

  /**
   * The message of an issue: the primary text as it is when there is no
   * primary text, no children or only noise children; otherwise the primary
   * text followed by a newline and each line of each kept child.
   */
  lemma IssueMessage(result: JValue)
    requires ResultReadable(result) && Reportable(result.fields)
    ensures
      var message := GetObject(result.fields, MESSAGE).value;
      var primary := GetString(message, MESSAGE);
      var children := GetArray(message, "children");
      var issue := IssueOf(result).value;
      && (primary.None? || children.None? || children == Some([]) ==> issue.message == primary)
      && (primary.Some? && children.Some? ==>
            && ChildrenReadable(children.value)
            && issue.message == Some(primary.value + Details(children.value))
            && issue.message == Some(primary.value + PrefixEach("\n", DetailLines(KeptChildren(children.value))))
            && ((forall i :: 0 <= i < |children.value| ==> IsNoise(children.value[i])) ==> issue.message == primary))
  {
    var message := GetObject(result.fields, MESSAGE).value;
    var primary := GetString(message, MESSAGE);
    var children := GetArray(message, "children");
    if primary.Some? && children.Some? {
      DetailsAsLines(children.value);
      if forall i :: 0 <= i < |children.value| ==> IsNoise(children.value[i]) {
        AllNoiseAddsNothing(children.value);
        assert primary.value + "" == primary.value;
      }
      if children.value == [] {
        assert primary.value + "" == primary.value;
      }
    }
  }


  /** Only the first span is read: spans after it never change the issue. */
  lemma FirstSpanOnly(result: JValue, rest: seq<JValue>)
    requires ResultReadable(result) && Reportable(result.fields)
    ensures
      var message := GetObject(result.fields, MESSAGE).value;
      var first := GetArray(message, "spans").value[0];
      var result' := JObject(result.fields[MESSAGE := JObject(message["spans" := JArray([first] + rest)])]);
      ResultReadable(result') && IssueOf(result') == IssueOf(result)
  {
    var message := GetObject(result.fields, MESSAGE).value;
    var first := GetArray(message, "spans").value[0];
    var message' := message["spans" := JArray([first] + rest)];
    var result' := JObject(result.fields[MESSAGE := JObject(message')]);
    assert GetObject(result'.fields, MESSAGE) == Some(message');
    assert GetArray(message', "spans") == Some([first] + rest);
    forall key | key != "spans" ensures Get(message', key) == Get(message, key) { }
    assert GetObject(message', "code") == GetObject(message, "code");
    assert GetString(message', MESSAGE) == GetString(message, MESSAGE);
    assert GetArray(message', "children") == GetArray(message, "children");
    assert GetString(message', "level") == GetString(message, "level");
  }

  /** Unlike a rule code, the rule key is optional: an issue is emitted for a code object without "code". */
  lemma RuleKeyMayBeAbsent()
    ensures exists result :: ResultReadable(result) && IssueOf(result).Some? && IssueOf(result).value.ruleKey.None?
  {
    var span := JObject(map["file_name" := JString("src/lib.rs")]);
    var message := map["code" := JObject(map[]), "spans" := JArray([span])];
    var result := JObject(map[MESSAGE := JObject(message)]);
    assert GetObject(result.fields, MESSAGE) == Some(message);
    assert GetObject(message, "code") == Some(map[]);
    assert GetArray(message, "spans") == Some([span]);
    assert ResultReadable(result);
    assert IssueOf(result).value.ruleKey.None?;
  }

  /** A non-empty "spans" is all that is checked: the emitted positions may all be absent. */
  lemma PositionsMayBeAbsent()
    ensures exists result :: && ResultReadable(result) && IssueOf(result).Some?
                             && IssueOf(result).value.lineNumberStart.None?
                             && IssueOf(result).value.lineNumberEnd.None?
                             && IssueOf(result).value.colNumberStart.None?
                             && IssueOf(result).value.colNumberEnd.None?
  {
    var span := JObject(map["line_start" := JString("10")]);
    var code := map["code" := JString("clippy::needless_return")];
    var message := map["code" := JObject(code), "spans" := JArray([span])];
    var result := JObject(map[MESSAGE := JObject(message)]);
    assert GetObject(result.fields, MESSAGE) == Some(message);
    assert GetObject(message, "code") == Some(code);
    assert GetArray(message, "spans") == Some([span]);
    assert ResultReadable(result);
    assert IssueOf(result).value.lineNumberStart.None?;
  }

  // A worked example: a needless_return warning with a "help" child that
  // carries a suggested replacement and a "NOTE" child.

  const ExampleSpan: JMap := map["file_name" := JString("src/lib.rs"), "line_start" := JInt(10),
    "line_end" := JInt(10), "column_start" := JInt(5), "column_end" := JInt(17)]
  const ExampleReplacement: JMap := map["suggested_replacement" := JString("return x;")]
  const ExampleHelp: JMap := map["level" := JString("help"), MESSAGE := JString("try this"),
    "spans" := JArray([JObject(ExampleReplacement)])]
  const ExampleNote: JMap := map["level" := JString("NOTE"), MESSAGE := JString("`#[warn]` on by default")]
  const ExampleCode: JMap := map["code" := JString("clippy::needless_return")]
  const ExampleMessage: JMap := map["code" := JObject(ExampleCode), MESSAGE := JString("unneeded return"),
    "level" := JString("warning"), "spans" := JArray([JObject(ExampleSpan)]),
    "children" := JArray([JObject(ExampleHelp), JObject(ExampleNote)])]
  const ExampleDiagnostic: JValue := JObject(map[MESSAGE := JObject(ExampleMessage)])

  lemma ExampleHelpIsKept()
    ensures ChildReadable(JObject(ExampleHelp)) && !IsNoise(JObject(ExampleHelp))
  {
    assert GetString(ExampleHelp, "level") == Some("help");
    assert GetString(ExampleHelp, MESSAGE) == Some("try this");
    assert ToLowerAscii("help"[0]) != ToLowerAscii(NOTE[0]);
    assert !StartsWith("try this", VISIT_MSG);
  }

  lemma ExampleHelpSuggestion()
    ensures SuggestionReadable(ExampleHelp)
    ensures SuggestedMessage(ExampleHelp) == Some("return x;")
  {
    assert GetArray(ExampleHelp, "spans") == Some([JObject(ExampleReplacement)]);
    assert GetString(ExampleReplacement, "suggested_replacement") == Some("return x;");
  }

  lemma ExampleHelpContribution()
    ensures ChildUsable(JObject(ExampleHelp)) && !IsNoise(JObject(ExampleHelp))
    ensures Contribution(JObject(ExampleHelp)) == "\ntry this\nreturn x;"
  {
    ExampleHelpIsKept();
    ExampleHelpSuggestion();
    assert GetString(ExampleHelp, MESSAGE) == Some("try this");
    assert "\n" + "try this" + "\n" + "return x;" == "\ntry this\nreturn x;";
  }

  lemma ExampleNoteIsNoise()
    ensures ChildReadable(JObject(ExampleNote)) && IsNoise(JObject(ExampleNote))
  {
    assert GetString(ExampleNote, "level") == Some("NOTE");
    assert GetString(ExampleNote, MESSAGE).Some?;
    assert EqualsIgnoreCaseAscii("NOTE", NOTE);
  }

  lemma ExampleDetails()
    ensures ChildrenReadable([JObject(ExampleHelp), JObject(ExampleNote)])
    ensures Details([JObject(ExampleHelp), JObject(ExampleNote)]) == "\ntry this\nreturn x;"
  {
    ExampleHelpContribution();
    ExampleNoteIsNoise();
    DetailsSingle(JObject(ExampleHelp));
    DetailsSingle(JObject(ExampleNote));
    DetailsAppend([JObject(ExampleHelp)], [JObject(ExampleNote)]);
    assert [JObject(ExampleHelp)] + [JObject(ExampleNote)] == [JObject(ExampleHelp), JObject(ExampleNote)];
  }

  // The lookups in the example's map literals, stated in small separate lemmas
  // so that no single proof about the example has to do all of them at once.

  lemma ExampleCodeFields()
    ensures GetObject(ExampleDiagnostic.fields, MESSAGE) == Some(ExampleMessage)
    ensures GetObject(ExampleMessage, "code") == Some(ExampleCode)
    ensures GetString(ExampleCode, "code") == Some("clippy::needless_return")
  {
  }

  lemma ExampleMessageFields()
    ensures GetArray(ExampleMessage, "spans") == Some([JObject(ExampleSpan)])
    ensures GetArray(ExampleMessage, "children") == Some([JObject(ExampleHelp), JObject(ExampleNote)])
    ensures GetString(ExampleMessage, MESSAGE) == Some("unneeded return")
    ensures GetString(ExampleMessage, "level") == Some("warning")
  {
  }

  lemma ExampleSpanFields()
    ensures GetString(ExampleSpan, "file_name") == Some("src/lib.rs")
    ensures Get(ExampleSpan, "line_start") == Some(JInt(10)) && Get(ExampleSpan, "line_end") == Some(JInt(10))
    ensures Get(ExampleSpan, "column_start") == Some(JInt(5)) && Get(ExampleSpan, "column_end") == Some(JInt(17))
  {
  }

  lemma ExampleCastsSucceed()
    ensures ObjectCastOk(ExampleDiagnostic.fields, MESSAGE) && ObjectCastOk(ExampleMessage, "code")
    ensures StringCastOk(ExampleCode, "code") && SpanReadable(JObject(ExampleSpan))
    ensures ArrayCastOk(ExampleMessage, "spans") && ArrayCastOk(ExampleMessage, "children")
    ensures StringCastOk(ExampleMessage, MESSAGE) && StringCastOk(ExampleMessage, "level")
  {
  }

  lemma ExampleReadable()
    ensures ResultReadable(ExampleDiagnostic) && Reportable(ExampleDiagnostic.fields)
  {
    ExampleDetails();
    ExampleCodeFields();
    ExampleMessageFields();
    ExampleCastsSucceed();
    assert MessageReadable(ExampleMessage);
  }

  lemma ExampleMessageText()
    ensures "unneeded return" + "\ntry this\nreturn x;" == "unneeded return\ntry this\nreturn x;"
  {
  }

  lemma HelpAndNoteComposition()
    ensures ResultReadable(ExampleDiagnostic)
    ensures IssueOf(ExampleDiagnostic) == Some(ClippyIssue(
      filePath := Some("src/lib.rs"), ruleKey := Some("clippy::needless_return"),
      message := Some("unneeded return\ntry this\nreturn x;"),
      lineNumberStart := Some(10), lineNumberEnd := Some(10),
      colNumberStart := Some(5), colNumberEnd := Some(17), severity := Some("warning")))
  {
    ExampleReadable();
    ExampleDetails();
    ExampleCodeFields();
    ExampleMessageFields();
    ExampleSpanFields();
    IssueFields(ExampleDiagnostic);
    IssueMessage(ExampleDiagnostic);
    ExampleMessageText();
  }

  /**
   * onResult: the guard chain, the field copies and addHelpDetails, step by
   * step. It follows the same guards as IssueOf; where IssueOf uses the
   * specification Details, this runs the loop of AddHelpDetails.
   */
  method OnResult(result: JValue) returns (issue: Option<ClippyIssue>)
    requires ResultReadable(result)
    ensures issue == IssueOf(result)
  {
    var message := GetObject(result.fields, MESSAGE);
    if message.None? {
      return None;
    }
    var code := GetObject(message.value, "code");
    if code.None? {
      return None;
    }
    var ruleKey := GetString(code.value, "code");
    var spans := GetArray(message.value, "spans");
    if spans.None? || |spans.value| == 0 {
      return None;
    }
    var span := spans.value[0].fields;
    var filePath := GetString(span, "file_name");
    var text := GetString(message.value, MESSAGE);
    var children := GetArray(message.value, "children");
    if text.Some? && children.Some? && |children.value| > 0 {
      var composed := AddHelpDetails(text.value, children.value);
      text := Some(composed);
    }
    issue := Some(ClippyIssue(
      filePath := filePath,
      ruleKey := ruleKey,
      message := text,
      lineNumberStart := ToInteger(Get(span, "line_start")),
      lineNumberEnd := ToInteger(Get(span, "line_end")),
      colNumberStart := ToInteger(Get(span, "column_start")),
      colNumberEnd := ToInteger(Get(span, "column_end")),
      severity := GetString(message.value, "level")));
  }

  // ---------------------------------------------------------------------------
  // read
  // ---------------------------------------------------------------------------

  predicate ResultsReadable(results: seq<JValue>)
  {
    forall i :: 0 <= i < |results| ==> ResultReadable(results[i])
  }

  /** The root is an object whose "results", when present, is an array of readable elements. */
  predicate RootReadable(root: JValue)
  {
    && root.JObject?
    && ArrayCastOk(root.fields, ReportReassembly.RESULTS)
    && (GetArray(root.fields, ReportReassembly.RESULTS).Some? ==>
          ResultsReadable(GetArray(root.fields, ReportReassembly.RESULTS).value))
  }

  /** The issues of the elements, in element order, at most one each. */
  function Issues(results: seq<JValue>): seq<ClippyIssue>
    requires ResultsReadable(results)
  {
    if results == [] then []
    else
      (match IssueOf(results[0]) case Some(issue) => [issue] case None => [])
        + Issues(results[1..])
  }

  /** The issues the consumer receives for a parsed document. */
  function Reported(root: JValue): (r: seq<ClippyIssue>)
    requires RootReadable(root)
    ensures GetArray(root.fields, ReportReassembly.RESULTS).None? ==> r == []
  {
    match GetArray(root.fields, ReportReassembly.RESULTS)
    case None => []
    case Some(results) => Issues(results)
  }

  lemma IssuesSingle(result: JValue)
    requires ResultReadable(result)
    ensures Issues([result]) == match IssueOf(result) case Some(issue) => [issue] case None => []
  {
    assert [result][1..] == [];
  }

  lemma ResultsReadableAppend(a: seq<JValue>, b: seq<JValue>)
    requires ResultsReadable(a) && ResultsReadable(b)
    ensures ResultsReadable(a + b)
  {
    forall i | 0 <= i < |a + b| ensures ResultReadable((a + b)[i]) {
      if i < |a| {
        assert (a + b)[i] == a[i];
      } else {
        assert (a + b)[i] == b[i - |a|];
      }
    }
  }

  /** Elements are processed independently and in order. */
  lemma {:induction false} IssuesAppend(a: seq<JValue>, b: seq<JValue>)
    requires ResultsReadable(a) && ResultsReadable(b)
    ensures ResultsReadable(a + b)
    ensures Issues(a + b) == Issues(a) + Issues(b)
    decreases |a|
  {
    ResultsReadableAppend(a, b);
    if a == [] {
      assert a + b == b;
    } else {
      assert (a + b)[0] == a[0];
      assert (a + b)[1..] == a[1..] + b;
      IssuesAppend(a[1..], b);
      var head := match IssueOf(a[0]) case Some(issue) => [issue] case None => [];
      ConcatAssoc(head, Issues(a[1..]), Issues(b));
    }
  }

  /** Each element yields at most one issue. */
  lemma {:induction false} AtMostOneIssuePerResult(results: seq<JValue>)
    requires ResultsReadable(results)
    ensures |Issues(results)| <= |results|
    decreases |results|
  {
    if results != [] {
      AtMostOneIssuePerResult(results[1..]);
    }
  }

  /** A skipped element is skipped silently: the elements after it are still reported. */
  lemma SkippedResultContinues(before: seq<JValue>, skipped: JValue, after: seq<JValue>)
    requires ResultsReadable(before) && ResultsReadable(after)
    requires ResultReadable(skipped) && !Reportable(skipped.fields)
    ensures ResultsReadable(before + [skipped] + after)
    ensures Issues(before + [skipped] + after) == Issues(before) + Issues(after)
  {
    IssuesSingle(skipped);
    IssuesAppend(before, [skipped]);
    IssuesAppend(before + [skipped], after);
    assert Issues(before + [skipped]) == Issues(before);
  }

  /** read: one onResult call per element of "results", in order; the consumer's calls are collected. */
  method Read(root: JValue) returns (issues: seq<ClippyIssue>)
    requires RootReadable(root)
    ensures issues == Reported(root)
  {
    issues := [];
    var results := GetArray(root.fields, ReportReassembly.RESULTS);
    if results.Some? {
      var elements := results.value;
      for i := 0 to |elements|
        invariant issues == Issues(elements[..i])
      {
        var result := elements[i];
        TakeOneMore(elements, i);
        IssuesSingle(result);
        IssuesAppend(elements[..i], [result]);
        var issue := OnResult(result);
        if issue.Some? {
          issues := issues + [issue.value];
        }
      }
      assert elements[..|elements|] == elements;
    }
  }
}

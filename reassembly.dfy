/**
 * Line reassembly (ClippyJsonReportReader.toJSON): Clippy writes one JSON
 * object per line; the reader keeps the lines that look like objects and
 * wraps them into a single document {"results": [ ... ]}.
 */
module ReportReassembly {
  import opened Strings

  const RESULTS := "results"
  const BEGIN_JSON := "{\"" + RESULTS + "\": ["
  const END_JSON := "]}"

  /** A line is kept when it starts with '{' and ends with '}', untrimmed. */
  predicate IsJsonLine(line: string)
  {
    StartsWith(line, "{") && EndsWith(line, "}")
  }

  /** The kept lines, in input order. */
  function JsonLines(lines: seq<string>): seq<string>
  {
    if lines == [] then []
    else (if IsJsonLine(lines[0]) then [lines[0]] else []) + JsonLines(lines[1..])
  }

  /** The reassembled document. */
  function Envelope(lines: seq<string>): string
  {
    BEGIN_JSON + Join(",", JsonLines(lines)) + END_JSON
  }

  /** Filtering is done line by line: it distributes over concatenation, so order is kept. */
  lemma {:induction false} JsonLinesAppend(a: seq<string>, b: seq<string>)
    ensures JsonLines(a + b) == JsonLines(a) + JsonLines(b)
    decreases |a|
  {
    if a != [] {
      assert (a + b)[1..] == a[1..] + b;
      JsonLinesAppend(a[1..], b);
    } else {
      assert a + b == b;
    }
  }

  /** Exactly the lines that look like objects are kept. */
  lemma {:induction false} JsonLinesMembers(lines: seq<string>)
    ensures forall x :: x in JsonLines(lines) <==> x in lines && IsJsonLine(x)
    decreases |lines|
  {
    if lines != [] {
      JsonLinesMembers(lines[1..]);
      assert lines == [lines[0]] + lines[1..];
    }
  }

  /** A single line is kept or dropped according to IsJsonLine. */
  lemma JsonLinesSingle(line: string)
    ensures JsonLines([line]) == if IsJsonLine(line) then [line] else []
  {
    assert [line][1..] == [];
  }

  /** With no line kept the document is the empty result list, not an error. */
  lemma EnvelopeWithoutJsonLines(lines: seq<string>)
    ensures JsonLines(lines) == [] <==> forall i :: 0 <= i < |lines| ==> !IsJsonLine(lines[i])
    ensures JsonLines(lines) == [] ==> Envelope(lines) == "{\"results\": []}"
  {
    JsonLinesMembers(lines);
    if JsonLines(lines) != [] {
      assert JsonLines(lines)[0] in JsonLines(lines);
    } else {
      EmptyEnvelope();
    }
  }

  lemma EmptyEnvelope()
    ensures BEGIN_JSON + Join(",", []) + END_JSON == "{\"results\": []}"
  {
    assert BEGIN_JSON == "{\"results\": [";
    assert Join(",", []) == "";
  }

  /** A log line between two diagnostic lines is dropped and the two are joined by one comma. */
  lemma EnvelopeSkipsNoise(first: string, noise: string, second: string)
    requires IsJsonLine(first) && IsJsonLine(second) && !IsJsonLine(noise)
    ensures Envelope([first, noise, second]) == "{\"results\": [" + first + "," + second + "]}"
  {
    JsonLinesSingle(first);
    JsonLinesSingle(noise);
    JsonLinesSingle(second);
    JsonLinesAppend([first], [noise, second]);
    JsonLinesAppend([noise], [second]);
    assert [first, noise, second] == [first] + [noise, second];
    assert [noise, second] == [noise] + [second];
    assert JsonLines([first, noise, second]) == [first, second];
    assert [first, second][1..] == [second];
    assert Join(",", [first, second]) == first + "," + second;
    assert BEGIN_JSON == "{\"results\": [";
  }

  /**
   * Two reports read one after the other give one document whose result list
   * is the first report's followed, after a single comma, by the second's.
   */
  lemma ConcatenatedReports(a: seq<string>, b: seq<string>)
    requires JsonLines(a) != [] && JsonLines(b) != []
    ensures Envelope(a + b) == BEGIN_JSON + Join(",", JsonLines(a)) + "," + Join(",", JsonLines(b)) + END_JSON
  {
    JsonLinesAppend(a, b);
    JoinAppend(",", JsonLines(a), JsonLines(b));
    var left, right := Join(",", JsonLines(a)), Join(",", JsonLines(b));
    ConcatAssoc(BEGIN_JSON, left + ",", right);
    ConcatAssoc(BEGIN_JSON, left, ",");
  }

  /** One more line of the loop: a kept line is appended after the separator, a dropped one changes nothing. */
  lemma JsonLinesPrefixStep(lines: seq<string>, i: nat)
    requires i < |lines|
    ensures
      var kept := JsonLines(lines[..i]);
      var separator := if kept == [] then "" else ",";
      && JsonLines(lines[..i + 1]) == kept + (if IsJsonLine(lines[i]) then [lines[i]] else [])
      && Join(",", JsonLines(lines[..i + 1]))
         == if IsJsonLine(lines[i]) then Join(",", kept) + separator + lines[i] else Join(",", kept)
  {
    var prefix, line := lines[..i], lines[i];
    TakeOneMore(lines, i);
    JsonLinesAppend(prefix, [line]);
    JsonLinesSingle(line);
    if IsJsonLine(line) {
      JoinSnoc(",", JsonLines(prefix), line);
    } else {
      assert JsonLines(prefix) + [] == JsonLines(prefix);
    }
  }

  /** The loop of toJSON keeps its two invariants across one line. */
  lemma ToJsonStep(lines: seq<string>, i: nat, before: string, separatorBefore: string, after: string, separatorAfter: string)
    requires i < |lines|
    requires before == BEGIN_JSON + Join(",", JsonLines(lines[..i]))
    requires separatorBefore == if JsonLines(lines[..i]) == [] then "" else ","
    requires after == if IsJsonLine(lines[i]) then before + separatorBefore + lines[i] else before
    requires separatorAfter == if IsJsonLine(lines[i]) then "," else separatorBefore
    ensures after == BEGIN_JSON + Join(",", JsonLines(lines[..i + 1]))
    ensures separatorAfter == if JsonLines(lines[..i + 1]) == [] then "" else ","
  {
    JsonLinesPrefixStep(lines, i);
    if IsJsonLine(lines[i]) {
      var kept := Join(",", JsonLines(lines[..i]));
      ConcatAssoc(BEGIN_JSON, kept, separatorBefore);
      ConcatAssoc(BEGIN_JSON, kept + separatorBefore, lines[i]);
    }
  }

  /** toJSON, with the report given as its lines. */
  method ToJson(lines: seq<string>) returns (json: string)
    ensures json == Envelope(lines)
  {
    var sb := BEGIN_JSON;
    var separator := "";
    var i := 0;
    while i < |lines|
      invariant 0 <= i <= |lines|
      invariant sb == BEGIN_JSON + Join(",", JsonLines(lines[..i]))
      invariant separator == if JsonLines(lines[..i]) == [] then "" else ","
    {
      var line := lines[i];
      ghost var before, separatorBefore := sb, separator;
      if StartsWith(line, "{") && EndsWith(line, "}") {
        sb := sb + separator + line;
        separator := ",";
      }
      ToJsonStep(lines, i, before, separatorBefore, sb, separator);
      i := i + 1;
    }
    assert lines[..i] == lines;
    sb := sb + END_JSON;
    json := sb;
  }
}

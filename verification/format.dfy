/**
  The plain-text rendering of a looked-up record: a header line, then one
  "- column: value" line per field in column order, or a fixed sentence when
  there is nothing to show.
 */
module AccountFormat {
  import opened AccountTable

  const Header: string := "Account Details:"
  const NoDetails: string := "No account details to display."

  /** The line shown for one field, without its line break. */
  function FieldLine(f: Field): string {
    "- " + f.key + ": " + f.value
  }

  /** The field lines of a record, each ended by a line break. */
  function FieldLines(fields: Record): string {
    if |fields| == 0 then "" else FieldLine(fields[0]) + "\n" + FieldLines(fields[1..])
  }

  /** The text for a record, or the fallback sentence for an absent or empty one. */
  function FormatAccountDetails(details: Option<Record>): (r: string)
    ensures details.None? || details.value == [] ==> r == NoDetails
    ensures details.Some? && details.value != [] ==>
      |r| > |Header| && r[..|Header| + 1] == Header + "\n"
    ensures details.Some? && details.value != [] ==> r[|r| - 1] == '\n'
  {
    if details.Some? && |details.value| > 0 then
      var r := Header + "\n" + FieldLines(details.value);
      assert r[..|Header| + 1] == Header + "\n";
      FieldLinesEndInBreak(details.value);
      r
    else NoDetails
  }

  /** The field text of a non-empty record ends with a line break. */
  lemma {:induction false} FieldLinesEndInBreak(fields: Record)
    requires fields != []
    ensures |FieldLines(fields)| > 0 && FieldLines(fields)[|FieldLines(fields)| - 1] == '\n'
  {
    if |fields| > 1 {
      FieldLinesEndInBreak(fields[1..]);
    }
  }

  /** The field text of two records one after the other is the text of the
      first followed by the text of the second. */
  lemma {:induction false} FieldLinesAppend(a: Record, b: Record)
    ensures FieldLines(a + b) == FieldLines(a) + FieldLines(b)
  {
    if |a| > 0 {
      assert (a + b)[0] == a[0];
      assert (a + b)[1..] == a[1..] + b;
      FieldLinesAppend(a[1..], b);
    } else {
      assert a + b == b;
    }
  }

  /** The text of a non-empty record: the header line, then the field text
      (a step for FormatAppendsField, kept separate to keep its proof small). */
  lemma FormatIsHeaderThenFields(fields: Record)
    requires fields != []
    ensures FormatAccountDetails(Some(fields)) == Header + "\n" + FieldLines(fields)
  {
  }

  /** Associativity of concatenation, stated for string parameters so that
      proofs about the literal header stay within the resource limit. */
  lemma ConcatAssociates(h: string, a: string, b: string)
    ensures h + (a + b) == (h + a) + b
  {
  }

  /** The text is built the way the loop builds it, one field at a time: the
      header line with the first field's line, then each further field
      appends "- key: value" and a line break. Keys and values may be anything. */
  lemma FormatAppendsField(fields: Record, f: Field)
    ensures FormatAccountDetails(Some([f])) == Header + "\n" + FieldLine(f) + "\n"
    ensures fields != [] ==>
      FormatAccountDetails(Some(fields + [f])) == FormatAccountDetails(Some(fields)) + FieldLine(f) + "\n"
  {
    assert [f][1..] == [];
    var one := FieldLines([f]);
    assert one == FieldLine(f) + "\n" + FieldLines([]);
    assert one == FieldLine(f) + "\n";
    FormatIsHeaderThenFields([f]);
    ConcatAssociates(Header + "\n", FieldLine(f), "\n");
    if fields != [] {
      FieldLinesAppend(fields, [f]);
      FormatIsHeaderThenFields(fields);
      FormatIsHeaderThenFields(fields + [f]);
      ConcatAssociates(Header + "\n", FieldLines(fields), one);
      ConcatAssociates(Header + "\n" + FieldLines(fields), FieldLine(f), "\n");
    }
  }

  /** Splits text into lines at line breaks; a final line break does not
      start another line. */
  function Lines(s: string): seq<string> {
    if |s| == 0 then []
    else if s[0] == '\n' then [""] + Lines(s[1..])
    else
      var rest := Lines(s[1..]);
      if |rest| == 0 then [[s[0]]] else [[s[0]] + rest[0]] + rest[1..]
  }

  /** Neither the keys nor the values of a record contain a line break. */
  predicate SingleLineFields(fields: Record) {
    forall k :: 0 <= k < |fields| ==> '\n' !in fields[k].key && '\n' !in fields[k].value
  }

  /** A line break ends the line before it and nothing else. */
  lemma {:induction false} LinesAfterLine(line: string, rest: string)
    requires '\n' !in line
    ensures Lines(line + "\n" + rest) == [line] + Lines(rest)
  {
    if |line| == 0 {
      assert line + "\n" + rest == "\n" + rest;
      assert ("\n" + rest)[1..] == rest;
    } else {
      var s := line + "\n" + rest;
      assert s[0] == line[0];
      assert s[1..] == line[1..] + "\n" + rest;
      LinesAfterLine(line[1..], rest);
      assert [line[0]] + line[1..] == line;
    }
  }

  lemma FieldLineIsOneLine(f: Field)
    requires '\n' !in f.key && '\n' !in f.value
    ensures '\n' !in FieldLine(f)
  {
  }

  /** The field lines split back into exactly one line per field, in order. */
  lemma {:induction false} FieldLinesSplit(fields: Record)
    requires SingleLineFields(fields)
    ensures |Lines(FieldLines(fields))| == |fields|
    ensures forall k :: 0 <= k < |fields| ==> Lines(FieldLines(fields))[k] == FieldLine(fields[k])
  {
    if |fields| > 0 {
      FieldLineIsOneLine(fields[0]);
      assert SingleLineFields(fields[1..]) by {
        forall k | 0 <= k < |fields[1..]|
          ensures '\n' !in fields[1..][k].key && '\n' !in fields[1..][k].value
        {
          assert fields[1..][k] == fields[k + 1];
        }
      }
      FieldLinesSplit(fields[1..]);
      LinesAfterLine(FieldLine(fields[0]), FieldLines(fields[1..]));
      forall k | 1 <= k < |fields|
        ensures Lines(FieldLines(fields))[k] == FieldLine(fields[k])
      {
        assert fields[1..][k - 1] == fields[k];
      }
    }
  }

  /** The text of a non-empty record is the header line followed by one
      "- key: value" line per field, in record order: 1 + |fields| lines. */
  lemma FormattedLines(fields: Record)
    requires fields != []
    requires SingleLineFields(fields)
    ensures var lines := Lines(FormatAccountDetails(Some(fields)));
      && |lines| == 1 + |fields|
      && lines[0] == Header
      && forall k :: 0 <= k < |fields| ==> lines[k + 1] == FieldLine(fields[k])
  {
    FieldLinesSplit(fields);
    LinesAfterLine(Header, FieldLines(fields));
  }

  /** Text without a line break is one line. */
  lemma {:induction false} LinesOfOneLine(line: string)
    requires line != [] && '\n' !in line
    ensures Lines(line) == [line]
  {
    assert line[0] in line;
    if |line| > 1 {
      assert forall i :: 0 <= i < |line[1..]| ==> line[1..][i] == line[i + 1];
      LinesOfOneLine(line[1..]);
      assert [line[0]] + line[1..] == line;
    } else {
      assert line[1..] == [];
      assert Lines(line[1..]) == [];
      assert line == [line[0]];
    }
  }

  /** The formatter gives the fallback sentence exactly when the record is
      absent or empty: a record's text starts differently. */
  lemma FallbackOnlyWithoutRecord(details: Option<Record>)
    ensures FormatAccountDetails(details) == NoDetails <==> details.None? || details.value == []
  {
    if details.Some? && details.value != [] {
      var r := FormatAccountDetails(details);
      assert r[0] == (Header + "\n")[0] == 'A';
      assert NoDetails[0] == 'N';
    }
  }

  /** The fallback sentence is a single line and never the text of a record,
      so a reader can tell the two apart. */
  lemma FallbackIsDistinct(details: Option<Record>)
    ensures Lines(NoDetails) == [NoDetails]
    ensures FormatAccountDetails(details) == NoDetails <==> details.None? || details.value == []
  {
    assert '\n' !in NoDetails by {
      forall i | 0 <= i < |NoDetails|
        ensures NoDetails[i] != '\n'
      {
      }
    }
    LinesOfOneLine(NoDetails);
    FallbackOnlyWithoutRecord(details);
  }
}

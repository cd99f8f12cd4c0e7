/**
 * The field parser of one status-file paragraph (`PackageInfo._parse_paragraph`):
 * continuation lines are folded into the line they continue, the text is
 * split into lines, and every line is split at its first colon into a
 * stripped field name and a stripped value, later lines overwriting earlier
 * lines with the same field name.
 */
module Fields {
  import opened Text
  import opened Dict

  /** Folds continuation lines: every `"\n "` and then every `"\n\t"` becomes one space. */
  function Fold(paragraph: string): (folded: string)
    ensures |folded| <= |paragraph|
  {
    ReplaceNotLonger(paragraph, "\n ", " ");
    ReplaceNotLonger(Replace(paragraph, "\n ", " "), "\n\t", " ");
    Replace(Replace(paragraph, "\n ", " "), "\n\t", " ")
  }

  /** The logical lines of a paragraph. */
  function Lines(paragraph: string): seq<string>
  {
    SplitLines(Fold(paragraph))
  }

  /** One line as a (field name, value) pair: split at the first colon, both sides stripped. */
  function ParseLine(line: string): (entry: (string, string))
    ensures ':' !in entry.0
  {
    var (field, _, value) := Partition(line, ":");
    PartitionHeadAvoidsSeparator(line, ":");
    ContainsChar(field, ':');
    StripKeepsChars(field);
    (Strip(field), Strip(value))
  }

  /** Both sides of a parsed line are already stripped. */
  lemma ParseLineStripped(line: string)
    ensures var (field, value) := ParseLine(line); Strip(field) == field && Strip(value) == value
  {
    var (field, _, value) := Partition(line, ":");
    StripIdempotent(field);
    StripIdempotent(value);
  }

  function Entries(lines: seq<string>): (entries: seq<(string, string)>)
    ensures |entries| == |lines|
    ensures forall i :: 0 <= i < |lines| ==> entries[i] == ParseLine(lines[i])
  {
    seq(|lines|, i requires 0 <= i < |lines| => ParseLine(lines[i]))
  }

  /** The field map of a paragraph: its lines inserted in order, the last duplicate winning. */
  function ParseFields(paragraph: string): (parsed: map<string, string>)
    ensures forall field :: field in parsed ==> ':' !in field
  {
    EntryFieldsHaveNoColon(Lines(paragraph));
    BuildMap(Entries(Lines(paragraph)))
  }

  lemma EntryFieldsHaveNoColon(lines: seq<string>)
    ensures forall e :: e in Entries(lines) ==> ':' !in e.0
  {
    var entries := Entries(lines);
    forall e | e in entries ensures ':' !in e.0 {
      var i :| 0 <= i < |entries| && entries[i] == e;
      assert e == ParseLine(lines[i]);
    }
  }

  /** `parsed.get(field, '')` on the field map of a paragraph: always a stripped text. */
  function FieldValue(paragraph: string, field: string): (value: string)
    ensures Strip(value) == value
  {
    var entries := Entries(Lines(paragraph));
    BuildMapLastWins(entries, field);
    if field in ParseFields(paragraph) then
      ParseLineStripped(Lines(paragraph)[LastIndexOf(entries, field)]);
      ParseFields(paragraph)[field]
    else
      StripTrimmed("");
      ""
  }

  /** The loop of `_parse_paragraph`: fills the dictionary line by line. */
  method ParseParagraph(paragraph: string) returns (parsed: map<string, string>)
    ensures parsed == ParseFields(paragraph)
  {
    parsed := map[];
    var lines := SplitLines(Replace(Replace(paragraph, "\n ", " "), "\n\t", " "));
    ghost var entries := Entries(lines);
    var i := 0;
    while i < |lines|
      invariant 0 <= i <= |lines|
      invariant parsed == BuildMap(entries[..i])
    {
      var (field, _, value) := Partition(lines[i], ":");
      parsed := parsed[Strip(field) := Strip(value)];
      BuildMapSnoc(entries[..i], entries[i]);
      PrefixSnoc(entries, i);
      i := i + 1;
    }
    assert entries[..|lines|] == entries;
  }

  /** The value of a line is everything after its first colon, stripped; later colons stay. */
  lemma ParseLineAtFirstColon(field: string, value: string)
    requires ':' !in field
    ensures ParseLine(field + ":" + value) == (Strip(field), Strip(value))
  {
    PartitionAtFirst(field, ':', value);
  }

  /** A line without a colon is a field name with an empty value. */
  lemma ParseLineWithoutColon(line: string)
    requires ':' !in line
    ensures ParseLine(line) == (Strip(line), "")
  {
    ContainsChar(line, ':');
  }

  /**
   * The value of a field is the value of the last logical line naming it, or
   * `''` when no line names it.
   */
  lemma FieldValueIsLastLine(paragraph: string, field: string)
    ensures var i := LastIndexOf(Entries(Lines(paragraph)), field);
      && (field in ParseFields(paragraph) <==> i >= 0)
      && FieldValue(paragraph, field) == if i < 0 then "" else ParseLine(Lines(paragraph)[i]).1
  {
    BuildMapLastWins(Entries(Lines(paragraph)), field);
  }

  /** Replacing in `x + [c] + y` where `c` cannot start the pattern and `x` ends no partial match. */
  lemma ReplaceAroundKept(x: string, c: char, y: string, pat: string, with: string)
    requires |pat| > 0 && pat[0] != c && NoPartialMatchAtEnd(x, pat)
    ensures Replace(x + [c] + y, pat, with) == Replace(x, pat, with) + [c] + Replace(y, pat, with)
  {
    var rx, ry := Replace(x, pat, with), Replace(y, pat, with);
    assert Replace(x + [c] + y, pat, with) == rx + Replace([c] + y, pat, with) by {
      assert x + [c] + y == x + ([c] + y);
      ReplaceConcat(x, [c] + y, pat, with);
    }
    ReplaceHeadKept(c, y, pat, with);
    ConcatAssoc(rx, [c], ry);
  }

  /** Replacing in `x + pat + y` where `x` ends no partial match of `pat`. */
  lemma ReplaceAroundMatched(x: string, y: string, pat: string, with: string)
    requires |pat| > 0 && NoPartialMatchAtEnd(x, pat)
    ensures Replace(x + pat + y, pat, with) == Replace(x, pat, with) + with + Replace(y, pat, with)
  {
    var rx, ry := Replace(x, pat, with), Replace(y, pat, with);
    assert Replace(x + pat + y, pat, with) == rx + Replace(pat + y, pat, with) by {
      assert x + pat + y == x + (pat + y);
      ReplaceConcat(x, pat + y, pat, with);
    }
    ReplaceHeadMatched(y, pat, with);
    ConcatAssoc(rx, with, ry);
  }

  /** A break followed by a tab is not a break followed by a space: the first pass keeps it. */
  lemma FirstPassKeepsTabBreak(x: string, y: string)
    requires NoPartialMatchAtEnd(x, "\n ")
    ensures Replace(x + "\n\t" + y, "\n ", " ") == Replace(x, "\n ", " ") + "\n\t" + Replace(y, "\n ", " ")
  {
    var spaces := "\n ";
    var s := ['\n'] + (['\t'] + y);
    assert !OccursAt(s, spaces, 0) by {
      assert s[1] == '\t';
    }
    ReplaceHeadNotMatched(s, spaces, " ");
    assert s[1..] == ['\t'] + y;
    ReplaceHeadKept('\t', y, spaces, " ");
    assert x + "\n\t" + y == x + s;
    ReplaceConcat(x, s, spaces, " ");
  }

  /** Folding never leaves a line break at the end of a text that did not end with one. */
  lemma FirstPassEndsAsBefore(x: string)
    requires x == [] || x[|x| - 1] != '\n'
    ensures NoPartialMatchAtEnd(Replace(x, "\n ", " "), "\n\t")
  {
    if x != [] {
      ReplaceLast(x, "\n ", " ");
    }
  }

  /**
   * A field value written across an indented continuation line parses as if
   * it were written on one line with a single space at the join: the whole
   * field map is the same.
   */
  lemma ContinuationIsOneLine(before: string, after: string, indent: char)
    requires indent == ' ' || indent == '\t'
    requires before == [] || before[|before| - 1] != '\n'
    ensures Fold(before + ['\n', indent] + after) == Fold(before + " " + after)
    ensures ParseFields(before + ['\n', indent] + after) == ParseFields(before + " " + after)
  {
    var spaces, tabs := "\n ", "\n\t";
    assert NoPartialMatchAtEnd(before, spaces);
    var r1, rafter := Replace(before, spaces, " "), Replace(after, spaces, " ");
    ReplaceAroundKept(before, ' ', after, spaces, " ");
    assert Replace(before + " " + after, spaces, " ") == r1 + " " + rafter;
    if indent == ' ' {
      ReplaceAroundMatched(before, after, spaces, " ");
    } else {
      FirstPassKeepsTabBreak(before, after);
      FirstPassEndsAsBefore(before);
      ReplaceAroundMatched(r1, rafter, tabs, " ");
      ReplaceAroundKept(r1, ' ', rafter, tabs, " ");
    }
  }
}

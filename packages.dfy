/**
 * Package records (`PackageInfo`), built one per paragraph of the status
 * file (`PackageInfo.from_paragraph`); the split of the file contents into
 * paragraphs (`_read_dpkg_file`, after the read) and the filter that drops
 * records without a name (`_parse_dpkg_content`).
 */
module Packages {
  import opened Text
  import opened Dict
  import opened Fields
  import opened Depends

  /** One paragraph of the status file; every field is the raw text of its value. */
  datatype PackageInfo = PackageInfo(
    name: string,
    status: string,
    priority: string,
    section: string,
    installedSize: string,
    maintainer: string,
    architecture: string,
    version: string,
    description: string,
    dependencies: set<seq<string>>,
    paragraph: string)

  /**
   * `PackageInfo.from_paragraph`: the paragraph text is kept as it was, and a
   * paragraph without a `Depends` field has no dependencies.
   */
  function FromParagraph(paragraph: string): (info: PackageInfo)
    ensures info.paragraph == paragraph
    ensures "Depends" !in ParseFields(paragraph) ==> info.dependencies == {}
  {
    var parsed := ParseFields(paragraph);
    PackageInfo(
      name := GetOr(parsed, "Package", ""),
      status := GetOr(parsed, "Status", ""),
      priority := GetOr(parsed, "Priority", ""),
      section := GetOr(parsed, "Section", ""),
      installedSize := GetOr(parsed, "Installed-Size", ""),
      maintainer := GetOr(parsed, "Maintainer", ""),
      architecture := GetOr(parsed, "Architecture", ""),
      version := GetOr(parsed, "Version", ""),
      description := GetOr(parsed, "Description", ""),
      dependencies := DependencyGroups(Get(parsed, "Depends")),
      paragraph := paragraph)
  }

  /**
   * The record of one paragraph: each attribute is the value of the last
   * line naming its field, `''` when no line names it; the dependencies are
   * the parsed `Depends` field, none when it is absent; the paragraph text is
   * kept as it was.
   */
  lemma FromParagraphFields(paragraph: string)
    ensures var info := FromParagraph(paragraph);
      && info.name == FieldValue(paragraph, "Package")
      && info.status == FieldValue(paragraph, "Status")
      && info.priority == FieldValue(paragraph, "Priority")
      && info.section == FieldValue(paragraph, "Section")
      && info.installedSize == FieldValue(paragraph, "Installed-Size")
      && info.maintainer == FieldValue(paragraph, "Maintainer")
      && info.architecture == FieldValue(paragraph, "Architecture")
      && info.version == FieldValue(paragraph, "Version")
      && info.description == FieldValue(paragraph, "Description")
      && ("Depends" !in ParseFields(paragraph) ==> info.dependencies == {})
      && ("Depends" in ParseFields(paragraph) ==>
            info.dependencies == DependencyGroups(Some(ParseFields(paragraph)["Depends"])))
      && info.paragraph == paragraph
  {
  }

  /** The file contents split into paragraphs at every blank line (`data.split('\n\n')`). */
  function SplitParagraphs(data: string): (paragraphs: seq<string>)
    ensures |paragraphs| >= 1
    ensures Join(paragraphs, "\n\n") == data
  {
    SplitJoin(data, "\n\n");
    Split(data, "\n\n")
  }

  /** Joining the paragraphs with a blank line rebuilds the file contents, and no paragraph holds a blank line. */
  lemma SplitParagraphsRoundTrip(data: string)
    ensures Join(SplitParagraphs(data), "\n\n") == data
    ensures forall p :: p in SplitParagraphs(data) ==> !Contains(p, "\n\n")
  {
    SplitJoin(data, "\n\n");
    SplitPiecesAvoidSeparator(data, "\n\n");
  }

  /**
   * Paragraphs without a blank line, all but the last not ending in a line
   * break, are recovered by splitting their blank-line join.
   */
  lemma JoinParagraphsRoundTrip(paragraphs: seq<string>)
    requires |paragraphs| >= 1
    requires forall k :: 0 <= k < |paragraphs| ==> !Contains(paragraphs[k], "\n\n")
    requires forall k :: 0 <= k < |paragraphs| - 1 ==>
      paragraphs[k] == [] || paragraphs[k][|paragraphs[k]| - 1] != '\n'
    ensures SplitParagraphs(Join(paragraphs, "\n\n")) == paragraphs
  {
    forall k | 0 <= k < |paragraphs| - 1 ensures !Contains(paragraphs[k] + "\n", "\n\n") {
      var p := paragraphs[k];
      var q := p + "\n";
      forall j | 0 <= j <= |q| ensures !OccursAt(q, "\n\n", j) {
        if j + 2 <= |p| {
          assert q[j..j + 2] == p[j..j + 2];
          assert !OccursAt(p, "\n\n", j);
        } else if j + 2 == |q| {
          assert q[j] == p[|p| - 1];
        }
      }
    }
    assert "\n\n"[..1] == "\n";
    JoinSplit(paragraphs, "\n\n");
  }

  /** The record of every paragraph, in order. */
  function Records(paragraphs: seq<string>): (infos: seq<PackageInfo>)
    ensures |infos| == |paragraphs|
    ensures forall i :: 0 <= i < |paragraphs| ==> infos[i] == FromParagraph(paragraphs[i])
  {
    seq(|paragraphs|, i requires 0 <= i < |paragraphs| => FromParagraph(paragraphs[i]))
  }

  /** The records with a non-empty name, in order. */
  function KeepNamed(infos: seq<PackageInfo>): (kept: seq<PackageInfo>)
    ensures |kept| <= |infos|
    ensures forall p :: p in kept ==> p in infos && p.name != ""
    decreases |infos|
  {
    if |infos| == 0 then []
    else (if infos[0].name != "" then [infos[0]] else []) + KeepNamed(infos[1..])
  }

  /** `_parse_dpkg_content`: the records of the paragraphs, in order, without the nameless ones. */
  function ParseContent(paragraphs: seq<string>): (packages: seq<PackageInfo>)
    ensures |packages| <= |paragraphs|
    ensures forall p :: p in packages ==> p in Records(paragraphs) && p.name != ""
  {
    KeepNamed(Records(paragraphs))
  }

  /** The filter works record by record: it distributes over concatenation. */
  lemma {:induction false} KeepNamedAppend(first: seq<PackageInfo>, second: seq<PackageInfo>)
    ensures KeepNamed(first + second) == KeepNamed(first) + KeepNamed(second)
    decreases |first|
  {
    if |first| > 0 {
      var head := if first[0].name != "" then [first[0]] else [];
      assert KeepNamed(first + second) == head + KeepNamed(first[1..] + second) by {
        assert (first + second)[0] == first[0];
        assert (first + second)[1..] == first[1..] + second;
      }
      KeepNamedAppend(first[1..], second);
      ConcatAssoc(head, KeepNamed(first[1..]), KeepNamed(second));
    } else {
      assert first + second == second;
    }
  }

  /** A record is kept exactly when it is one of the records and has a name. */
  lemma {:induction false} KeepNamedMembers(infos: seq<PackageInfo>, p: PackageInfo)
    ensures p in KeepNamed(infos) <==> p in infos && p.name != ""
    decreases |infos|
  {
    if |infos| > 0 {
      assert p in infos <==> p == infos[0] || p in infos[1..] by {
        assert infos == [infos[0]] + infos[1..];
      }
      KeepNamedMembers(infos[1..], p);
    }
  }

  /**
   * The parsed content is exactly the records of the named paragraphs, in
   * paragraph order: it is built paragraph by paragraph, keeping a record
   * exactly when its name is not empty.
   */
  lemma ParseContentByParagraph(first: seq<string>, paragraph: string)
    ensures ParseContent(first + [paragraph]) == ParseContent(first)
      + (if FromParagraph(paragraph).name != "" then [FromParagraph(paragraph)] else [])
  {
    RecordsSnoc(first, paragraph);
    KeepNamedSnoc(Records(first), FromParagraph(paragraph));
  }

  lemma KeepNamedSnoc(infos: seq<PackageInfo>, info: PackageInfo)
    ensures KeepNamed(infos + [info]) == KeepNamed(infos) + (if info.name != "" then [info] else [])
  {
    KeepNamedAppend(infos, [info]);
    assert [info][1..] == [];
  }

  lemma RecordsSnoc(first: seq<string>, paragraph: string)
    ensures Records(first + [paragraph]) == Records(first) + [FromParagraph(paragraph)]
  {
    var whole, left := Records(first + [paragraph]), Records(first);
    forall i | 0 <= i < |left| ensures whole[i] == left[i] {
      assert (first + [paragraph])[i] == first[i];
    }
    SnocByIndex(whole, left, FromParagraph(paragraph));
  }

  /** The record of every paragraph is among the records. */
  lemma RecordOfParagraph(paragraphs: seq<string>, q: string)
    requires q in paragraphs
    ensures FromParagraph(q) in Records(paragraphs)
  {
    var i :| 0 <= i < |paragraphs| && paragraphs[i] == q;
    assert Records(paragraphs)[i] == FromParagraph(q);
  }

  /** Every record is the record of one of the paragraphs. */
  lemma ParagraphOfRecord(paragraphs: seq<string>, p: PackageInfo) returns (q: string)
    requires p in Records(paragraphs)
    ensures q in paragraphs && FromParagraph(q) == p
  {
    var infos := Records(paragraphs);
    var i :| 0 <= i < |infos| && infos[i] == p;
    q := paragraphs[i];
  }

  /**
   * The parsed content holds the record of a paragraph exactly when that
   * record has a name, and nothing else.
   */
  lemma ParseContentMembers(paragraphs: seq<string>, p: PackageInfo)
    ensures p in ParseContent(paragraphs) <==> p in Records(paragraphs) && p.name != ""
  {
    KeepNamedMembers(Records(paragraphs), p);
  }

  /** A name is among the parsed content exactly when it is not empty and some paragraph has it. */
  lemma ContentHasName(paragraphs: seq<string>, name: string)
    ensures (forall p :: p in ParseContent(paragraphs) ==> p.name != name)
      <==> name == "" || forall q :: q in paragraphs ==> FromParagraph(q).name != name
  {
    if name != "" && exists q :: q in paragraphs && FromParagraph(q).name == name {
      var q :| q in paragraphs && FromParagraph(q).name == name;
      RecordOfParagraph(paragraphs, q);
      ParseContentMembers(paragraphs, FromParagraph(q));
    }
    if exists p :: p in ParseContent(paragraphs) && p.name == name {
      var p :| p in ParseContent(paragraphs) && p.name == name;
      var q := ParagraphOfRecord(paragraphs, p);
    }
  }

  /** `get_all_packages` on the contents of the status file. */
  function GetAllPackages(data: string): (packages: seq<PackageInfo>)
    ensures forall p :: p in packages ==> p in Records(SplitParagraphs(data)) && p.name != ""
  {
    ParseContent(SplitParagraphs(data))
  }
}

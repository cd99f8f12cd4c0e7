# dpkg status parser — Dafny model

This project models the parser and query layer of a small web viewer for the
Debian package database `/var/lib/dpkg/status`. It covers everything in
`app.py` that runs after the file has been read into a string:

- **Paragraph split.** The contents are split into paragraphs at every blank
  line (`data.split('\n\n')`).
- **Field parsing.** Each paragraph is parsed into a field map
  (`PackageInfo._parse_paragraph`):
  - continuation lines are folded into the line they continue;
  - the text is split into lines;
  - each line is split at its first colon into a stripped field name and a
    stripped value;
  - a later line overwrites an earlier line with the same name.
- **`Depends` parsing.** The `Depends` value becomes a set of alternative
  groups (`PackageInfo._parse_depends`):
  - every space is deleted;
  - the value is split at commas, and each dependency at `|`;
  - each alternative is cut before its first `(`.
- **Records.** One `PackageInfo` record is built per paragraph
  (`PackageInfo.from_paragraph`). Records with an empty name are dropped
  (`_parse_dpkg_content`, `get_all_packages`).
- **Queries.**
  - Lookup by name through a name-keyed dictionary (`get_package`).
  - The reverse-dependency scan (`get_package_and_reverse_dependencies`).
    It finds the loaded packages whose flattened dependency groups mention the
    name. It is skipped when the name is not found.

The model is built from the Python `str` and `dict` operations the code uses,
with their Python meaning:

- `find`, `split`, `join`, `replace`, `partition`;
- `strip`, over the characters `str.isspace` accepts;
- `splitlines`, with every boundary Python recognises, where `\r\n` counts as
  one boundary;
- dictionary insertion, where the last write wins.

The parts that change state step by step are methods with loops:

- the loop of `_parse_paragraph` (`Fields.ParseParagraph`) and the nested
  loops of `_parse_depends` (`Depends.ParseDepends`,
  `Depends.AlternativeNames`) are each proved equal to the function that
  specifies them;
- the scan over the loaded packages (`Queries.ScanReverseDependencies`) is
  proved equal to the set of reverse dependencies;
- the inner loop that flattens the dependency groups
  (`Queries.FlattenDependencies`) is proved to hold exactly the names of
  `Queries.Flatten`, in an arbitrary order;
- `Queries.GetPackageAndReverseDependencies` has no loop of its own: it
  composes the lookup and the scan.

The rest is functions, with lemmas for the properties the code promises.

Files (one module each):

- `dict.dfy`: `Dict`, Python dictionaries.
- `text.dfy`: `Text`, Python string methods.
- `fields.dfy`: `Fields`, the field parser.
- `depends.dfy`: `Depends`, the `Depends` parser.
- `packages.dfy`: `Packages`, records, the paragraph split and the name filter.
- `queries.dfy`: `Queries`, the two queries.

Edge cases kept as the code has them:

- **Line without a colon.** The code records the whole stripped line as a
  field name with an empty value; it does not drop the line.
- **Empty `Depends` value.** The code yields one group holding the empty
  name, not the empty set.
- **Duplicate names.** The loaded list keeps every named record. Only the
  name-keyed lookup collapses duplicates, and there the last one wins.

## Model

| member | source | states |
|---|---|---|
| Dict.Get | app.py:118 | `d.get(k)` is a value exactly when `k` is a key, and then it is the stored value |
| Dict.GetOr | app.py:67-75 | `d.get(k, default)` is the stored value when `k` is a key, the default otherwise |
| Dict.BuildMap | app.py:37-39 | the keys of a dictionary filled by insertions are exactly the inserted keys |
| Dict.LastIndexOf | app.py:37-39 | the index of the last insertion of a key: that entry has the key, no later one does, and -1 means no entry has it |
| Dict.BuildMapLastWins | app.py:37-39 | last write wins: a key is present exactly when some insertion used it, and its value comes from the last such insertion |
| Text.Find | app.py:91 | `find` returns -1 or an index at which the whole pattern fits |
| Text.FindFirst | app.py:91 | `find` returns the first occurrence, and -1 exactly when the pattern does not occur |
| Text.Split | app.py:91 | `split` always returns at least one piece |
| Text.SplitJoin | app.py:91 | joining the pieces of a split with the separator rebuilds the input |
| Text.SplitPiecesAvoidSeparator | app.py:91 | no piece of a split contains the separator |
| Text.SplitAfterHead | app.py:91 | a head in which the separator cannot start, even with the separator's first characters after it, is split off as the first piece |
| Text.JoinSplit | app.py:91 | parts that contain no separator, even once followed by the start of the next separator, come back when their join is split |
| Text.SplitPiecesFromSource | app.py:50-52 | every character of every piece comes from the input |
| Text.SplitJoinedAtChar | app.py:50-52 | splitting at a character that no part contains gives back the parts |
| Text.ReplaceSkipsToFirst | app.py:36 | `replace` copies the text before the first occurrence unchanged |
| Text.ReplaceIsJoinOfSplit | app.py:36 | `s.replace(p, w) == w.join(s.split(p))` |
| Text.DeleteJoiningChar | app.py:50 | deleting the joining character of parts that do not contain it concatenates the parts |
| Text.ReplaceHeadKept | app.py:36 | a first character that cannot start the pattern is kept |
| Text.ReplaceNotLonger | app.py:36 | replacing a pattern by text no longer than it never lengthens the string |
| Text.ReplaceConcat | app.py:36 | when no occurrence straddles the join, `replace` on a concatenation is the concatenation of the two replaces |
| Text.ReplaceLast | app.py:36 | the last character of the result is the input's last character or the replacement's last character |
| Text.ReplaceRemovesChar | app.py:50 | replacing a character by text without it leaves no occurrence of that character |
| Text.ReplaceCharsFrom | app.py:50 | `replace` only produces characters of the input or of the replacement |
| Text.Partition | app.py:38 | `partition` returns three parts that concatenate to the input; the middle part is the separator exactly when the input contains it, and the head contains no occurrence |
| Text.PartitionHeadAvoidsSeparator | app.py:54 | the text before the separator does not contain it |
| Text.PartitionAtFirst | app.py:38 | `partition` cuts at the first occurrence of a one-character separator and leaves later ones in the tail |
| Text.SkipSpace | app.py:39 | the forward scan of `strip` stops at the first non-whitespace character, skipping only whitespace |
| Text.SkipSpaceBack | app.py:39 | the backward scan of `strip` stops after the last non-whitespace character, skipping only whitespace |
| Text.Strip | app.py:39 | `strip` never lengthens the text, and a non-empty result starts and ends with a non-whitespace character |
| Text.StripKeepsChars | app.py:39 | every character of the stripped text is a character of the input |
| Text.StripIsTrimmedSlice | app.py:39 | `strip` returns the slice between the whitespace at both ends, and it starts and ends with non-whitespace |
| Text.StripTrimmed | app.py:39 | `strip` leaves text without whitespace at either end unchanged |
| Text.StripIdempotent | app.py:39 | stripping twice is stripping once |
| Text.FindLineBreak | app.py:36 | returns the first line-boundary character, or -1 when there is none |
| Text.SplitLines | app.py:36 | `splitlines` returns no line exactly when the text is empty, and no line contains a line-boundary character |
| Text.SplitLinesCons | app.py:36 | a line ended by any single boundary character, or by `\r\n` taken as one boundary, is split off as the first line; a lone `\r` not followed by `\n` ends a line too |
| Text.SplitLinesCases | app.py:36 | text holding a boundary character is its first line, one terminator (`\r\n` or a single boundary character, a `\r` only when no `\n` follows) and a rest whose lines follow the first line |
| Text.SplitLinesSingle | app.py:36 | non-empty text without a line boundary is a single line |
| Fields.Fold | app.py:36 | folding the continuation breaks never lengthens the paragraph, since each two-character break becomes one space |
| Fields.ParseLine | app.py:38-39 | the field name taken from a line never holds a colon |
| Fields.ParseLineStripped | app.py:38-39 | both the field name and the value of a line are already stripped |
| Fields.ParseFields | app.py:33-41 | no field name of the parsed map holds a colon |
| Fields.FieldValue | app.py:67-75 | every looked-up attribute value is stripped, the `''` default included |
| Fields.ParseParagraph | app.py:33-41 | the dictionary filled line by line equals the field map of the folded, split lines, where the last duplicate wins |
| Fields.ParseLineAtFirstColon | app.py:38-39 | a line is split at its first colon; the value keeps later colons, and both sides are stripped |
| Fields.ParseLineWithoutColon | app.py:38-39 | a line without a colon is the stripped line as a field name with an empty value |
| Fields.FieldValueIsLastLine | app.py:37-39 | a field is present exactly when some logical line names it; its value is that of the last such line, `''` when none does |
| Fields.ReplaceAroundKept | app.py:36 | folding passes over a character that cannot start the pattern |
| Fields.ReplaceAroundMatched | app.py:36 | folding replaces a pattern occurrence and works on both sides of it independently |
| Fields.FirstPassKeepsTabBreak | app.py:36 | the `"\n "` pass leaves a `"\n\t"` break for the second pass |
| Fields.FirstPassEndsAsBefore | app.py:36 | the first folding pass does not create a line break at the end of text that did not end with one |
| Fields.ContinuationIsOneLine | app.py:36-39 | a field written across a continuation line indented by a space or a tab folds and parses to the same field map as the one-line form with one space at the join |
| Depends.Dependencies | app.py:50 | the space-deleted value splits into at least one comma-separated item, and no item holds a space or a comma |
| Depends.ItemsAreBare | app.py:50 | no piece of the space-deleted value split at commas holds a space or a comma |
| Depends.GroupNamesBare | app.py:51-55 | every name cut from a dependency without spaces or commas holds no space, comma, `\|` or `(` |
| Depends.PackageName | app.py:54 | the name is the prefix before the first `(`, contains no `(`, and is followed by `(` when it is not the whole alternative |
| Depends.Group | app.py:51-55 | one name per `|`-separated alternative, in textual order, never empty |
| Depends.DependencyGroups | app.py:44-59 | an absent `Depends` has no groups; every group is non-empty |
| Depends.ParseDepends | app.py:44-59 | the set filled by the outer loop is exactly the set of groups of the comma-separated dependencies of the space-free value |
| Depends.AlternativeNames | app.py:51-55 | the list filled by the inner loop is the dependency's group |
| Depends.GroupOfBareNames | app.py:52-55 | alternatives without a version constraint come back in textual order |
| Depends.GroupsSnoc | app.py:57 | one more dependency adds exactly its group to the set |
| Depends.EmptyValueIsOneEmptyName | app.py:50-57 | an empty `Depends` value yields `{[""]}` |
| Depends.NamesAreBare | app.py:50-55 | no parsed name contains a space, a comma, a `\|` or a `(` |
| Depends.DependenciesOfWords | app.py:50 | a space-separated value whose words, put together, are comma-separated items has exactly those items as dependencies |
| Depends.GroupOfConstrainedName | app.py:54 | an alternative with a version constraint gives the name before the `(` |
| Depends.ExampleDependencies | app.py:50 | `"a, b \| c, d(>=1.0)"` has the dependencies `a`, `b\|c` and `d(>=1.0)` |
| Depends.Example | app.py:44-59 | `"a, b \| c, d(>=1.0)"` parses to `{["a"], ["b","c"], ["d"]}` |
| Packages.SplitParagraphs | app.py:91 | there is at least one paragraph, and joining the paragraphs with a blank line rebuilds the contents |
| Packages.SplitParagraphsRoundTrip | app.py:91 | joining the paragraphs with a blank line rebuilds the contents, and no paragraph contains a blank line |
| Packages.JoinParagraphsRoundTrip | app.py:91 | paragraphs without a blank line, all but the last not ending in a line break, are recovered from their blank-line join |
| Packages.Records | app.py:97-98 | one record per paragraph, in order |
| Packages.KeepNamed | app.py:100-104 | the filter never lengthens the sequence, and keeps only records of the input whose name is not empty |
| Packages.KeepNamedMembers | app.py:100-104 | a record is kept exactly when it is one of the records and its name is not empty |
| Packages.KeepNamedAppend | app.py:97-104 | the filter works record by record: it distributes over concatenation, so order is kept |
| Packages.KeepNamedSnoc | app.py:100-104 | one more record is appended exactly when its name is not empty |
| Packages.RecordsSnoc | app.py:97-98 | one more paragraph adds its record at the end |
| Packages.ParseContentByParagraph | app.py:95-104 | the parsed content of one more paragraph is the content so far, followed by that paragraph's record exactly when its name is not empty |
| Packages.RecordOfParagraph | app.py:97-98 | the record of every paragraph is among the records |
| Packages.ParagraphOfRecord | app.py:97-98 | every record is the record of some paragraph |
| Packages.ParseContent | app.py:95-104 | there are never more records than paragraphs; every record is the record of some paragraph and has a name |
| Packages.GetAllPackages | app.py:107-111 | every loaded record is the record of a paragraph of the contents and has a name |
| Packages.ContentHasName | app.py:95-104 | no loaded record has a name exactly when the name is empty or no paragraph's record has it |
| Packages.ParseContentMembers | app.py:95-104 | the parsed content holds exactly the named records of the paragraphs |
| Packages.FromParagraph | app.py:62-79 | the record keeps the paragraph text, and has no dependency groups when the paragraph has no `Depends` field |
| Packages.FromParagraphFields | app.py:62-79 | every attribute is the value of its field, or `''` when the field is absent; no `Depends` means no groups; the paragraph text is kept unchanged |
| Queries.NamePairs | app.py:117 | the comprehension inserts `(name, record)` for each loaded record, in order |
| Queries.NameIndex | app.py:117 | the keys of the name-keyed dictionary are exactly the names of the records |
| Queries.LastNamed | app.py:117-118 | a found record has the name and sits at a position after which no record has that name, so it is the last one; nothing is found exactly when no record has the name |
| Queries.LookupIsLastNamed | app.py:117-118 | `.get(name)` on the name-keyed dictionary is the last record with the name, and nothing when no record has it |
| Queries.Lookup | app.py:117-118 | looking a name up in the name-keyed dictionary gives the last record with that name |
| Queries.GetPackage | app.py:114-119 | a found record is one of the loaded records and has the requested name |
| Queries.GetPackageFound | app.py:114-119 | `get_package` returns the last loaded record with the name; it returns nothing exactly when the name is empty or no paragraph has it |
| Queries.GetPackageEmptyName | app.py:114-119 | the empty name is never found, because nameless records are dropped |
| Queries.ReverseDependencies | app.py:136-144 | every reverse dependency is the name of a loaded package |
| Queries.FlattenAdd | app.py:138-139 | extending the flattened list with one group adds exactly that group's names |
| Queries.ReverseDependenciesSnoc | app.py:136-142 | one more scanned package adds its name exactly when its flattened groups mention the name |
| Queries.FlattenDependencies | app.py:137-139 | the list built by the inner loop holds exactly the names in any group |
| Queries.ScanReverseDependencies | app.py:136-142 | the set built by the loop is exactly the names of the packages whose groups mention the name |
| Queries.GetPackageAndReverseDependencies | app.py:122-144 | returns the `get_package` result; an empty set when nothing is found; otherwise the reverse dependencies among the loaded packages |
| Queries.ReverseDependencyMember | app.py:136-142 | a package is a reverse dependency when any alternative of any of its groups names the package, its own name included |
| Queries.Example | app.py:122-144 | with `a` depending on `b \| c`, looking up `b` finds `b`, and its reverse dependencies are `{"a"}` |

## Left out

- **File read.** Reading the file (app.py:82-88) and re-raising `OSError` are
  I/O. Every query takes the file contents as a string argument `data`.
  Newline translation done by text-mode `open` is therefore not modelled.
- **Web layer.** The Flask routes `index`, `detail` and `about`, template
  rendering, the error-message wrapper and the display sort by name
  (app.py:147-170) are presentation.
- **`__str__`.** `PackageInfo.__str__` (app.py:25-30) only formats records for
  debugging.
- **Browser script.** The table-pagination script under `static/` is browser
  code.
- **Generator laziness.** `_parse_dpkg_content` is a generator and calls
  `from_paragraph` twice per kept paragraph (app.py:98, 104). The builder is
  deterministic, so the model builds each record once and returns the filtered
  sequence.
- **Non-string `Depends`.** The check at app.py:47 can only see a string or
  `None`, because every parsed field value is a string. The argument is
  therefore `Option<string>`.
- **Characters.** A Dafny `char` is a Unicode scalar value. Python strings that
  hold lone surrogates cannot be represented, and strings read from a UTF-8
  file do not hold them.
- **Dependency order.** `Queries.FlattenDependencies` visits the groups in an
  arbitrary order, as Python iterates a set. Its contract speaks only of which
  names the list holds, which is all `name in dependencies` (app.py:141) uses.
- Packages.KeepNamed: its own contract says only that the kept records are
  named records of the input. That every named record is kept, and in order,
  is stated by `Packages.KeepNamedMembers` and `Packages.KeepNamedAppend`.
- Queries.Flatten, Text.Replace and Text.Join carry no contract of their own.
  Their properties are lemmas: `Queries.FlattenAdd` and
  `Queries.FlattenDependencies`; `Text.ReplaceIsJoinOfSplit`,
  `Text.ReplaceConcat` and `Text.ReplaceNotLonger`; `Text.SplitJoin` and
  `Text.JoinSplit`.

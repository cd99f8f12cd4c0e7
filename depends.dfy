/**
 * The `Depends` field parser (`PackageInfo._parse_depends`): every space is
 * deleted, the value is split into comma-separated dependencies, each
 * dependency into `|`-separated alternatives, and each alternative is cut
 * before its first `(`, dropping the version constraint. The result is the
 * set of alternative groups, each group the names in textual order.
 */
module Depends {
  import opened Text
  import opened Dict

  /** The package name of one alternative: the text before its first `(`. */
  function PackageName(alternative: string): (name: string)
    ensures |name| <= |alternative| && name == alternative[..|name|]
    ensures '(' !in name
    ensures |name| < |alternative| ==> alternative[|name|] == '('
  {
    var (package, found, version) := Partition(alternative, "(");
    PartitionHeadAvoidsSeparator(alternative, "(");
    ContainsChar(package, '(');
    assert alternative == package + (found + version);
    package
  }

  /** The `|`-separated alternatives of one dependency. */
  function Alternatives(dependency: string): seq<string>
  {
    Split(dependency, "|")
  }

  /** One alternative group: the package names of a dependency's alternatives, in order. */
  function Group(dependency: string): (group: seq<string>)
    ensures |group| == |Alternatives(dependency)| >= 1
    ensures forall j :: 0 <= j < |group| ==> group[j] == PackageName(Alternatives(dependency)[j])
  {
    var alternatives := Alternatives(dependency);
    seq(|alternatives|, j requires 0 <= j < |alternatives| => PackageName(alternatives[j]))
  }

  /** The comma-separated dependencies of a value, after every space is deleted. */
  function Dependencies(value: string): (items: seq<string>)
    ensures |items| >= 1
    ensures forall d :: d in items ==> ' ' !in d && ',' !in d
  {
    ItemsAreBare(value);
    Split(Replace(value, " ", ""), ",")
  }

  lemma ItemsAreBare(value: string)
    ensures forall d :: d in Split(Replace(value, " ", ""), ",") ==> ' ' !in d && ',' !in d
  {
    var stripped := Replace(value, " ", "");
    ReplaceRemovesChar(value, ' ', "");
    SplitPiecesFromSource(stripped, ",");
    SplitPiecesAvoidSeparator(stripped, ",");
    forall d | d in Split(stripped, ",") ensures ',' !in d {
      ContainsChar(d, ',');
    }
  }

  /** The parsed `Depends` value; an absent field has no dependencies. */
  function DependencyGroups(depends: Option<string>): (groups: set<seq<string>>)
    ensures depends.None? ==> groups == {}
    ensures forall g :: g in groups ==> |g| >= 1
  {
    match depends
    case None => {}
    case Some(value) => set dependency | dependency in Dependencies(value) :: Group(dependency)
  }

  /** The outer loop of `_parse_depends`: one group per comma-separated dependency. */
  method ParseDepends(depends: Option<string>) returns (dependencies: set<seq<string>>)
    ensures dependencies == DependencyGroups(depends)
  {
    dependencies := {};
    if depends.None? {
      return;
    }
    var items := Split(Replace(depends.value, " ", ""), ",");
    var i := 0;
    while i < |items|
      invariant 0 <= i <= |items|
      invariant dependencies == set dependency | dependency in items[..i] :: Group(dependency)
    {
      var packages := AlternativeNames(items[i]);
      GroupsSnoc(items, i);
      dependencies := dependencies + {packages};
      i := i + 1;
    }
    assert items[..|items|] == items;
  }

  /** The inner loop of `_parse_depends`: the name of every alternative, in order. */
  method AlternativeNames(dependency: string) returns (packages: seq<string>)
    ensures packages == Group(dependency)
  {
    var alternatives := Split(dependency, "|");
    packages := [];
    var k := 0;
    while k < |alternatives|
      invariant 0 <= k <= |alternatives|
      invariant |packages| == k
      invariant forall j :: 0 <= j < k ==> packages[j] == PackageName(alternatives[j])
    {
      var (package, _, _) := Partition(alternatives[k], "(");
      packages := packages + [package];
      k := k + 1;
    }
  }

  /**
   * Alternatives without a version constraint come back as one group, in
   * their textual order.
   */
  lemma GroupOfBareNames(names: seq<string>)
    requires |names| >= 1
    requires forall k :: 0 <= k < |names| ==> '|' !in names[k] && '(' !in names[k]
    ensures Group(Join(names, "|")) == names
  {
    SplitJoinedAtChar(names, '|');
    forall k | 0 <= k < |names| ensures PackageName(names[k]) == names[k] {
      ContainsChar(names[k], '(');
    }
  }

  /** The groups of one more dependency are the groups so far and its own. */
  lemma GroupsSnoc(items: seq<string>, i: nat)
    requires i < |items|
    ensures (set dependency | dependency in items[..i + 1] :: Group(dependency))
      == (set dependency | dependency in items[..i] :: Group(dependency)) + {Group(items[i])}
  {
    PrefixSnoc(items, i);
  }

  /** An empty `Depends` value is one group holding the empty name, as `split` always yields a piece. */
  lemma EmptyValueIsOneEmptyName()
    ensures DependencyGroups(Some("")) == {[""]}
  {
    assert Replace("", " ", "") == "";
    assert Split("", ",") == [""];
    assert Split("", "|") == [""];
    assert PackageName("") == "";
    assert Group("") == [""];
  }

  /** No parsed package name contains a space, a comma, a bar or an opening parenthesis. */
  lemma NamesAreBare(value: string, group: seq<string>, name: string)
    requires group in DependencyGroups(Some(value)) && name in group
    ensures ' ' !in name && ',' !in name && '|' !in name && '(' !in name
  {
    var dependency :| dependency in Dependencies(value) && Group(dependency) == group;
    GroupNamesBare(dependency, name);
  }

  lemma GroupNamesBare(dependency: string, name: string)
    requires ' ' !in dependency && ',' !in dependency
    requires name in Group(dependency)
    ensures ' ' !in name && ',' !in name && '|' !in name && '(' !in name
  {
    var group := Group(dependency);
    var j :| 0 <= j < |group| && group[j] == name;
    var alternative := Alternatives(dependency)[j];
    assert alternative in Split(dependency, "|");
    SplitPiecesFromSource(dependency, "|");
    SplitPiecesAvoidSeparator(dependency, "|");
    ContainsChar(alternative, '|');
    assert name == alternative[..|name|];
    forall c | c in name ensures c in alternative && c in dependency {
      var k :| 0 <= k < |name| && name[k] == c;
      assert alternative[k] == c;
    }
  }

  /**
   * A value made of words separated by single spaces, whose words put
   * together are items separated by commas, depends on exactly those items.
   */
  lemma DependenciesOfWords(value: string, words: seq<string>, items: seq<string>)
    requires |words| >= 1 && forall k :: 0 <= k < |words| ==> ' ' !in words[k]
    requires value == Join(words, " ")
    requires |items| >= 1 && forall k :: 0 <= k < |items| ==> ',' !in items[k]
    requires Join(words, "") == Join(items, ",")
    ensures Dependencies(value) == items
  {
    DeleteJoiningChar(words, ' ');
    SplitJoinedAtChar(items, ',');
  }

  /** An alternative with a version constraint is one group holding the name before the `(`. */
  lemma GroupOfConstrainedName(name: string, constraint: string)
    requires '|' !in name && '(' !in name && '|' !in constraint
    ensures Group(name + "(" + constraint) == [name]
  {
    var alternative := name + "(" + constraint;
    assert '|' !in alternative;
    SplitJoinedAtChar([alternative], '|');
    PartitionAtFirst(name, '(', constraint);
  }

  /** The documented example: `a, b | c, d(>=1.0)` is `{["a"], ["b", "c"], ["d"]}`. */
  lemma Example()
    ensures DependencyGroups(Some("a, b | c, d(>=1.0)")) == {["a"], ["b", "c"], ["d"]}
  {
    ExampleGroups("a, b | c, d(>=1.0)");
  }

  /**
   * The example with its value as a parameter: the proof then works on the
   * value's parts instead of evaluating the parser on the whole literal.
   */
  lemma ExampleGroups(value: string)
    requires value == "a, b | c, d(>=1.0)"
    ensures DependencyGroups(Some(value)) == {["a"], ["b", "c"], ["d"]}
  {
    ExampleDependencies(value);
    var dependencies := Dependencies(value);
    ExampleGroupA(dependencies[0]);
    ExampleGroupBC(dependencies[1]);
    ExampleGroupD(dependencies[2]);
    GroupsOfThree(dependencies[0], dependencies[1], dependencies[2]);
    assert dependencies == [dependencies[0], dependencies[1], dependencies[2]];
  }

  lemma ExampleDependencies(value: string)
    requires value == "a, b | c, d(>=1.0)"
    ensures Dependencies(value) == ["a", "b|c", "d(>=1.0)"]
  {
    var words := ["a,", "b", "|", "c,", "d(>=1.0)"];
    var items := ["a", "b|c", "d(>=1.0)"];
    ExampleSpaced(value, words);
    ExampleUnspaced(words, items);
    assert forall k :: 0 <= k < |words| ==> ' ' !in words[k];
    assert forall k :: 0 <= k < |items| ==> ',' !in items[k];
    DependenciesOfWords(value, words, items);
  }

  lemma ExampleSpaced(value: string, words: seq<string>)
    requires value == "a, b | c, d(>=1.0)"
    requires words == ["a,", "b", "|", "c,", "d(>=1.0)"]
    ensures value == Join(words, " ")
  {
    JoinedByEach(words, " ");
  }

  lemma ExampleUnspaced(words: seq<string>, items: seq<string>)
    requires words == ["a,", "b", "|", "c,", "d(>=1.0)"]
    requires items == ["a", "b|c", "d(>=1.0)"]
    ensures Join(words, "") == Join(items, ",")
  {
    JoinedByEach(words, "");
    JoinedByEach(items, ",");
  }

  lemma ExampleGroupA(x: string)
    requires x == "a"
    ensures Group(x) == ["a"]
  {
    GroupOfBareNames([x]);
  }

  lemma ExampleGroupBC(y: string)
    requires y == "b|c"
    ensures Group(y) == ["b", "c"]
  {
    var names := ["b", "c"];
    JoinedByEach(names, "|");
    assert y == names[0] + "|" + names[1];
    GroupOfBareNames(names);
  }

  lemma ExampleGroupD(z: string)
    requires z == "d(>=1.0)"
    ensures Group(z) == ["d"]
  {
    assert z == "d" + "(" + ">=1.0)";
    GroupOfConstrainedName("d", ">=1.0)");
  }

  /** A join is the first part followed, for each further part, by the separator and that part. */
  lemma JoinedByEach(parts: seq<string>, sep: string)
    ensures |parts| == 2 ==> Join(parts, sep) == parts[0] + sep + parts[1]
    ensures |parts| == 3 ==> Join(parts, sep) == parts[0] + sep + parts[1] + sep + parts[2]
    ensures |parts| == 5 ==>
      Join(parts, sep) == parts[0] + sep + parts[1] + sep + parts[2] + sep + parts[3] + sep + parts[4]
  {
    if |parts| == 2 {
      JoinCons(parts, sep);
      assert parts[1..] == [parts[1]];
    } else if |parts| == 3 {
      JoinCons(parts, sep);
      JoinCons(parts[1..], sep);
      assert parts[1..][1..] == [parts[2]];
    } else if |parts| == 5 {
      JoinCons(parts, sep);
      JoinCons(parts[1..], sep);
      JoinCons(parts[2..], sep);
      JoinCons(parts[3..], sep);
      assert parts[1..][1..] == parts[2..];
      assert parts[2..][1..] == parts[3..];
      assert parts[3..][1..] == [parts[4]];
    }
  }

  lemma GroupsOfThree(x: string, y: string, z: string)
    ensures (set dependency | dependency in [x, y, z] :: Group(dependency)) == {Group(x), Group(y), Group(z)}
  {
    var groups := set dependency | dependency in [x, y, z] :: Group(dependency);
    assert x in [x, y, z] && y in [x, y, z] && z in [x, y, z];
    forall g | g in groups ensures g == Group(x) || g == Group(y) || g == Group(z) {
      var d :| d in [x, y, z] && g == Group(d);
    }
  }
}

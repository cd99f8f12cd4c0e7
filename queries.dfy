/**
 * The queries over the loaded packages: lookup by name through a dictionary
 * keyed by package name (`get_package`), and the scan for the packages that
 * depend on a given one (`get_package_and_reverse_dependencies`).
 */
module Queries {
  import opened Dict
  import opened Packages

  /** The `(name, record)` pairs the dictionary comprehension inserts, in order. */
  function NamePairs(packages: seq<PackageInfo>): (pairs: seq<(string, PackageInfo)>)
    ensures |pairs| == |packages|
    ensures forall i :: 0 <= i < |packages| ==> pairs[i] == (packages[i].name, packages[i])
  {
    seq(|packages|, i requires 0 <= i < |packages| => (packages[i].name, packages[i]))
  }

  /** `{package.name: package for package in packages}`: keyed by every loaded name. */
  function NameIndex(packages: seq<PackageInfo>): (index: map<string, PackageInfo>)
    ensures index.Keys == set p | p in packages :: p.name
  {
    NamePairKeys(packages);
    BuildMap(NamePairs(packages))
  }

  /** The keys the comprehension inserts are the loaded names. */
  lemma NamePairKeys(packages: seq<PackageInfo>)
    ensures (set e | e in NamePairs(packages) :: e.0) == set p | p in packages :: p.name
  {
    var pairs := NamePairs(packages);
    forall p | p in packages ensures p.name in set e | e in pairs :: e.0 {
      var i :| 0 <= i < |packages| && packages[i] == p;
      assert pairs[i] in pairs;
    }
    forall e | e in pairs ensures e.0 in set p | p in packages :: p.name {
      var i :| 0 <= i < |pairs| && pairs[i] == e;
      assert packages[i] in packages;
    }
  }

  /** Reference definition: the last record carrying the name, searched from the end. */
  function LastNamed(packages: seq<PackageInfo>, name: string): (found: Option<PackageInfo>)
    ensures found.Some? ==> found.value.name == name
    ensures found.Some? ==>
      exists i :: 0 <= i < |packages| && packages[i] == found.value &&
        forall j :: i < j < |packages| ==> packages[j].name != name
    ensures found.None? <==> forall p :: p in packages ==> p.name != name
    decreases |packages|
  {
    if |packages| == 0 then None
    else
      var last := packages[|packages| - 1];
      var prefix := packages[..|packages| - 1];
      assert packages == prefix + [last];
      if last.name == name then Some(last) else LastNamed(prefix, name)
  }

  /** The dictionary lookup finds the last record with the name, and nothing when none has it. */
  lemma {:induction false} LookupIsLastNamed(packages: seq<PackageInfo>, name: string)
    ensures Get(NameIndex(packages), name) == LastNamed(packages, name)
    decreases |packages|
  {
    if |packages| > 0 {
      var last := packages[|packages| - 1];
      var prefix := packages[..|packages| - 1];
      assert NamePairs(packages) == NamePairs(prefix) + [(last.name, last)];
      BuildMapSnoc(NamePairs(prefix), (last.name, last));
      LookupIsLastNamed(prefix, name);
    }
  }

  /** `mapped.get(name)` on the name index: the last record with the name, if any. */
  function Lookup(packages: seq<PackageInfo>, name: string): (found: Option<PackageInfo>)
    ensures found == LastNamed(packages, name)
  {
    LookupIsLastNamed(packages, name);
    Get(NameIndex(packages), name)
  }

  /** `get_package` on the contents of the status file: a loaded record with that name, if any. */
  function GetPackage(name: string, data: string): (found: Option<PackageInfo>)
    ensures found.Some? ==> found.value in GetAllPackages(data) && found.value.name == name
  {
    Lookup(GetAllPackages(data), name)
  }

  /**
   * The package found is the record of the last paragraph with that name;
   * there is none exactly when no paragraph has that (non-empty) name.
   */
  lemma GetPackageFound(name: string, data: string)
    ensures GetPackage(name, data) == LastNamed(GetAllPackages(data), name)
    ensures GetPackage(name, data).Some? ==> GetPackage(name, data).value.name == name
    ensures GetPackage(name, data).None? <==>
      name == "" || forall q :: q in SplitParagraphs(data) ==> FromParagraph(q).name != name
  {
    ContentHasName(SplitParagraphs(data), name);
  }

  /** Only named records are loaded, so the empty name is never found. */
  lemma GetPackageEmptyName(data: string)
    ensures GetPackage("", data) == None
  {
    GetPackageFound("", data);
  }

  /** Every name mentioned in any group of a dependency set (the list the scan extends). */
  function Flatten(groups: set<seq<string>>): (names: set<string>)
  {
    set g, x | g in groups && x in g :: x
  }

  /** The names of the packages whose dependency groups mention `name`. */
  function ReverseDependencies(name: string, packages: seq<PackageInfo>): (reverse: set<string>)
    ensures forall n :: n in reverse ==> exists p :: p in packages && p.name == n
  {
    set p | p in packages && name in Flatten(p.dependencies) :: p.name
  }

  /** Adding one group to the flattened set adds exactly that group's names. */
  lemma FlattenAdd(groups: set<seq<string>>, group: seq<string>)
    ensures Flatten(groups + {group}) == Flatten(groups) + set x | x in group
  {
    forall x | x in Flatten(groups + {group}) ensures x in Flatten(groups) + set x | x in group {
      var g :| g in groups + {group} && x in g;
    }
  }

  /** Extending the scanned prefix by one package adds its name exactly when it depends on `name`. */
  lemma ReverseDependenciesSnoc(name: string, packages: seq<PackageInfo>, p: PackageInfo)
    ensures ReverseDependencies(name, packages + [p])
      == ReverseDependencies(name, packages) + (if name in Flatten(p.dependencies) then {p.name} else {})
  {
    var whole := packages + [p];
    forall n | n in ReverseDependencies(name, whole)
      ensures n in ReverseDependencies(name, packages) + (if name in Flatten(p.dependencies) then {p.name} else {})
    {
      var q :| q in whole && name in Flatten(q.dependencies) && q.name == n;
      if q != p {
        assert q in packages;
      }
    }
    forall q | q in packages ensures q in whole {
    }
  }

  /** The inner loop: the flattened list of every name in the package's dependency groups. */
  method FlattenDependencies(groups: set<seq<string>>) returns (dependencies: seq<string>)
    ensures forall x :: x in dependencies <==> x in Flatten(groups)
  {
    dependencies := [];
    var remaining := groups;
    while remaining != {}
      invariant remaining <= groups
      invariant forall x :: x in dependencies <==> x in Flatten(groups - remaining)
      decreases |remaining|
    {
      var dependency :| dependency in remaining;
      FlattenAdd(groups - remaining, dependency);
      assert groups - (remaining - {dependency}) == (groups - remaining) + {dependency};
      dependencies := dependencies + dependency;
      remaining := remaining - {dependency};
    }
    assert groups - remaining == groups;
  }

  /** The loop over the loaded packages: collects the names of those whose flattened groups hold `name`. */
  method ScanReverseDependencies(name: string, packages: seq<PackageInfo>) returns (reverse: set<string>)
    ensures reverse == ReverseDependencies(name, packages)
  {
    reverse := {};
    var i := 0;
    while i < |packages|
      invariant 0 <= i <= |packages|
      invariant reverse == ReverseDependencies(name, packages[..i])
    {
      var package := packages[i];
      var dependencies := FlattenDependencies(package.dependencies);
      ReverseDependenciesSnoc(name, packages[..i], package);
      PrefixSnoc(packages, i);
      if name in dependencies {
        reverse := reverse + {package.name};
      }
      i := i + 1;
    }
    assert packages[..|packages|] == packages;
  }

  /**
   * `get_package_and_reverse_dependencies`: the package found by name and,
   * when it is found, the names of the loaded packages that depend on it;
   * `(None, {})` when it is not.
   */
  method GetPackageAndReverseDependencies(name: string, data: string)
    returns (found: Option<PackageInfo>, reverse: set<string>)
    ensures found == GetPackage(name, data)
    ensures found.None? ==> reverse == {}
    ensures found.Some? ==> reverse == ReverseDependencies(name, GetAllPackages(data))
  {
    var packages := GetAllPackages(data);
    found := Lookup(packages, name);
    if found.None? {
      return found, {};
    }
    reverse := ScanReverseDependencies(name, packages);
  }

  /**
   * A loaded package is a reverse dependency exactly when one of its groups
   * mentions the name, whichever alternative it is; a package depending on
   * itself is its own reverse dependency.
   */
  lemma ReverseDependencyMember(name: string, packages: seq<PackageInfo>, p: PackageInfo, group: seq<string>)
    requires p in packages && group in p.dependencies && name in group
    ensures p.name in ReverseDependencies(name, packages)
  {
    assert name in Flatten(p.dependencies);
  }

  /**
   * Package `a` depends on `b` or `c`, and `b` depends on nothing: looking up
   * `b` finds it, and its only reverse dependency is `a`.
   */
  lemma Example(a: PackageInfo, b: PackageInfo)
    requires a.name == "a" && a.dependencies == {["b", "c"]}
    requires b.name == "b" && b.dependencies == {}
    ensures Lookup([a, b], "b") == Some(b)
    ensures ReverseDependencies("b", [a, b]) == {"a"}
  {
    LookupIsLastNamed([a, b], "b");
    assert [a, b][..1] == [a];
    ReverseDependenciesSnoc("b", [], a);
    ReverseDependenciesSnoc("b", [a], b);
    assert [a] + [b] == [a, b];
    assert "b" in Flatten(a.dependencies) by {
      assert ["b", "c"] in a.dependencies && "b" in ["b", "c"];
    }
  }
}

/** The build order of libraries: a depth-first topological sort that shares one
    visited set and tolerates duplicate names, missing dependencies and cycles. */
module LibraryOrder {

  datatype Library = Library(name: string, depends: seq<string>, output: string)

  type Catalog = map<string, Library>

  /** The name table; a later library replaces an earlier one of the same name. */
  function CatalogOf(libraries: seq<Library>): (catalog: Catalog)
    ensures forall n :: n in catalog <==> exists i :: 0 <= i < |libraries| && libraries[i].name == n
    ensures forall n :: n in catalog ==> catalog[n] in libraries && catalog[n].name == n
  {
    if libraries == [] then map[]
    else
      var last := libraries[|libraries| - 1];
      var earlier := CatalogOf(libraries[..|libraries| - 1]);
      var init := libraries[..|libraries| - 1];
      assert libraries == init + [last];
      earlier[last.name := last]
  }

  lemma {:induction false} LastOfNameWins(libraries: seq<Library>, i: nat)
    requires i < |libraries|
    requires forall j :: i < j < |libraries| ==> libraries[j].name != libraries[i].name
    ensures CatalogOf(libraries)[libraries[i].name] == libraries[i]
  {
    if i < |libraries| - 1 {
      LastOfNameWins(libraries[..|libraries| - 1], i);
    }
  }

  /** `path` follows dependency edges out of listed libraries. */
  ghost predicate IsPath(catalog: Catalog, path: seq<string>) {
    && path != []
    && forall i :: 0 <= i < |path| - 1 ==> path[i] in catalog && path[i + 1] in catalog[path[i]].depends
  }

  ghost predicate PathFromTo(catalog: Catalog, path: seq<string>, a: string, b: string) {
    IsPath(catalog, path) && path[0] == a && path[|path| - 1] == b
  }

  /** Reachability over zero or more dependency edges. */
  ghost predicate Reaches(catalog: Catalog, a: string, b: string) {
    exists path :: PathFromTo(catalog, path, a, b)
  }

  lemma ReachesItself(catalog: Catalog, a: string)
    ensures Reaches(catalog, a, a)
  {
    assert PathFromTo(catalog, [a], a, a);
  }

  lemma ReachesThroughEdge(catalog: Catalog, a: string, b: string, c: string)
    requires Reaches(catalog, a, b) && b in catalog && c in catalog[b].depends
    ensures Reaches(catalog, a, c)
  {
    var path :| PathFromTo(catalog, path, a, b);
    assert PathFromTo(catalog, path + [c], a, c);
  }

  // ---- What a build order promises ----

  ghost predicate Listed(order: seq<Library>, name: string) {
    exists i :: 0 <= i < |order| && order[i].name == name
  }

  ghost predicate DistinctNames(order: seq<Library>) {
    forall i, j :: 0 <= i < j < |order| ==> order[i].name != order[j].name
  }

  /** Each library of `order` is the catalogue's entry for its name. */
  ghost predicate FromCatalog(catalog: Catalog, order: seq<Library>) {
    forall i :: 0 <= i < |order| ==> order[i].name in catalog && order[i] == catalog[order[i].name]
  }

  /** A listed dependency comes first, unless it depends on its dependent in turn. */
  ghost predicate DependenciesFirst(catalog: Catalog, order: seq<Library>) {
    forall i, d :: 0 <= i < |order| && d in order[i].depends && d in catalog ==>
      Listed(order[..i], d) || Reaches(catalog, d, order[i].name)
  }

  ghost predicate IsBuildOrder(libraries: seq<Library>, order: seq<Library>) {
    var catalog := CatalogOf(libraries);
    && FromCatalog(catalog, order)
    && DistinctNames(order)
    && (forall n :: n in catalog ==> Listed(order, n))
    && DependenciesFirst(catalog, order)
  }

  // ---- The sort ----

  class Sorter {
    const libMap: Catalog
    var visited: set<string>
    var result: seq<Library>

    constructor (libraries: seq<Library>)
      ensures libMap == CatalogOf(libraries) && visited == {} && result == []
    {
      libMap := CatalogOf(libraries);
      visited := {};
      result := [];
    }

    ghost predicate Valid()
      reads this
    {
      && (forall n :: n in libMap ==> libMap[n].name == n)
      && (forall i :: 0 <= i < |result| ==> result[i].name in visited)
      && FromCatalog(libMap, result)
      && DistinctNames(result)
      && DependenciesFirst(libMap, result)
    }

    /** Listed libraries whose visit has begun and not ended: the recursion stack. */
    ghost predicate Open(name: string)
      reads this
    {
      name in libMap && name in visited && !Listed(result, name)
    }

    method Visit(name: string)
      requires Valid()
      requires forall g :: Open(g) ==> Reaches(libMap, g, name)
      modifies this
      ensures Valid()
      ensures name in visited && old(visited) <= visited
      ensures old(result) <= result
      ensures forall g :: Open(g) <==> old(Open(g))
      decreases libMap.Keys - visited
    {
      if name in visited { return; }
      visited := visited + {name};
      if name !in libMap { return; }
      var lib := libMap[name];
      assert !Listed(result, name);
      ReachesItself(libMap, name);
      forall g, d | Open(g) && d in lib.depends
        ensures Reaches(libMap, g, d)
      {
        ReachesThroughEdge(libMap, g, name, d);
      }
      for i := 0 to |lib.depends|
        invariant Valid()
        invariant old(visited) + {name} <= visited
        invariant old(result) <= result
        invariant forall g :: Open(g) <==> g == name || old(Open(g))
        invariant forall d :: d in lib.depends[..i] ==> d in visited
      {
        assert name !in old(visited);
        Visit(lib.depends[i]);
      }
      Finish(lib);
    }

    /** The push that ends a visit, with every dependency already visited. */
    method Finish(lib: Library)
      requires Valid()
      requires lib.name in libMap && libMap[lib.name] == lib && Open(lib.name)
      requires forall d :: d in lib.depends ==> d in visited
      requires forall g :: Open(g) ==> Reaches(libMap, g, lib.name)
      modifies this`result
      ensures Valid()
      ensures result == old(result) + [lib]
      ensures forall g :: Open(g) <==> old(Open(g)) && g != lib.name
    {
      ghost var before := result;
      result := result + [lib];
      assert forall n :: Listed(result, n) <==> Listed(before, n) || n == lib.name by {
        assert result[|before|] == lib;
        assert forall i :: 0 <= i < |before| ==> result[i] == before[i];
      }
      assert forall i :: 0 <= i <= |before| ==> result[..i] == before[..i];
      assert before[..|before|] == before;
    }
  }

  /** Sorts any list: every name exactly once, and dependencies before dependents. */
  method TopologicalSortLibraries(libraries: seq<Library>) returns (result: seq<Library>)
    ensures IsBuildOrder(libraries, result)
  {
    var sorter := new Sorter(libraries);
    for i := 0 to |libraries|
      invariant sorter.Valid()
      invariant sorter.libMap == CatalogOf(libraries)
      invariant forall g :: !sorter.Open(g)
      invariant forall j :: 0 <= j < i ==> libraries[j].name in sorter.visited
      modifies sorter
    {
      sorter.Visit(libraries[i].name);
    }
    result := sorter.result;
    forall n | n in sorter.libMap
      ensures Listed(result, n)
    {
      assert !sorter.Open(n);
    }
  }

  // ---- Consequences ----

  /** With unique names the order is a permutation of the input. */
  lemma UniqueNamesPermute(libraries: seq<Library>, order: seq<Library>)
    requires IsBuildOrder(libraries, order) && DistinctNames(libraries)
    ensures multiset(order) == multiset(libraries)
  {
    var catalog := CatalogOf(libraries);
    DistinctIsSet(libraries);
    DistinctIsSet(order);
    forall l: Library
      ensures l in order <==> l in libraries
    {
      if l in libraries {
        var i :| 0 <= i < |libraries| && libraries[i] == l;
        assert catalog[l.name] == l;
        assert Listed(order, l.name);
      }
    }
  }

  lemma {:induction false} DistinctIsSet(order: seq<Library>)
    requires DistinctNames(order)
    ensures forall l :: multiset(order)[l] == if l in order then 1 else 0
  {
    if order != [] {
      var init, last := order[..|order| - 1], order[|order| - 1];
      assert order == init + [last];
      DistinctIsSet(init);
      assert last !in init;
    }
  }

  /** No listed library reaches itself over one or more edges between listed libraries. */
  ghost predicate Acyclic(catalog: Catalog) {
    forall l, d :: l in catalog && d in catalog && d in catalog[l].depends ==> !Reaches(catalog, d, l)
  }

  ghost predicate Topological(catalog: Catalog, order: seq<Library>) {
    forall i, d :: 0 <= i < |order| && d in order[i].depends && d in catalog ==> Listed(order[..i], d)
  }

  ghost function Position(order: seq<Library>, name: string): (i: nat)
    requires Listed(order, name)
    ensures i < |order| && order[i].name == name
  {
    var i :| 0 <= i < |order| && order[i].name == name;
    i
  }

  /** Along any path between listed libraries, positions never increase. */
  lemma {:induction false} PathDescends(libraries: seq<Library>, order: seq<Library>, path: seq<string>)
    requires IsBuildOrder(libraries, order) && Topological(CatalogOf(libraries), order)
    requires IsPath(CatalogOf(libraries), path) && path[|path| - 1] in CatalogOf(libraries)
    ensures path[0] in CatalogOf(libraries)
    ensures Position(order, path[|path| - 1]) <= Position(order, path[0])
  {
    if |path| > 1 {
      var rest := path[1..];
      PathDescends(libraries, order, rest);
      var i := Position(order, path[0]);
      assert Listed(order[..i], path[1]);
      assert Position(order, path[1]) < i;
    }
  }

  /** The order respects every listed dependency exactly when the graph has no cycle. */
  lemma TopologicalIffAcyclic(libraries: seq<Library>, order: seq<Library>)
    requires IsBuildOrder(libraries, order)
    ensures Topological(CatalogOf(libraries), order) <==> Acyclic(CatalogOf(libraries))
  {
    var catalog := CatalogOf(libraries);
    if Topological(catalog, order) {
      forall l, d | l in catalog && d in catalog && d in catalog[l].depends
        ensures !Reaches(catalog, d, l)
      {
        var i := Position(order, l);
        assert Listed(order[..i], d);
        assert Position(order, d) < i;
        if Reaches(catalog, d, l) {
          var path :| PathFromTo(catalog, path, d, l);
          PathDescends(libraries, order, path);
        }
      }
    }
  }

  /** A library that depends on itself: it is built, and its dependency does not come first. */
  lemma CycleIsBuilt() returns (libraries: seq<Library>)
    ensures IsBuildOrder(libraries, libraries) && !Topological(CatalogOf(libraries), libraries)
  {
    var lib := Library("a", ["a"], "");
    libraries := [lib];
    var catalog := CatalogOf(libraries);
    assert libraries[0].name == "a";
    LastOfNameWins(libraries, 0);
    ReachesItself(catalog, "a");
    TopologicalIffAcyclic(libraries, libraries);
  }
}

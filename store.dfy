/**
 * The store itself. Its methods follow the code of `inMemoryStore` step by step and are
 * proved to leave exactly the states the `Registry` module describes.
 */
module Store {
  import opened Wrappers
  import opened Text
  import opened Sorting
  import opened Registry

  /**
   * `inMemoryStore`. Besides the map, the store carries two ghost fields: the creation rank
   * of every registered package and the next rank to hand out. They witness `Ranked`, the
   * fact that dependencies always predate their dependents, on which termination of the
   * listing rests.
   */
  class InMemoryStore {
    var packages: Packages
    ghost var rank: map<string, nat>
    ghost var clock: nat

    ghost predicate Valid()
      reads this
    {
      && Consistent(packages)
      && Ranked(packages, rank)
      && forall k :: k in rank ==> rank[k] < clock
    }

    /** `newInMemoryStore`: an empty registry. */
    constructor ()
      ensures Valid() && packages == map[]
    {
      packages := map[];
      rank := map[];
      clock := 0;
    }

    /** `add`: registers `name` with its registered dependencies and links it into their dependents. */
    method Add(name: string, deps: seq<string>) returns (err: Option<string>)
      requires Valid()
      modifies this
      ensures Valid()
      ensures name in old(packages) ==> err == Some(AlreadyExists(old(packages)[name])) && packages == old(packages)
      ensures name !in old(packages) ==> err == None && packages == Added(old(packages), name, deps)
    {
      if name in packages {
        return Some(AlreadyExists(packages[name]));
      }
      AddKeeps(packages, rank, clock, name, deps);
      var validDeps := LinkDependents(name, deps);
      packages := packages[name := Package(name, validDeps, [])];
      rank := rank[name := clock];
      clock := clock + 1;
      err := None;
    }

    /**
     * The loop of `add`: appends `name` to the dependents of every registered dependency,
     * once per mention, and collects those dependencies in order.
     */
    method LinkDependents(name: string, deps: seq<string>) returns (validDeps: seq<string>)
      modifies this`packages
      ensures packages == Linked(old(packages), name, deps)
      ensures validDeps == Filter(deps, old(packages).Keys)
    {
      ghost var m := packages;
      LinkedNone(m, name);
      validDeps := [];
      for i := 0 to |deps|
        invariant packages == Linked(m, name, deps[..i])
        invariant validDeps == Filter(deps[..i], m.Keys)
      {
        var dep := deps[i];
        assert deps[..i + 1] == deps[..i] + [dep];
        LinkedStep(m, name, deps[..i], dep);
        FilterSnoc(deps[..i], dep, m.Keys);
        if dep in packages {
          var pkg := packages[dep];
          pkg := pkg.(requiredBy := pkg.requiredBy + [name]);
          packages := packages[dep := pkg];
          validDeps := validDeps + [dep];
        }
      }
      assert deps[..|deps|] == deps;
    }

    /** `remove`: unregisters a package nobody depends on and unlinks it from its dependencies. */
    method Remove(name: string) returns (err: Option<string>)
      requires Valid()
      modifies this`packages
      ensures Valid()
      ensures name !in old(packages) ==> err == Some(NotExists(name)) && packages == old(packages)
      ensures name in old(packages) && old(packages)[name].requiredBy != [] ==>
                err == Some(StillRequired(name, old(packages)[name].requiredBy)) && packages == old(packages)
      ensures name in old(packages) && old(packages)[name].requiredBy == [] ==>
                err == None && packages == Removed(old(packages), name)
    {
      if name !in packages {
        return Some(NotExists(name));
      }
      var toRemove := packages[name];
      if |toRemove.requiredBy| > 0 {
        return Some(StillRequired(name, toRemove.requiredBy));
      }
      RemoveKeeps(packages, rank, name);
      UnlinkDependencies(name, toRemove.dependsOn);
      packages := packages - {name};
      err := None;
    }

    /** The loop of `remove`: tells each dependency in turn that `name` no longer needs it. */
    method UnlinkDependencies(name: string, deps: seq<string>)
      modifies this`packages
      ensures packages == Unlinked(old(packages), name, deps)
    {
      ghost var m := packages;
      UnlinkedNone(m, name);
      for i := 0 to |deps|
        invariant packages == Unlinked(m, name, deps[..i])
      {
        var dep := deps[i];
        UnlinkedStep(m, name, deps[..i], dep);
        RemoveRequiredBy(dep, name);
        assert deps[..i + 1] == deps[..i] + [dep];
      }
      assert deps[..|deps|] == deps;
    }

    /** `removeRequiredBy`: drops every occurrence of a dependent; a missing package is ignored. */
    method RemoveRequiredBy(pkgName: string, notRequiredAnymore: string)
      modifies this`packages
      ensures pkgName !in old(packages) ==> packages == old(packages)
      ensures pkgName in old(packages) ==>
                var p := old(packages)[pkgName];
                packages == old(packages)[pkgName := p.(requiredBy := Without(p.requiredBy, notRequiredAnymore))]
    {
      if pkgName in packages {
        var pkg := packages[pkgName];
        var stillRequiredBy: seq<string> := [];
        for i := 0 to |pkg.requiredBy|
          invariant stillRequiredBy == Without(pkg.requiredBy[..i], notRequiredAnymore)
        {
          var requiredByPkgName := pkg.requiredBy[i];
          if requiredByPkgName != notRequiredAnymore {
            stillRequiredBy := stillRequiredBy + [requiredByPkgName];
          }
          assert pkg.requiredBy[..i + 1][..i] == pkg.requiredBy[..i];
        }
        assert pkg.requiredBy[..|pkg.requiredBy|] == pkg.requiredBy;
        pkg := pkg.(requiredBy := stillRequiredBy);
        packages := packages[pkgName := pkg];
      }
    }

    /**
     * `listOnePackage`: the subtree of `name`. On the way it sorts, in the store, the
     * dependency list of every package it visits. It needs no more of the invariant than
     * the ranking, which bounds the recursion.
     */
    method ListOnePackage(name: string, level: nat) returns (output: string)
      requires Ranked(packages, rank)
      modifies this`packages
      ensures output == Tree(old(packages), rank, name, level)
      ensures packages == SortSome(old(packages), Reach(old(packages), rank, name))
      decreases if name in packages then rank[name] + 1 else 0, 2
    {
      if name !in packages {
        TreeAbsent(packages, rank, name, level);
        SortSomeNone(packages);
        return "";
      }
      output := ListRegistered(name, level);
    }

    /** `listOnePackage` once `name` is known to be registered: its line, then the loop over its sorted dependencies. */
    method ListRegistered(name: string, level: nat) returns (output: string)
      requires Ranked(packages, rank) && name in packages
      modifies this`packages
      ensures output == Tree(old(packages), rank, name, level)
      ensures packages == SortSome(old(packages), Reach(old(packages), rank, name))
      decreases rank[name] + 1, 1
    {
      ghost var m := packages;
      var pkg := packages[name];
      var indentation := Repeat(' ', level * 4);
      output := indentation + "- " + pkg.name + "\n";
      var deps := SortStrings(pkg.dependsOn);
      packages := packages[name := pkg.(dependsOn := deps)];
      ghost var sorted := packages;
      SortOneRanked(m, rank, name, sorted);
      TreeStep(m, rank, name, level, sorted, output);
      var trees := ListDependencies(deps, level + 1, rank[name]);
      output := output + trees;
    }

    /**
     * The loop of `listOnePackage` over the sorted dependencies `deps` of a package ranked
     * `bound`: their subtrees, one level deeper, each cut down to a single trailing newline.
     */
    method ListDependencies(deps: seq<string>, level: nat, ghost bound: nat) returns (output: string)
      requires Ranked(packages, rank)
      requires forall d :: d in deps && d in packages ==> rank[d] < bound
      modifies this`packages
      ensures output == Forest(old(packages), rank, deps, level, bound)
      ensures packages == SortSome(old(packages), ReachAll(old(packages), rank, deps, bound))
      decreases bound, 3
    {
      ghost var m := packages;
      SortSomeNone(m);
      output := "";
      for i := 0 to |deps|
        invariant packages == SortSome(m, ReachAll(m, rank, deps[..i], bound))
        invariant output == Forest(m, rank, deps[..i], level, bound)
      {
        var dep := deps[i];
        ListStep(m, rank, deps, i, level, bound, packages);
        var tree := ListOnePackage(dep, level);
        output := output + Entry(tree);
      }
      assert deps[..|deps|] == deps;
    }

    /** `list`: the listing of the whole registry; sorting dependency lists keeps the store valid. */
    method List() returns (output: string)
      requires Valid()
      modifies this`packages
      ensures Valid()
      ensures output == Listing(old(packages), rank)
      ensures packages == SortAllDeps(old(packages))
    {
      SortAllValid(packages, rank);
      output := ListText();
    }

    /** The body of `list`: the header and every package's tree, in ascending key order, with the trailing newlines trimmed. */
    method ListText() returns (output: string)
      requires Ranked(packages, rank)
      modifies this`packages
      ensures output == Listing(old(packages), rank)
      ensures packages == SortAllDeps(old(packages))
    {
      ghost var m := packages;
      output := Header;
      if |packages| == 0 {
        output := output + NoPackages;
        SortSomeAll(m, {});
        SortSomeNone(m);
      } else {
        var trees := ListAll();
        output := output + trees;
      }
      output := TrimRight(output, '\n');
    }

    /** The non-empty branch of `list`: the keys, sorted, and the tree of each in turn. */
    method ListAll() returns (trees: string)
      requires Ranked(packages, rank)
      modifies this`packages
      ensures trees == Roots(old(packages), rank, SortedKeys(old(packages)))
      ensures packages == SortAllDeps(old(packages))
    {
      ghost var m := packages;
      var keys := Keys();
      ListedAll(m, rank, keys);
      trees := ListRoots(keys);
    }

    /**
     * The first loop of `list` and the sort after it: the registered names, collected in the
     * arbitrary order a Go map yields them, then sorted.
     */
    method Keys() returns (keys: seq<string>)
      ensures keys == SortedKeys(packages)
    {
      keys := [];
      var rest := packages.Keys;
      while rest != {}
        invariant multiset(keys) + multiset(rest) == multiset(packages.Keys)
        decreases |rest|
      {
        var key :| key in rest;
        assert multiset(rest) == multiset(rest - {key}) + multiset{key};
        keys := keys + [key];
        rest := rest - {key};
      }
      SortPermutation(keys, Enumerate(packages.Keys));
      keys := SortStrings(keys);
    }

    /** The second loop of `list`: the tree of every key in turn, sorting what each visits. */
    method ListRoots(keys: seq<string>) returns (output: string)
      requires Ranked(packages, rank)
      modifies this`packages
      ensures output == Roots(old(packages), rank, keys)
      ensures packages == SortSome(old(packages), RootsReach(old(packages), rank, keys))
    {
      ghost var m := packages;
      SortSomeNone(m);
      output := "";
      for i := 0 to |keys|
        invariant packages == SortSome(m, RootsReach(m, rank, keys[..i]))
        invariant output == Roots(m, rank, keys[..i])
      {
        RootsStep(m, rank, keys, i, packages);
        var tree := ListOnePackage(keys[i], 0);
        output := output + tree;
      }
      assert keys[..|keys|] == keys;
    }
  }
}

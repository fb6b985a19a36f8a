/**
 * The in-memory dependency registry: a map from package name to a record holding the
 * package's name, the dependencies it declared that were registered when it was added
 * (`dependsOn`), and the packages that currently depend on it (`requiredBy`).
 *
 * The value-level part of this module gives, for each operation, the state it leaves
 * (`Added`, `Removed`, `Listing`) and the invariant it keeps (`Consistent`: every edge is
 * recorded on both ends, as often on one end as on the other; `Ranked`: every dependency
 * was registered before its dependent, which is what makes the listing terminate). The class
 * `InMemoryStore` of the `Store` module is the store itself, with methods that follow the code
 * step by step and are proved to leave exactly those states.
 */
module Registry {
  import opened Wrappers
  import opened Text
  import opened Sorting

  datatype Package = Package(name: string, dependsOn: seq<string>, requiredBy: seq<string>)

  type Packages = map<string, Package>

  // ---------------------------------------------------------------------------------------
  // The package descriptor and the error messages
  // ---------------------------------------------------------------------------------------

  /**
   * `onePackage.String`: `package N with deps [..] and required by [..]`, lists %q-rendered.
   * For names the protocol can deliver, the descriptor identifies the record.
   */
  function Describe(p: Package): (r: string)
    ensures PlainName(p.name) && PlainNames(p.dependsOn) && PlainNames(p.requiredBy) ==> ParseDescriptor(r) == Some(p)
  {
    var text := "package " + p.name + " with deps " + QuoteList(p.dependsOn) + " and required by " + QuoteList(p.requiredBy);
    assert PlainName(p.name) && PlainNames(p.dependsOn) && PlainNames(p.requiredBy) ==> ParseDescriptor(text) == Some(p) by {
      if PlainName(p.name) && PlainNames(p.dependsOn) && PlainNames(p.requiredBy) {
        DescriptorRoundTrip(p);
      }
    }
    text
  }

  /** Reads a descriptor back into the package it describes. */
  function ParseDescriptor(s: string): Option<Package>
  {
    var r0 := Expect(s, "package ");
    if r0.None? then None else
    var r1 := ReadUntil(r0.value, ' ');
    if r1.None? then None else
    var lists := ParseLists(r1.value.1);
    if lists.None? then None else
    Some(Package(r1.value.0, lists.value.0, lists.value.1))
  }

  /** Reads `with deps [..] and required by [..]` and nothing after it. */
  function ParseLists(s: string): Option<(seq<string>, seq<string>)>
  {
    var r0 := Expect(s, "with deps ");
    if r0.None? then None else
    var deps := ReadList(r0.value);
    if deps.None? then None else
    var dependents := ParseRequiredBy(deps.value.1);
    if dependents.None? then None else
    Some((deps.value.0, dependents.value))
  }

  /** Reads ` and required by [..]` and nothing after it. */
  function ParseRequiredBy(s: string): Option<seq<string>>
  {
    var r1 := Expect(s, " and required by ");
    if r1.None? then None else
    var dependents := ReadList(r1.value);
    if dependents.None? || |dependents.value.1| != 0 then None else
    Some(dependents.value.0)
  }

  /** Names as the protocol delivers them: no space (the token separator) and no quote. */
  predicate PlainName(x: string)
  {
    ' ' !in x && '"' !in x
  }

  predicate PlainNames(xs: seq<string>)
  {
    forall i :: 0 <= i < |xs| ==> PlainName(xs[i])
  }

  lemma ParseListsRoundTrip(deps: seq<string>, dependents: seq<string>)
    requires PlainNames(deps) && PlainNames(dependents)
    ensures ParseLists("with deps " + QuoteList(deps) + " and required by " + QuoteList(dependents))
      == Some((deps, dependents))
  {
    var tail := " and required by " + QuoteList(dependents);
    var s := "with deps " + QuoteList(deps) + tail;
    assert s == "with deps " + QuoteList(deps) + " and required by " + QuoteList(dependents);
    assert s == "with deps " + (QuoteList(deps) + tail);
    ExpectConcat("with deps ", QuoteList(deps) + tail);
    ReadQuoteList(deps, tail);
    ParseRequiredByRoundTrip(dependents);
  }

  lemma ParseRequiredByRoundTrip(dependents: seq<string>)
    requires PlainNames(dependents)
    ensures ParseRequiredBy(" and required by " + QuoteList(dependents)) == Some(dependents)
  {
    ExpectConcat(" and required by ", QuoteList(dependents));
    assert QuoteList(dependents) + [] == QuoteList(dependents);
    ReadQuoteList(dependents, []);
  }

  /** The descriptor embedded in error messages identifies the package completely. */
  lemma DescriptorRoundTrip(p: Package)
    requires PlainName(p.name) && PlainNames(p.dependsOn) && PlainNames(p.requiredBy)
    ensures ParseDescriptor("package " + p.name + " with deps " + QuoteList(p.dependsOn) + " and required by " + QuoteList(p.requiredBy))
         == Some(p)
  {
    var lists := "with deps " + QuoteList(p.dependsOn) + " and required by " + QuoteList(p.requiredBy);
    assert "package " + p.name + " with deps " + QuoteList(p.dependsOn) + " and required by " + QuoteList(p.requiredBy)
        == "package " + (p.name + [' '] + lists);
    ExpectConcat("package ", p.name + [' '] + lists);
    ReadUntilToken(p.name, ' ', lists);
    ParseListsRoundTrip(p.dependsOn, p.requiredBy);
  }

  const AlreadyExistsPrefix := "package already exists: "
  const NotExistsPrefix := "package not exists: "
  const StillRequiredInfix := " cannot be removed, it's required by "

  /** The message `add` fails with when `p` is already registered under the name: it carries the record's descriptor. */
  function AlreadyExists(p: Package): (r: string)
    ensures Expect(r, AlreadyExistsPrefix) == Some(Describe(p))
  {
    ExpectConcat(AlreadyExistsPrefix, Describe(p));
    AlreadyExistsPrefix + Describe(p)
  }

  /** The message `remove` fails with for an unregistered name: it carries the name. */
  function NotExists(name: string): (r: string)
    ensures Expect(r, NotExistsPrefix) == Some(name)
  {
    ExpectConcat(NotExistsPrefix, name);
    NotExistsPrefix + name
  }

  /**
   * The message `remove` fails with while the package still has dependents: after the name,
   * the %q-rendered dependents, which read back as they are.
   */
  function StillRequired(name: string, dependents: seq<string>): (r: string)
    ensures Expect(r, "package " + name + StillRequiredInfix) == Some(QuoteList(dependents))
    ensures PlainNames(dependents) ==>
              ReadList(Expect(r, "package " + name + StillRequiredInfix).value) == Some((dependents, ""))
  {
    var head := "package " + name + StillRequiredInfix;
    ExpectConcat(head, QuoteList(dependents));
    assert PlainNames(dependents) ==> ReadList(QuoteList(dependents)) == Some((dependents, "")) by {
      if PlainNames(dependents) {
        assert QuoteList(dependents) + "" == QuoteList(dependents);
        ReadQuoteList(dependents, "");
      }
    }
    head + QuoteList(dependents)
  }

  // ---------------------------------------------------------------------------------------
  // The filters built by add (validDeps) and by removeRequiredBy (stillRequiredBy)
  // ---------------------------------------------------------------------------------------

  /** The entries of `s` that are registered names, in their order. */
  function Filter(s: seq<string>, keys: set<string>): (r: seq<string>)
    ensures forall x {:trigger multiset(r)[x]} :: multiset(r)[x] == if x in keys then multiset(s)[x] else 0
  {
    if |s| == 0 then []
    else
      var last := s[|s| - 1];
      assert s == s[..|s| - 1] + [last];
      Filter(s[..|s| - 1], keys) + (if last in keys then [last] else [])
  }

  /** The entries of `s` other than `x`, in their order. */
  function Without(s: seq<string>, x: string): (r: seq<string>)
    ensures forall y {:trigger multiset(r)[y]} :: multiset(r)[y] == if y == x then 0 else multiset(s)[y]
  {
    if |s| == 0 then []
    else
      var last := s[|s| - 1];
      assert s == s[..|s| - 1] + [last];
      Without(s[..|s| - 1], x) + (if last != x then [last] else [])
  }

  lemma FilterSnoc(s: seq<string>, x: string, keys: set<string>)
    ensures Filter(s + [x], keys) == Filter(s, keys) + (if x in keys then [x] else [])
  {
    assert (s + [x])[..|s|] == s;
  }

  /** Filtering keeps the order: it distributes over concatenation. */
  lemma {:induction false} FilterAppend(a: seq<string>, b: seq<string>, keys: set<string>)
    ensures Filter(a + b, keys) == Filter(a, keys) + Filter(b, keys)
    decreases |b|
  {
    if b == [] {
      assert a + b == a;
    } else {
      var last := b[|b| - 1];
      var piece := if last in keys then [last] else [];
      var ab := a + b;
      assert ab[..|ab| - 1] == a + b[..|b| - 1];
      assert ab[|ab| - 1] == last;
      assert Filter(ab, keys) == Filter(a + b[..|b| - 1], keys) + piece;
      FilterAppend(a, b[..|b| - 1], keys);
      assert Filter(b, keys) == Filter(b[..|b| - 1], keys) + piece;
    }
  }

  lemma {:induction false} WithoutAppend(a: seq<string>, b: seq<string>, x: string)
    ensures Without(a + b, x) == Without(a, x) + Without(b, x)
    decreases |b|
  {
    if b == [] {
      assert a + b == a;
    } else {
      assert (a + b)[..|a + b| - 1] == a + b[..|b| - 1];
      WithoutAppend(a, b[..|b| - 1], x);
    }
  }

  lemma {:induction false} WithoutAbsent(s: seq<string>, x: string)
    requires x !in s
    ensures Without(s, x) == s
  {
    if s != [] {
      WithoutAbsent(s[..|s| - 1], x);
      assert s == s[..|s| - 1] + [s[|s| - 1]];
    }
  }

  lemma WithoutTwice(s: seq<string>, x: string)
    ensures Without(Without(s, x), x) == Without(s, x)
  {
    assert x !in multiset(Without(s, x));
    WithoutAbsent(Without(s, x), x);
  }

  // ---------------------------------------------------------------------------------------
  // The invariants
  // ---------------------------------------------------------------------------------------

  /**
   * Every record is stored under its own name; every name on either list of a record is
   * registered; and package `k` lists `d` among its dependencies exactly as often as `d`
   * lists `k` among its dependents.
   */
  ghost predicate Consistent(m: Packages)
  {
    && (forall k :: k in m ==> m[k].name == k)
    && (forall k, d :: k in m && d in m[k].dependsOn ==> d in m)
    && (forall k, r :: k in m && r in m[k].requiredBy ==> r in m)
    && (forall k, d {:trigger multiset(m[k].dependsOn)[d]} {:trigger multiset(m[d].requiredBy)[k]} ::
          k in m && d in m ==> multiset(m[k].dependsOn)[d] == multiset(m[d].requiredBy)[k])
  }

  /** A creation order: every registered dependency ranks below its dependent. */
  ghost predicate Ranked(m: Packages, rank: map<string, nat>)
  {
    && m.Keys <= rank.Keys
    && forall k, d {:trigger d in m[k].dependsOn} :: k in m && d in m[k].dependsOn && d in m ==> rank[d] < rank[k]
  }

  // ---------------------------------------------------------------------------------------
  // add
  // ---------------------------------------------------------------------------------------

  /** The state after `name` has been appended to `requiredBy` once per occurrence in `ds`. */
  function Linked(m: Packages, name: string, ds: seq<string>): (r: Packages)
  {
    map k | k in m :: m[k].(requiredBy := m[k].requiredBy + Repeat(name, multiset(ds)[k]))
  }

  /** The state a successful `add(name, deps)` leaves. */
  function Added(m: Packages, name: string, deps: seq<string>): (r: Packages)
    ensures r.Keys == m.Keys + {name}
    ensures r[name] == Package(name, Filter(deps, m.Keys), [])
  {
    Linked(m, name, deps)[name := Package(name, Filter(deps, m.Keys), [])]
  }

  /**
   * What a successful add does: the new record depends on exactly the registered
   * dependencies, as often as they were given; it has no dependents; each registered
   * dependency gets the new name appended at the end of its dependents once per mention;
   * every other record is untouched.
   */
  lemma AddEffect(m: Packages, name: string, deps: seq<string>)
    requires name !in m
    ensures var r := Added(m, name, deps);
      && r.Keys == m.Keys + {name}
      && r[name].name == name && r[name].requiredBy == []
      && (forall d :: multiset(r[name].dependsOn)[d] == if d in m then multiset(deps)[d] else 0)
      && (forall k :: k in m ==>
            && r[k].name == m[k].name && r[k].dependsOn == m[k].dependsOn
            && |r[k].requiredBy| == |m[k].requiredBy| + multiset(deps)[k]
            && r[k].requiredBy[..|m[k].requiredBy|] == m[k].requiredBy
            && (forall i :: |m[k].requiredBy| <= i < |r[k].requiredBy| ==> r[k].requiredBy[i] == name))
      && (forall k :: k in m && k !in deps ==> r[k] == m[k])
  {
    var r := Added(m, name, deps);
    forall k | k in m && k !in deps ensures r[k] == m[k] {
      assert multiset(deps)[k] == 0;
      assert m[k].requiredBy + [] == m[k].requiredBy;
    }
  }

  lemma LinkedNone(m: Packages, name: string)
    ensures Linked(m, name, []) == m
  {
    forall k | k in m ensures m[k].requiredBy + Repeat(name, 0) == m[k].requiredBy {
    }
  }

  lemma LinkedStep(m: Packages, name: string, ds: seq<string>, d: string)
    ensures Linked(m, name, ds + [d]) ==
      if d in m then
        var p := Linked(m, name, ds)[d];
        Linked(m, name, ds)[d := p.(requiredBy := p.requiredBy + [name])]
      else Linked(m, name, ds)
  {
    var before := Linked(m, name, ds);
    var after := Linked(m, name, ds + [d]);
    forall k | k in m
      ensures after[k] == if k == d then before[k].(requiredBy := before[k].requiredBy + [name]) else before[k]
    {
      LinkedKey(m, name, ds, d, k);
    }
    if d in m {
      var want := before[d := before[d].(requiredBy := before[d].requiredBy + [name])];
      MapExt(after, want);
    } else {
      MapExt(after, before);
    }
  }

  /** Two registries with the same names and the same records are equal. */
  lemma MapExt(a: Packages, b: Packages)
    requires a.Keys == b.Keys && forall k :: k in a ==> a[k] == b[k]
    ensures a == b
  {
  }

  /** One record of `LinkedStep`. */
  lemma LinkedKey(m: Packages, name: string, ds: seq<string>, d: string, k: string)
    requires k in m
    ensures Linked(m, name, ds + [d])[k] ==
      var p := Linked(m, name, ds)[k];
      if k == d then p.(requiredBy := p.requiredBy + [name]) else p
  {
    assert multiset(ds + [d]) == multiset(ds) + multiset{d};
    RepeatSucc(name, multiset(ds)[k]);
  }

  lemma AddedAt(m: Packages, name: string, deps: seq<string>, k: string)
    requires name !in m
    ensures Added(m, name, deps).Keys == m.Keys + {name}
    ensures Added(m, name, deps)[name] == Package(name, Filter(deps, m.Keys), [])
    ensures k in m ==>
      Added(m, name, deps)[k] == m[k].(requiredBy := m[k].requiredBy + Repeat(name, multiset(deps)[k]))
    ensures k in m ==>
      multiset(Added(m, name, deps)[k].requiredBy) == multiset(m[k].requiredBy) + multiset{}[name := multiset(deps)[k]]
  {
    RepeatCount(name, multiset(deps)[k]);
  }

  /** A successful add keeps the invariant. */
  lemma AddConsistent(m: Packages, name: string, deps: seq<string>)
    requires Consistent(m) && name !in m
    ensures Consistent(Added(m, name, deps))
  {
    var r := Added(m, name, deps);
    AddedAt(m, name, deps, name);
    forall k | k in r ensures r[k].name == k {
      AddedAt(m, name, deps, k);
    }
    forall k, d | k in r && d in r[k].dependsOn ensures d in r {
      AddedAt(m, name, deps, k);
      if k == name { assert d in multiset(r[name].dependsOn); }
    }
    forall k, x | k in r && x in r[k].requiredBy ensures x in r {
      AddedAt(m, name, deps, k);
      if k != name && x != name {
        assert x in multiset(r[k].requiredBy);
        assert x in multiset(m[k].requiredBy);
      }
    }
    forall k, d | k in r && d in r
      ensures multiset(r[k].dependsOn)[d] == multiset(r[d].requiredBy)[k]
    {
      AddCounts(m, name, deps, k, d);
    }
  }

  lemma AddCounts(m: Packages, name: string, deps: seq<string>, k: string, d: string)
    requires Consistent(m) && name !in m
    requires (k in m || k == name) && (d in m || d == name)
    ensures multiset(Added(m, name, deps)[k].dependsOn)[d] == multiset(Added(m, name, deps)[d].requiredBy)[k]
  {
    var r := Added(m, name, deps);
    AddedAt(m, name, deps, k);
    AddedAt(m, name, deps, d);
    if k == name && d != name {
      assert name !in m[d].requiredBy;
      assert multiset(m[d].requiredBy)[name] == 0;
    } else if k != name && d == name {
      assert name !in m[k].dependsOn;
    } else if k != name && d != name {
      assert multiset(r[d].requiredBy)[k] == multiset(m[d].requiredBy)[k];
    }
  }

  /** A successful add keeps the creation order when the new package ranks last. */
  lemma AddRanked(m: Packages, rank: map<string, nat>, name: string, deps: seq<string>, next: nat)
    requires Consistent(m) && Ranked(m, rank) && name !in m
    requires forall k :: k in rank ==> rank[k] < next
    ensures Ranked(Added(m, name, deps), rank[name := next])
  {
    var r := Added(m, name, deps);
    forall k, d | k in r && d in r[k].dependsOn && d in r ensures rank[name := next][d] < rank[name := next][k] {
      if k == name {
        assert d in multiset(r[name].dependsOn);
        assert d in m;
      } else {
        assert d != name;
      }
    }
  }

  /** A successful add keeps both invariants, the new package taking the next rank. */
  lemma AddKeeps(m: Packages, rank: map<string, nat>, next: nat, name: string, deps: seq<string>)
    requires Consistent(m) && Ranked(m, rank) && name !in m
    requires forall k :: k in rank ==> rank[k] < next
    ensures Consistent(Added(m, name, deps))
    ensures Ranked(Added(m, name, deps), rank[name := next])
  {
    AddConsistent(m, name, deps);
    AddRanked(m, rank, name, deps, next);
  }

  // ---------------------------------------------------------------------------------------
  // remove
  // ---------------------------------------------------------------------------------------

  /** The state after `name` has been filtered out of `requiredBy` of every package in `ds`. */
  function Unlinked(m: Packages, name: string, ds: seq<string>): (r: Packages)
  {
    map k | k in m :: if k in ds then m[k].(requiredBy := Without(m[k].requiredBy, name)) else m[k]
  }

  /** The state a successful `remove(name)` leaves. */
  function Removed(m: Packages, name: string): (r: Packages)
    requires name in m
    ensures r.Keys == m.Keys - {name}
    ensures forall k :: k in r && k !in m[name].dependsOn ==> r[k] == m[k]
  {
    Unlinked(m, name, m[name].dependsOn) - {name}
  }

  lemma UnlinkedAt(m: Packages, name: string, ds: seq<string>, k: string)
    requires k in m
    ensures Unlinked(m, name, ds)[k] == if k in ds then m[k].(requiredBy := Without(m[k].requiredBy, name)) else m[k]
  {
  }

  lemma UnlinkedNone(m: Packages, name: string)
    ensures Unlinked(m, name, []) == m
  {
  }

  lemma UnlinkedStep(m: Packages, name: string, ds: seq<string>, d: string)
    ensures Unlinked(m, name, ds + [d]) ==
      if d in m then
        var p := Unlinked(m, name, ds)[d];
        Unlinked(m, name, ds)[d := p.(requiredBy := Without(p.requiredBy, name))]
      else Unlinked(m, name, ds)
  {
    if d in m && d in ds {
      WithoutTwice(m[d].requiredBy, name);
    }
    var before := Unlinked(m, name, ds);
    var after := Unlinked(m, name, ds + [d]);
    forall k | k in m
      ensures after[k] == if k == d then before[k].(requiredBy := Without(before[k].requiredBy, name)) else before[k]
    {
      UnlinkedAt(m, name, ds, k);
      UnlinkedAt(m, name, ds + [d], k);
    }
    if d in m {
      MapExt(after, before[d := before[d].(requiredBy := Without(before[d].requiredBy, name))]);
    } else {
      MapExt(after, before);
    }
  }

  /**
   * What a successful remove does: the name is gone; each of its dependencies loses every
   * occurrence of it from `requiredBy`, the others keeping their order; nothing else changes.
   */
  lemma RemoveEffect(m: Packages, name: string)
    requires name in m
    ensures var r := Removed(m, name);
      && r.Keys == m.Keys - {name}
      && (forall k :: k in r && k !in m[name].dependsOn ==> r[k] == m[k])
      && (forall k :: k in r && k in m[name].dependsOn ==>
            && r[k].name == m[k].name && r[k].dependsOn == m[k].dependsOn
            && name !in r[k].requiredBy
            && (forall x :: x != name ==> multiset(r[k].requiredBy)[x] == multiset(m[k].requiredBy)[x]))
  {
    var r := Removed(m, name);
    forall k | k in r && k in m[name].dependsOn ensures name !in r[k].requiredBy {
      assert name !in multiset(r[k].requiredBy);
    }
  }

  lemma RemovedAt(m: Packages, name: string, k: string)
    requires name in m
    ensures Removed(m, name).Keys == m.Keys - {name}
    ensures k in m && k != name ==>
      Removed(m, name)[k] ==
        if k in m[name].dependsOn then m[k].(requiredBy := Without(m[k].requiredBy, name)) else m[k]
  {
  }

  /** A successful remove keeps the invariant. */
  lemma RemoveConsistent(m: Packages, name: string)
    requires Consistent(m) && name in m && m[name].requiredBy == []
    ensures Consistent(Removed(m, name))
  {
    var r := Removed(m, name);
    RemovedAt(m, name, name);
    forall k | k in r ensures r[k].name == k {
      RemovedAt(m, name, k);
    }
    forall k, d | k in r && d in r[k].dependsOn ensures d in r {
      RemoveKeepsDependency(m, name, k, d);
    }
    forall k, x | k in r && x in r[k].requiredBy ensures x in r {
      RemoveKeepsDependent(m, name, k, x);
    }
    forall k, d | k in r && d in r ensures multiset(r[k].dependsOn)[d] == multiset(r[d].requiredBy)[k] {
      RemovedAt(m, name, k);
      RemovedAt(m, name, d);
    }
  }

  lemma RemoveKeepsDependency(m: Packages, name: string, k: string, d: string)
    requires Consistent(m) && name in m && m[name].requiredBy == []
    requires k in Removed(m, name) && d in Removed(m, name)[k].dependsOn
    ensures d in Removed(m, name)
  {
    RemovedAt(m, name, k);
    assert d in m;
    assert multiset(m[k].dependsOn)[d] > 0;
  }

  lemma RemoveKeepsDependent(m: Packages, name: string, k: string, x: string)
    requires Consistent(m) && name in m
    requires k in Removed(m, name) && x in Removed(m, name)[k].requiredBy
    ensures x in Removed(m, name)
  {
    var r := Removed(m, name);
    RemovedAt(m, name, k);
    assert x in multiset(r[k].requiredBy);
    assert x != name && x in multiset(m[k].requiredBy);
  }

  lemma RemoveRanked(m: Packages, rank: map<string, nat>, name: string)
    requires Ranked(m, rank) && name in m
    ensures Ranked(Removed(m, name), rank)
  {
  }

  /** A successful remove keeps both invariants. */
  lemma RemoveKeeps(m: Packages, rank: map<string, nat>, name: string)
    requires Consistent(m) && Ranked(m, rank) && name in m && m[name].requiredBy == []
    ensures Consistent(Removed(m, name)) && Ranked(Removed(m, name), rank)
  {
    RemoveConsistent(m, name);
    RemoveRanked(m, rank, name);
  }

  /** Removing a package right after adding it restores the registry as it was. */
  lemma RemoveUndoesAdd(m: Packages, name: string, deps: seq<string>)
    requires Consistent(m) && name !in m
    ensures Removed(Added(m, name, deps), name) == m
  {
    var r := Removed(Added(m, name, deps), name);
    AddedAt(m, name, deps, name);
    assert r.Keys == m.Keys;
    forall k | k in m ensures r[k] == m[k] {
      assert name !in m[k].requiredBy;
      RemoveUndoesAddAt(m, name, deps, k);
    }
  }

  /** The record of a package `k` that `name` was not a dependent of. */
  lemma RemoveUndoesAddAt(m: Packages, name: string, deps: seq<string>, k: string)
    requires name !in m && k in m && name !in m[k].requiredBy
    ensures Removed(Added(m, name, deps), name)[k] == m[k]
  {
    var a := Added(m, name, deps);
    AddedAt(m, name, deps, name);
    AddedAt(m, name, deps, k);
    var p := m[k];
    var c := multiset(deps)[k];
    var linked := p.requiredBy + Repeat(name, c);
    var ds := Filter(deps, m.Keys);
    assert a[k] == p.(requiredBy := linked);
    UnlinkedAt(a, name, ds, k);
    assert Removed(a, name)[k] == Unlinked(a, name, ds)[k];
    if k in ds {
      WithoutAbsent(p.requiredBy, name);
      WithoutAppend(p.requiredBy, Repeat(name, c), name);
      RepeatCount(name, c);
      assert multiset(Without(Repeat(name, c), name)) == multiset{};
      assert Without(linked, name) == p.requiredBy + [];
    } else {
      assert k !in multiset(ds);
      assert c == 0;
      assert linked == p.requiredBy + [];
    }
  }

  // ---------------------------------------------------------------------------------------
  // list
  // ---------------------------------------------------------------------------------------

  const Header := "Packages and Dependencies\n"
  const NoPackages := "- No packages found"

  /** The record once `sort.Strings` has sorted its stored dependency slice. */
  function SortDeps(p: Package): (r: Package)
    ensures r.name == p.name && r.requiredBy == p.requiredBy
    ensures Sorted(r.dependsOn) && multiset(r.dependsOn) == multiset(p.dependsOn)
  {
    p.(dependsOn := SortStrings(p.dependsOn))
  }

  /** The registry once every stored dependency slice has been sorted. */
  function SortAllDeps(m: Packages): (r: Packages)
    ensures r.Keys == m.Keys && forall k :: k in m ==> r[k] == SortDeps(m[k])
  {
    SortSome(m, m.Keys)
  }

  /** `listOnePackage(name, level)`: the subtree of `name`, every line ending in a newline. */
  ghost function Tree(m: Packages, rank: map<string, nat>, name: string, level: nat): string
    requires Ranked(m, rank)
    decreases if name in m then rank[name] + 1 else 0, 0
  {
    if name !in m then ""
    else
      SortedMembers(m[name].dependsOn);
      LineText(Line(level, m[name].name)) + "\n"
        + Forest(m, rank, SortStrings(m[name].dependsOn), level + 1, rank[name])
  }

  /** A subtree is empty exactly when its name is not registered: missing names are skipped. */
  lemma TreeEmpty(m: Packages, rank: map<string, nat>, name: string, level: nat)
    requires Ranked(m, rank)
    ensures |Tree(m, rank, name, level)| == 0 <==> name !in m
  {
  }

  /** The subtrees of `ds` as `listOnePackage`'s loop appends them; `bound` ranks above all of `ds`. */
  ghost function Forest(m: Packages, rank: map<string, nat>, ds: seq<string>, level: nat, bound: nat): string
    requires Ranked(m, rank)
    requires forall d :: d in ds && d in m ==> rank[d] < bound
    decreases bound, |ds|
  {
    if |ds| == 0 then ""
    else Forest(m, rank, ds[..|ds| - 1], level, bound) + Entry(Tree(m, rank, ds[|ds| - 1], level))
  }

  /** A non-empty subtree as `listOnePackage` appends it: trailing newlines cut down to one. */
  function Entry(tree: string): string
  {
    if |tree| == 0 then "" else TrimRight(tree, '\n') + "\n"
  }

  /** The top-level subtrees of `keys`, concatenated as `list` does. */
  ghost function Roots(m: Packages, rank: map<string, nat>, keys: seq<string>): string
    requires Ranked(m, rank)
  {
    if |keys| == 0 then "" else Roots(m, rank, keys[..|keys| - 1]) + Tree(m, rank, keys[|keys| - 1], 0)
  }

  /** The keys of a map in some order, as ranging over a Go map yields them. */
  ghost function Enumerate(s: set<string>): (r: seq<string>)
    ensures multiset(r) == multiset(s)
  {
    if s == {} then []
    else
      var x :| x in s;
      assert s == {x} + (s - {x});
      [x] + Enumerate(s - {x})
  }

  /** `keys` after `sort.Strings`: the registered names, in ascending order. */
  ghost function SortedKeys(m: Packages): (r: seq<string>)
    ensures Sorted(r) && multiset(r) == multiset(m.Keys)
  {
    SortStrings(Enumerate(m.Keys))
  }

  /** What `list` returns on the registry `m`. */
  ghost function Listing(m: Packages, rank: map<string, nat>): (r: string)
    requires Ranked(m, rank)
    ensures |r| == 0 || r[|r| - 1] != '\n'
  {
    TrimRight(Header + (if |m| == 0 then NoPackages else Roots(m, rank, SortedKeys(m))), '\n')
  }

  // The reference definition of the listing: a sequence of lines, one per visit.

  datatype Line = Line(depth: nat, name: string)

  /** The line written for a visit at depth `l.depth`: four spaces per level, a dash, the name. */
  function LineText(l: Line): string
  {
    Repeat(' ', l.depth * 4) + "- " + l.name
  }

  function Texts(ls: seq<Line>): (r: seq<string>)
    ensures |r| == |ls| && forall i :: 0 <= i < |ls| ==> r[i] == LineText(ls[i])
  {
    if |ls| == 0 then [] else Texts(ls[..|ls| - 1]) + [LineText(ls[|ls| - 1])]
  }

  /** The depth-first visit of `name`: its line, then its sorted dependencies one level deeper. */
  ghost function TreeLines(m: Packages, rank: map<string, nat>, name: string, depth: nat): seq<Line>
    requires Ranked(m, rank)
    decreases if name in m then rank[name] + 1 else 0, 0
  {
    if name !in m then []
    else
      SortedMembers(m[name].dependsOn);
      [Line(depth, m[name].name)] + ForestLines(m, rank, SortStrings(m[name].dependsOn), depth + 1, rank[name])
  }

  ghost function ForestLines(m: Packages, rank: map<string, nat>, ds: seq<string>, depth: nat, bound: nat): seq<Line>
    requires Ranked(m, rank)
    requires forall d :: d in ds && d in m ==> rank[d] < bound
    decreases bound, |ds|
  {
    if |ds| == 0 then []
    else ForestLines(m, rank, ds[..|ds| - 1], depth, bound) + TreeLines(m, rank, ds[|ds| - 1], depth)
  }

  ghost function RootsLines(m: Packages, rank: map<string, nat>, keys: seq<string>): seq<Line>
    requires Ranked(m, rank)
  {
    if |keys| == 0 then [] else RootsLines(m, rank, keys[..|keys| - 1]) + TreeLines(m, rank, keys[|keys| - 1], 0)
  }

  /** Every registered package, in ascending order, each followed by its dependency tree. */
  ghost function Outline(m: Packages, rank: map<string, nat>): seq<Line>
    requires Ranked(m, rank)
  {
    RootsLines(m, rank, SortedKeys(m))
  }

  predicate NoNewlines(m: Packages)
  {
    forall k :: k in m ==> '\n' !in m[k].name
  }

  ghost predicate CleanLines(ls: seq<Line>)
  {
    forall i :: 0 <= i < |ls| ==> '\n' !in ls[i].name
  }

  /** The lines, each followed by a newline. */
  function Terminated(ls: seq<Line>): string
  {
    if |ls| == 0 then "" else Terminated(ls[..|ls| - 1]) + LineText(ls[|ls| - 1]) + "\n"
  }

  lemma {:induction false} TerminatedAppend(a: seq<Line>, b: seq<Line>)
    ensures Terminated(a + b) == Terminated(a) + Terminated(b)
    decreases |b|
  {
    if b == [] {
      assert a + b == a;
    } else {
      var ab := a + b;
      var b' := b[..|b| - 1];
      var last := LineText(b[|b| - 1]);
      assert ab[..|ab| - 1] == a + b';
      assert ab[|ab| - 1] == b[|b| - 1];
      TerminatedAppend(a, b');
    }
  }

  lemma TerminatedSingle(l: Line)
    ensures Terminated([l]) == LineText(l) + "\n"
  {
    assert [l][..0] == [];
  }

  lemma LineTextEnd(l: Line)
    requires '\n' !in l.name
    ensures LineText(l) != [] && LineText(l)[|LineText(l)| - 1] != '\n'
  {
    var t := LineText(l);
    assert t == Repeat(' ', l.depth * 4) + "- " + l.name;
    if l.name == [] {
      assert t[|t| - 1] == ' ';
    } else {
      assert t[|t| - 1] == l.name[|l.name| - 1];
    }
  }

  /** A terminated block of clean lines loses exactly its last newline to `TrimRight`. */
  lemma TerminatedTrim(ls: seq<Line>)
    requires ls != [] && CleanLines(ls)
    ensures TrimRight(Terminated(ls), '\n') + "\n" == Terminated(ls)
  {
    var body := Terminated(ls[..|ls| - 1]) + LineText(ls[|ls| - 1]);
    LineTextEnd(ls[|ls| - 1]);
    TrimRightOne(body, '\n');
  }

  lemma {:induction false} TerminatedJoin(ls: seq<Line>)
    requires ls != []
    ensures Terminated(ls) == Join(Texts(ls), '\n') + "\n"
    decreases |ls|
  {
    var n := |ls|;
    if n == 1 {
      assert ls[..0] == [];
    } else {
      var front := ls[..n - 1];
      var last := LineText(ls[n - 1]);
      TerminatedJoin(front);
      assert Texts(ls) == Texts(front) + [last];
      JoinSnoc(Texts(front), last, '\n');
      assert Terminated(ls) == Terminated(front) + last + "\n";
    }
  }

  lemma {:induction false} TreeText(m: Packages, rank: map<string, nat>, name: string, depth: nat)
    requires Ranked(m, rank) && NoNewlines(m)
    ensures Tree(m, rank, name, depth) == Terminated(TreeLines(m, rank, name, depth))
    ensures (name in m) == (TreeLines(m, rank, name, depth) != [])
    ensures CleanLines(TreeLines(m, rank, name, depth))
    decreases if name in m then rank[name] + 1 else 0, 0
  {
    if name in m {
      var ds := SortStrings(m[name].dependsOn);
      SortedMembers(m[name].dependsOn);
      var head := [Line(depth, m[name].name)];
      var rest := ForestLines(m, rank, ds, depth + 1, rank[name]);
      ForestText(m, rank, ds, depth + 1, rank[name]);
      TreeUnfold(m, rank, name, depth);
      TerminatedAppend(head, rest);
      TerminatedSingle(head[0]);
      var lines := TreeLines(m, rank, name, depth);
      assert lines == head + rest;
      assert Tree(m, rank, name, depth) == Terminated(head) + Terminated(rest);
      assert Tree(m, rank, name, depth) == Terminated(lines);
      forall i | 0 <= i < |lines| ensures '\n' !in lines[i].name {
        if i > 0 {
          assert lines[i] == rest[i - 1];
        }
      }
    }
  }

  lemma TreeUnfold(m: Packages, rank: map<string, nat>, name: string, depth: nat)
    requires Ranked(m, rank) && name in m
    ensures forall d :: d in SortStrings(m[name].dependsOn) && d in m ==> rank[d] < rank[name]
    ensures Tree(m, rank, name, depth)
         == LineText(Line(depth, m[name].name)) + "\n" + Forest(m, rank, SortStrings(m[name].dependsOn), depth + 1, rank[name])
    ensures TreeLines(m, rank, name, depth)
         == [Line(depth, m[name].name)] + ForestLines(m, rank, SortStrings(m[name].dependsOn), depth + 1, rank[name])
  {
    SortedMembers(m[name].dependsOn);
  }

  lemma ReachUnfold(m: Packages, rank: map<string, nat>, name: string)
    requires Ranked(m, rank) && name in m
    ensures forall d :: d in SortStrings(m[name].dependsOn) && d in m ==> rank[d] < rank[name]
    ensures Reach(m, rank, name) == {name} + ReachAll(m, rank, SortStrings(m[name].dependsOn), rank[name])
  {
    SortedMembers(m[name].dependsOn);
  }

  lemma {:induction false} ForestText(m: Packages, rank: map<string, nat>, ds: seq<string>, depth: nat, bound: nat)
    requires Ranked(m, rank) && NoNewlines(m)
    requires forall d :: d in ds && d in m ==> rank[d] < bound
    ensures Forest(m, rank, ds, depth, bound) == Terminated(ForestLines(m, rank, ds, depth, bound))
    ensures CleanLines(ForestLines(m, rank, ds, depth, bound))
    decreases bound, |ds|
  {
    if ds != [] {
      var last := ds[|ds| - 1];
      ForestText(m, rank, ds[..|ds| - 1], depth, bound);
      TreeText(m, rank, last, depth);
      var lines := TreeLines(m, rank, last, depth);
      if lines != [] {
        TerminatedTrim(lines);
      }
      TerminatedAppend(ForestLines(m, rank, ds[..|ds| - 1], depth, bound), lines);
    }
  }

  lemma {:induction false} RootsText(m: Packages, rank: map<string, nat>, keys: seq<string>)
    requires Ranked(m, rank) && NoNewlines(m)
    requires forall k :: k in keys ==> k in m
    ensures Roots(m, rank, keys) == Terminated(RootsLines(m, rank, keys))
    ensures CleanLines(RootsLines(m, rank, keys))
    ensures keys != [] ==> RootsLines(m, rank, keys) != []
    decreases |keys|
  {
    if keys != [] {
      var last := keys[|keys| - 1];
      RootsText(m, rank, keys[..|keys| - 1]);
      TreeText(m, rank, last, 0);
      TerminatedAppend(RootsLines(m, rank, keys[..|keys| - 1]), TreeLines(m, rank, last, 0));
    }
  }

  lemma SortedKeysMembers(m: Packages)
    ensures forall k :: k in SortedKeys(m) <==> k in m
  {
    SortedMembers(Enumerate(m.Keys));
    forall k ensures k in Enumerate(m.Keys) <==> k in m {
      assert k in Enumerate(m.Keys) <==> k in multiset(Enumerate(m.Keys));
    }
  }

  /** Trimming the newline after the last of some clean lines leaves them joined by newlines. */
  lemma TrimTerminated(prefix: string, ls: seq<Line>)
    requires ls != [] && CleanLines(ls)
    ensures TrimRight(prefix + Terminated(ls), '\n') == prefix + Join(Texts(ls), '\n')
  {
    TerminatedJoin(ls);
    var body := prefix + Join(Texts(ls), '\n');
    LineTextEnd(ls[|ls| - 1]);
    JoinEnd(Texts(ls), '\n');
    assert body + "\n" == prefix + Terminated(ls);
    TrimRightOne(body, '\n');
  }

  /** A non-empty registry lists the trees of its keys; there is at least one key. */
  lemma ListingRoots(m: Packages, rank: map<string, nat>)
    requires Ranked(m, rank) && m != map[]
    ensures SortedKeys(m) != [] && forall k :: k in SortedKeys(m) ==> k in m
    ensures Listing(m, rank) == TrimRight(Header + Roots(m, rank, SortedKeys(m)), '\n')
  {
    SortedKeysMembers(m);
    var k :| k in m;
    assert k in SortedKeys(m);
  }

  /**
   * The listing is the header and then one line per visit of the outline, `- name` behind
   * four spaces per level, the lines separated by newlines and the last one not terminated.
   */
  lemma ListingOutline(m: Packages, rank: map<string, nat>)
    requires Ranked(m, rank) && NoNewlines(m) && m != map[]
    ensures Outline(m, rank) != []
    ensures Listing(m, rank) == Header + Join(Texts(Outline(m, rank)), '\n')
  {
    ListingRoots(m, rank);
    RootsText(m, rank, SortedKeys(m));
    TrimTerminated(Header, Outline(m, rank));
  }

  /** The empty registry lists as the header and a notice. */
  lemma ListingEmpty(rank: map<string, nat>)
    ensures Listing(map[], rank) == "Packages and Dependencies\n- No packages found"
  {
    var s := Header + NoPackages;
    assert s[|s| - 1] == 'd';
  }

  /** Every listing starts with the header. */
  lemma ListingHeader(m: Packages, rank: map<string, nat>)
    requires Ranked(m, rank) && NoNewlines(m)
    ensures StartsWith(Listing(m, rank), Header)
  {
    if m == map[] {
      ListingEmpty(rank);
      assert Listing(m, rank) == Header + NoPackages;
    } else {
      ListingOutline(m, rank);
    }
    assert Listing(m, rank)[..|Header|] == Header;
  }

  // The side effect of listing: `sort.Strings(deps)` sorts the slice stored in the record.

  /** The registry once the stored dependency lists of the packages in `ks` have been sorted. */
  function SortSome(m: Packages, ks: set<string>): (r: Packages)
    ensures r.Keys == m.Keys
  {
    map k | k in m :: if k in ks then SortDeps(m[k]) else m[k]
  }

  /** The packages whose records a listing of `name` visits, and therefore sorts. */
  ghost function Reach(m: Packages, rank: map<string, nat>, name: string): set<string>
    requires Ranked(m, rank)
    decreases if name in m then rank[name] + 1 else 0, 0
  {
    if name !in m then {}
    else
      SortedMembers(m[name].dependsOn);
      {name} + ReachAll(m, rank, SortStrings(m[name].dependsOn), rank[name])
  }

  ghost function ReachAll(m: Packages, rank: map<string, nat>, ds: seq<string>, bound: nat): set<string>
    requires Ranked(m, rank)
    requires forall d :: d in ds && d in m ==> rank[d] < bound
    decreases bound, |ds|
  {
    if |ds| == 0 then {} else ReachAll(m, rank, ds[..|ds| - 1], bound) + Reach(m, rank, ds[|ds| - 1])
  }

  ghost function RootsReach(m: Packages, rank: map<string, nat>, keys: seq<string>): set<string>
    requires Ranked(m, rank)
  {
    if |keys| == 0 then {} else RootsReach(m, rank, keys[..|keys| - 1]) + Reach(m, rank, keys[|keys| - 1])
  }

  /** One more dependency listed: one more subtree in the output, its packages visited. */
  lemma ForestSnoc(m: Packages, rank: map<string, nat>, ds: seq<string>, d: string, level: nat, bound: nat)
    requires Ranked(m, rank)
    requires forall x :: x in ds + [d] && x in m ==> rank[x] < bound
    ensures Forest(m, rank, ds + [d], level, bound) == Forest(m, rank, ds, level, bound) + Entry(Tree(m, rank, d, level))
    ensures ReachAll(m, rank, ds + [d], bound) == ReachAll(m, rank, ds, bound) + Reach(m, rank, d)
  {
    assert (ds + [d])[..|ds|] == ds;
  }

  lemma RootsSnoc(m: Packages, rank: map<string, nat>, keys: seq<string>, k: string)
    requires Ranked(m, rank)
    ensures Roots(m, rank, keys + [k]) == Roots(m, rank, keys) + Tree(m, rank, k, 0)
    ensures RootsReach(m, rank, keys + [k]) == RootsReach(m, rank, keys) + Reach(m, rank, k)
  {
    assert (keys + [k])[..|keys|] == keys;
  }

  lemma SortSomeNone(m: Packages)
    ensures SortSome(m, {}) == m
  {
  }

  lemma SortSomeOne(m: Packages, name: string)
    requires name in m
    ensures SortSome(m, {name}) == m[name := SortDeps(m[name])]
  {
  }

  lemma SortSomeTwice(m: Packages, a: set<string>, b: set<string>)
    ensures SortSome(SortSome(m, a), b) == SortSome(m, a + b)
  {
    forall k | k in m && k in a && k in b
      ensures SortDeps(SortDeps(m[k])) == SortDeps(m[k])
    {
      SortTwice(m[k].dependsOn);
    }
  }

  lemma SortSomeAll(m: Packages, ks: set<string>)
    requires m.Keys <= ks
    ensures SortSome(m, ks) == SortAllDeps(m)
  {
  }

  /** Sorting a record keeps its name, its dependents, and its dependencies as a multiset. */
  lemma SortSomeAt(m: Packages, ks: set<string>, k: string)
    requires k in m
    ensures SortSome(m, ks)[k].name == m[k].name
    ensures SortSome(m, ks)[k].requiredBy == m[k].requiredBy
    ensures multiset(SortSome(m, ks)[k].dependsOn) == multiset(m[k].dependsOn)
    ensures forall d :: d in SortSome(m, ks)[k].dependsOn <==> d in m[k].dependsOn
    ensures SortStrings(SortSome(m, ks)[k].dependsOn) == SortStrings(m[k].dependsOn)
  {
    SortedMembers(m[k].dependsOn);
    SortTwice(m[k].dependsOn);
  }

  lemma SortSomeRanked(m: Packages, rank: map<string, nat>, ks: set<string>)
    requires Ranked(m, rank)
    ensures Ranked(SortSome(m, ks), rank)
  {
    var r := SortSome(m, ks);
    forall k, d | k in r && d in r[k].dependsOn && d in r ensures rank[d] < rank[k] {
      SortSomeAt(m, ks, k);
    }
  }

  /** Reordering stored dependencies keeps the invariant. */
  lemma SortSomeConsistent(m: Packages, ks: set<string>)
    requires Consistent(m)
    ensures Consistent(SortSome(m, ks))
  {
    var r := SortSome(m, ks);
    forall k | k in r ensures r[k].name == k {
      SortSomeAt(m, ks, k);
    }
    forall k, d | k in r && d in r[k].dependsOn ensures d in r {
      SortSomeAt(m, ks, k);
    }
    forall k, x | k in r && x in r[k].requiredBy ensures x in r {
      SortSomeAt(m, ks, k);
    }
    forall k, d | k in r && d in r ensures multiset(r[k].dependsOn)[d] == multiset(r[d].requiredBy)[k] {
      SortSomeAt(m, ks, k);
      SortSomeAt(m, ks, d);
    }
  }

  lemma SortSomeValid(m: Packages, rank: map<string, nat>, ks: set<string>)
    requires Consistent(m) && Ranked(m, rank)
    ensures Consistent(SortSome(m, ks)) && Ranked(SortSome(m, ks), rank)
  {
    SortSomeConsistent(m, ks);
    SortSomeRanked(m, rank, ks);
  }

  /** A listing reads the same tree, and visits the same packages, whatever has been sorted before. */
  lemma {:induction false} TreeSortSome(m: Packages, ks: set<string>, rank: map<string, nat>, name: string, level: nat)
    requires Ranked(m, rank) && Ranked(SortSome(m, ks), rank)
    ensures Tree(SortSome(m, ks), rank, name, level) == Tree(m, rank, name, level)
    ensures Reach(SortSome(m, ks), rank, name) == Reach(m, rank, name)
    decreases if name in m then rank[name] + 1 else 0, 0
  {
    if name in m {
      var r := SortSome(m, ks);
      SortSomeAt(m, ks, name);
      var ds := SortStrings(m[name].dependsOn);
      SortedMembers(m[name].dependsOn);
      ForestSortSome(m, ks, rank, ds, level + 1, rank[name]);
      TreeUnfold(m, rank, name, level);
      TreeUnfold(r, rank, name, level);
    }
  }

  lemma {:induction false} ForestSortSome(m: Packages, ks: set<string>, rank: map<string, nat>, ds: seq<string>, level: nat, bound: nat)
    requires Ranked(m, rank) && Ranked(SortSome(m, ks), rank)
    requires forall d :: d in ds && d in m ==> rank[d] < bound
    ensures Forest(SortSome(m, ks), rank, ds, level, bound) == Forest(m, rank, ds, level, bound)
    ensures ReachAll(SortSome(m, ks), rank, ds, bound) == ReachAll(m, rank, ds, bound)
    decreases bound, |ds|
  {
    if ds != [] {
      ForestSortSome(m, ks, rank, ds[..|ds| - 1], level, bound);
      TreeSortSome(m, ks, rank, ds[|ds| - 1], level);
    }
  }

  /**
   * One turn of `listOnePackage`'s loop over the sorted dependencies `ds` of a package ranked
   * `bound`: with the store `cur` as the earlier turns left it, the next subtree reads as in
   * `m`, and the store the recursive call leaves is the next one.
   */
  lemma ListStep(m: Packages, rank: map<string, nat>, ds: seq<string>, i: nat, level: nat, bound: nat,
                 cur: Packages)
    requires Ranked(m, rank) && i < |ds|
    requires forall d :: d in ds && d in m ==> rank[d] < bound
    requires cur == SortSome(m, ReachAll(m, rank, ds[..i], bound))
    ensures Ranked(cur, rank)
    ensures Tree(cur, rank, ds[i], level) == Tree(m, rank, ds[i], level)
    ensures SortSome(cur, Reach(cur, rank, ds[i])) == SortSome(m, ReachAll(m, rank, ds[..i + 1], bound))
    ensures Forest(m, rank, ds[..i + 1], level, bound)
         == Forest(m, rank, ds[..i], level, bound) + Entry(Tree(m, rank, ds[i], level))
  {
    var before := ReachAll(m, rank, ds[..i], bound);
    TakeSnoc(ds, i);
    ForestSnoc(m, rank, ds[..i], ds[i], level, bound);
    SortSomeRanked(m, rank, before);
    TreeSortSome(m, before, rank, ds[i], level);
    SortSomeTwice(m, before, Reach(m, rank, ds[i]));
  }

  /** Sorting the dependencies of `name` keeps the ranking, and its dependencies still rank below it. */
  lemma SortOneRanked(m: Packages, rank: map<string, nat>, name: string, sorted: Packages)
    requires Ranked(m, rank) && name in m
    requires sorted == m[name := SortDeps(m[name])]
    ensures Ranked(sorted, rank)
    ensures forall d :: d in SortStrings(m[name].dependsOn) && d in sorted ==> rank[d] < rank[name]
  {
    SortSomeOne(m, name);
    SortSomeRanked(m, rank, {name});
    ReachUnfold(m, rank, name);
  }

  /**
   * `listOnePackage` on a registered name: once the record of `name` has its dependencies
   * sorted, the rest of its subtree, and the rest of what the listing sorts, are those of its
   * sorted dependencies in the updated map.
   */
  lemma TreeStep(m: Packages, rank: map<string, nat>, name: string, level: nat, sorted: Packages, line: string)
    requires Ranked(m, rank) && name in m
    requires sorted == m[name := SortDeps(m[name])]
    requires Ranked(sorted, rank)
    requires forall d :: d in SortStrings(m[name].dependsOn) && d in sorted ==> rank[d] < rank[name]
    requires line == Repeat(' ', level * 4) + "- " + m[name].name + "\n"
    ensures Tree(m, rank, name, level)
         == line + Forest(sorted, rank, SortStrings(m[name].dependsOn), level + 1, rank[name])
    ensures SortSome(m, Reach(m, rank, name))
         == SortSome(sorted, ReachAll(sorted, rank, SortStrings(m[name].dependsOn), rank[name]))
  {
    var deps := SortStrings(m[name].dependsOn);
    SortSomeOne(m, name);
    ReachUnfold(m, rank, name);
    ForestSortSome(m, {name}, rank, deps, level + 1, rank[name]);
    SortSomeTwice(m, {name}, ReachAll(m, rank, deps, rank[name]));
  }

  /** An unregistered name has an empty subtree and reaches nothing. */
  lemma TreeAbsent(m: Packages, rank: map<string, nat>, name: string, level: nat)
    requires Ranked(m, rank) && name !in m
    ensures Tree(m, rank, name, level) == ""
    ensures Reach(m, rank, name) == {}
  {
  }

  /** One turn of `list`'s loop over the sorted keys: one more top-level tree, its packages visited. */
  lemma RootsStep(m: Packages, rank: map<string, nat>, keys: seq<string>, i: nat, cur: Packages)
    requires Ranked(m, rank) && i < |keys|
    requires cur == SortSome(m, RootsReach(m, rank, keys[..i]))
    ensures Ranked(cur, rank)
    ensures Tree(cur, rank, keys[i], 0) == Tree(m, rank, keys[i], 0)
    ensures SortSome(cur, Reach(cur, rank, keys[i])) == SortSome(m, RootsReach(m, rank, keys[..i + 1]))
    ensures Roots(m, rank, keys[..i + 1]) == Roots(m, rank, keys[..i]) + Tree(m, rank, keys[i], 0)
  {
    var before := RootsReach(m, rank, keys[..i]);
    TakeSnoc(keys, i);
    RootsSnoc(m, rank, keys[..i], keys[i]);
    SortSomeRanked(m, rank, before);
    TreeSortSome(m, before, rank, keys[i], 0);
    SortSomeTwice(m, before, Reach(m, rank, keys[i]));
  }

  /** Sorting every stored dependency list keeps the store invariant. */
  lemma SortAllValid(m: Packages, rank: map<string, nat>)
    requires Consistent(m) && Ranked(m, rank)
    ensures Consistent(SortAllDeps(m)) && Ranked(SortAllDeps(m), rank)
  {
    SortSomeValid(m, rank, m.Keys);
  }

  /** Listing every key visits every package, and no other name. */
  lemma ListedAll(m: Packages, rank: map<string, nat>, keys: seq<string>)
    requires Ranked(m, rank)
    requires keys == SortedKeys(m)
    ensures RootsReach(m, rank, keys) == m.Keys
  {
    RootsReachCovers(m, rank, keys);
    SortedKeysMembers(m);
    RootsReachRegistered(m, rank, keys);
  }

  lemma {:induction false} RootsReachRegistered(m: Packages, rank: map<string, nat>, keys: seq<string>)
    requires Ranked(m, rank)
    ensures RootsReach(m, rank, keys) <= m.Keys
    decreases |keys|
  {
    if keys != [] {
      RootsReachRegistered(m, rank, keys[..|keys| - 1]);
      ReachRegistered(m, rank, keys[|keys| - 1]);
    }
  }

  lemma {:induction false} ReachRegistered(m: Packages, rank: map<string, nat>, name: string)
    requires Ranked(m, rank)
    ensures Reach(m, rank, name) <= m.Keys
    ensures name in m ==> name in Reach(m, rank, name)
    decreases if name in m then rank[name] + 1 else 0, 0
  {
    if name in m {
      SortedMembers(m[name].dependsOn);
      ReachAllRegistered(m, rank, SortStrings(m[name].dependsOn), rank[name]);
    }
  }

  lemma {:induction false} ReachAllRegistered(m: Packages, rank: map<string, nat>, ds: seq<string>, bound: nat)
    requires Ranked(m, rank)
    requires forall d :: d in ds && d in m ==> rank[d] < bound
    ensures ReachAll(m, rank, ds, bound) <= m.Keys
    decreases bound, |ds|
  {
    if ds != [] {
      ReachAllRegistered(m, rank, ds[..|ds| - 1], bound);
      ReachRegistered(m, rank, ds[|ds| - 1]);
    }
  }

  /** Listing every key from the top visits every package. */
  lemma {:induction false} RootsReachCovers(m: Packages, rank: map<string, nat>, keys: seq<string>)
    requires Ranked(m, rank)
    ensures forall k :: k in keys && k in m ==> k in RootsReach(m, rank, keys)
    decreases |keys|
  {
    if keys != [] {
      var last := keys[|keys| - 1];
      RootsReachCovers(m, rank, keys[..|keys| - 1]);
      ReachRegistered(m, rank, last);
      forall k | k in keys && k in m ensures k in RootsReach(m, rank, keys) {
        if k != last {
          assert k in keys[..|keys| - 1] by {
            var j :| 0 <= j < |keys| && keys[j] == k;
            assert j < |keys| - 1;
            assert keys[..|keys| - 1][j] == k;
          }
        }
      }
    }
  }
}

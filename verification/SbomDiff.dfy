/**
  Computing the difference of two package lists: indices are filled, keys visited in no particular order, and the
  lists sorted at the end.
 */
module SbomDiff {
  import opened Wrappers
  import opened Ordering
  import opened SbomModel

  // ---------- the index ----------

  function WithPackage(idx: Index, p: Package): Index {
    idx[KeyOf(p) := (if KeyOf(p) in idx then idx[KeyOf(p)] else {}) + {p.version}]
  }

  lemma IndexStep(done: set<Package>, p: Package)
    ensures IndexOf(done + {p}) == WithPackage(IndexOf(done), p)
  {
    var idx := WithPackage(IndexOf(done), p);
    assert Keys(done + {p}) == idx.Keys;
    VersionsHold(done, KeyOf(p));
    forall key | key in idx
      ensures Versions(done + {p}, key) == idx[key]
    {
      VersionsStep(done, p, key);
    }
  }

  lemma VersionsStep(done: set<Package>, p: Package, key: Key)
    ensures Versions(done + {p}, key) == Versions(done, key) + (if key == KeyOf(p) then {p.version} else {})
  {
    VersionsHold(done, key);
    VersionsHold(done + {p}, key);
    assert p == At(KeyOf(p), p.version);
  }

  method IndexByKey(packages: set<Package>) returns (idx: Index)
    ensures idx == IndexOf(packages)
  {
    idx := map[];
    var rest := packages;
    assert IndexOf({}) == map[];
    assert packages - rest == {};
    while rest != {}
      invariant rest <= packages && idx == IndexOf(packages - rest)
    {
      var p :| p in rest;
      IndexStep(packages - rest, p);
      assert packages - (rest - {p}) == packages - rest + {p};
      idx := WithPackage(idx, p);
      rest := rest - {p};
    }
    assert packages - {} == packages;
  }

  // ---------- versions in order ----------

  predicate Distinct<T(==)>(list: seq<T>) {
    forall i, j | 0 <= i < j < |list| :: list[i] != list[j]
  }

  method Sorted(versions: set<string>) returns (list: seq<string>)
    ensures list == Listing(versions, Before)
    ensures IsListing(list, versions, Before) && |list| == |versions|
  {
    var items := [];
    var rest := versions;
    while rest != {}
      invariant rest <= versions && forall v :: v in items <==> v in versions && v !in rest
      invariant Distinct(items)
    {
      var v :| v in rest;
      items := items + [v];
      rest := rest - {v};
    }
    BeforeIsOrder();
    SortLists(items, versions, Before);
    VersionsListed(versions);
    list := Sort(items, Before);
  }

  // ---------- collecting ----------

  /** `list` holds the packages of `from` whose keys are visited and absent from the other side, once each. */
  ghost predicate Collected(list: seq<Package>, from: set<Package>, visited: set<Key>, other: Index) {
    && Distinct(list)
    && forall p :: p in list <==> p in from && KeyOf(p) in visited && KeyOf(p) !in other
  }

  /** Appending the versions of one more package. */
  method AppendVersions(list: seq<Package>, from: set<Package>, ghost visited: set<Key>, ghost other: Index, key: Key,
                        versions: set<string>)
    returns (list': seq<Package>)
    requires Collected(list, from, visited, other) && key !in visited && key !in other
    requires versions == Versions(from, key)
    ensures Collected(list', from, visited + {key}, other)
  {
    var ordered := Sorted(versions);
    list' := list;
    for i := 0 to |ordered|
      invariant Distinct(list')
      invariant forall p :: p in list' <==> p in list || (KeyOf(p) == key && p.version in ordered[..i])
    {
      assert ordered[..i + 1] == ordered[..i] + [ordered[i]];
      FreshVersion(ordered, i);
      assert At(key, ordered[i]) !in list';
      list' := list' + [At(key, ordered[i])];
      assert forall p :: p == At(key, ordered[i]) <==> KeyOf(p) == key && p.version == ordered[i];
    }
    assert ordered[..|ordered|] == ordered;
    VersionsHold(from, key);
    assert forall p | KeyOf(p) == key :: p == At(key, p.version);
  }

  lemma FreshVersion(ordered: seq<string>, i: nat)
    requires Ascending(ordered, Before) && i < |ordered|
    ensures ordered[i] !in ordered[..i]
  {
    BeforeIsOrder();
  }

  lemma CollectedSkip(list: seq<Package>, from: set<Package>, visited: set<Key>, other: Index, key: Key)
    requires Collected(list, from, visited, other) && key in other
    ensures Collected(list, from, visited + {key}, other)
  {
  }

  lemma CollectedAll(list: seq<Package>, from: set<Package>, against: set<Package>)
    requires Collected(list, from, Keys(from), IndexOf(against))
    ensures Sort(list, PackageBefore) == Listing(AddedSet(against, from), PackageBefore)
    ensures Sort(list, PackageBefore) == Listing(RemovedSet(from, against), PackageBefore)
  {
    PackageBeforeIsOrder();
    SortLists(list, AddedSet(against, from), PackageBefore);
    assert AddedSet(against, from) == RemovedSet(from, against);
  }

  /** `list` holds the bumps of the visited keys, once each. */
  ghost predicate BumpsCollected(list: seq<Bump>, base: set<Package>, head: set<Package>, visited: set<Key>) {
    && Distinct(list)
    && forall b :: b in list <==> b in BumpedSet(base, head) && KeyOf(b.was) in visited
  }

  lemma BumpsStep(list: seq<Bump>, base: set<Package>, head: set<Package>, visited: set<Key>, key: Key)
    requires BumpsCollected(list, base, head, visited) && key !in visited
    ensures !Bumps(base, head, key) ==> BumpsCollected(list, base, head, visited + {key})
    ensures Bumps(base, head, key) ==>
              BumpsCollected(list + [BumpOf(base, head, key)], base, head, visited + {key})
  {
    forall b | b in BumpedSet(base, head)
      ensures KeyOf(b.was) == key <==> Bumps(base, head, key) && b == BumpOf(base, head, key)
    {
      BumpsHaveKeys(base, head, b);
    }
    if Bumps(base, head, key) {
      assert BumpOf(base, head, key) in BumpedSet(base, head);
    }
  }

  lemma BumpsAll(list: seq<Bump>, base: set<Package>, head: set<Package>)
    requires BumpsCollected(list, base, head, Keys(head))
    ensures Sort(list, BumpBefore) == Listing(BumpedSet(base, head), BumpBefore)
  {
    BumpBeforeIsOrder();
    forall b | b in BumpedSet(base, head)
      ensures b in list
    {
      BumpsHaveKeys(base, head, b);
    }
    forall i, j | 0 <= i < j < |list|
      ensures BumpBefore(list[i], list[j]) || BumpBefore(list[j], list[i])
    {
      assert list[i] in BumpedSet(base, head) && list[j] in BumpedSet(base, head);
      BumpsHaveKeys(base, head, list[i]);
      BumpsHaveKeys(base, head, list[j]);
    }
    SortLists(list, BumpedSet(base, head), BumpBefore);
  }

  // ---------- the difference ----------

  method AppendBump(list: seq<Bump>, ghost base: set<Package>, ghost head: set<Package>, ghost visited: set<Key>, key: Key,
                    baseVersions: set<string>, headVersions: set<string>)
    returns (list': seq<Bump>)
    requires BumpsCollected(list, base, head, visited) && key !in visited && key in Keys(base) && key in Keys(head)
    requires baseVersions == Versions(base, key) && headVersions == Versions(head, key)
    ensures BumpsCollected(list', base, head, visited + {key})
  {
    BumpsStep(list, base, head, visited, key);
    var newVersions, oldVersions := headVersions - baseVersions, baseVersions - headVersions;
    list' := list;
    if newVersions != {} && oldVersions != {} {
      var lost := Sorted(oldVersions);
      var gained := Sorted(newVersions);
      list' := list + [Bump(At(key, lost[0]), At(key, gained[0]))];
    }
  }

  method ScanHead(base: set<Package>, head: set<Package>, baseIdx: Index, headIdx: Index)
    returns (added: seq<Package>, bumped: seq<Bump>)
    requires baseIdx == IndexOf(base) && headIdx == IndexOf(head)
    ensures Collected(added, head, Keys(head), baseIdx)
    ensures BumpsCollected(bumped, base, head, Keys(head))
  {
    added, bumped := [], [];
    var rest := headIdx.Keys;
    ghost var visited: set<Key> := {};
    while rest != {}
      invariant rest !! visited && rest + visited == Keys(head)
      invariant Collected(added, head, visited, baseIdx)
      invariant BumpsCollected(bumped, base, head, visited)
    {
      var key :| key in rest;
      if key !in baseIdx {
        BumpsStep(bumped, base, head, visited, key);
        added := AppendVersions(added, head, visited, baseIdx, key, headIdx[key]);
      } else {
        CollectedSkip(added, head, visited, baseIdx, key);
        bumped := AppendBump(bumped, base, head, visited, key, baseIdx[key], headIdx[key]);
      }
      rest, visited := rest - {key}, visited + {key};
    }
    assert visited == Keys(head);
  }

  method ScanBase(base: set<Package>, baseIdx: Index, headIdx: Index) returns (removed: seq<Package>)
    requires baseIdx == IndexOf(base)
    ensures Collected(removed, base, Keys(base), headIdx)
  {
    removed := [];
    var rest := baseIdx.Keys;
    ghost var visited: set<Key> := {};
    while rest != {}
      invariant rest !! visited && rest + visited == Keys(base)
      invariant Collected(removed, base, visited, headIdx)
    {
      var key :| key in rest;
      if key !in headIdx {
        removed := AppendVersions(removed, base, visited, headIdx, key, baseIdx[key]);
      } else {
        CollectedSkip(removed, base, visited, headIdx, key);
      }
      rest, visited := rest - {key}, visited + {key};
    }
    assert visited == Keys(base);
  }

  method DiffSboms(base: set<Package>, head: set<Package>, caps: Caps) returns (r: Result<DiffResult, DiffError>)
    ensures r == Diff(base, head, caps)
  {
    if caps.added < 0 || caps.removed < 0 || caps.bumped < 0 {
      return Err(NegativeCap);
    }
    var baseIdx := IndexByKey(base);
    var headIdx := IndexByKey(head);
    var added, bumped := ScanHead(base, head, baseIdx, headIdx);
    var removed := ScanBase(base, baseIdx, headIdx);
    CollectedAll(added, head, base);
    CollectedAll(removed, base, head);
    BumpsAll(bumped, base, head);
    added, removed, bumped := Sort(added, PackageBefore), Sort(removed, PackageBefore), Sort(bumped, BumpBefore);
    r := Ok(DiffResult(Capped(added, caps.added), Capped(removed, caps.removed), Capped(bumped, caps.bumped),
                       Dropped(added, caps.added), Dropped(removed, caps.removed), Dropped(bumped, caps.bumped)));
  }
}

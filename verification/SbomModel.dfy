/**
  The difference of two package lists: packages added, removed, and moved to another version.
 */
module SbomModel {
  import opened Wrappers
  import opened Ordering

  datatype Package = Package(ecosystem: string, name: string, version: string)

  datatype Key = Key(ecosystem: string, name: string)

  type Index = map<Key, set<string>>

  datatype Bump = Bump(was: Package, now: Package)

  function KeyOf(p: Package): Key {
    Key(p.ecosystem, p.name)
  }

  function At(key: Key, version: string): Package {
    Package(key.ecosystem, key.name, version)
  }

  function Keys(packages: set<Package>): set<Key> {
    set p | p in packages :: KeyOf(p)
  }

  function Versions(packages: set<Package>, key: Key): set<string> {
    set p | p in packages && KeyOf(p) == key :: p.version
  }

  function IndexOf(packages: set<Package>): Index {
    map key | key in Keys(packages) :: Versions(packages, key)
  }

  lemma VersionsHold(packages: set<Package>, key: Key)
    ensures forall v :: v in Versions(packages, key) <==> At(key, v) in packages
    ensures key in Keys(packages) <==> Versions(packages, key) != {}
  {
    forall v | At(key, v) in packages
      ensures v in Versions(packages, key)
    {
      assert KeyOf(At(key, v)) == key;
    }
    if key in Keys(packages) {
      var p :| p in packages && KeyOf(p) == key;
      assert p.version in Versions(packages, key);
    }
  }

  // ---------- orders ----------

  predicate PackageBefore(p: Package, q: Package) {
    || Before(p.ecosystem, q.ecosystem)
    || (p.ecosystem == q.ecosystem && (Before(p.name, q.name) || (p.name == q.name && Before(p.version, q.version))))
  }

  predicate KeyBefore(a: Key, b: Key) {
    Before(a.ecosystem, b.ecosystem) || (a.ecosystem == b.ecosystem && Before(a.name, b.name))
  }

  predicate BumpBefore(a: Bump, b: Bump) {
    KeyBefore(KeyOf(a.was), KeyOf(b.was))
  }

  lemma PackageBeforeIsOrder()
    ensures IsOrder(PackageBefore)
    ensures forall p, q :: PackageBefore(p, q) || p == q || PackageBefore(q, p)
  {
    BeforeIsOrder();
  }

  lemma BumpBeforeIsOrder()
    ensures IsOrder(BumpBefore)
    ensures forall a, b :: BumpBefore(a, b) || KeyOf(a.was) == KeyOf(b.was) || BumpBefore(b, a)
  {
    BeforeIsOrder();
  }

  // ---------- the listing of a set ----------

  ghost predicate IsListing<T(!new)>(list: seq<T>, s: set<T>, less: (T, T) -> bool) {
    Ascending(list, less) && forall x :: x in list <==> x in s
  }

  /** The elements of `s` in ascending order. */
  ghost function Listing<T(!new)>(s: set<T>, less: (T, T) -> bool): seq<T> {
    if exists list :: IsListing(list, s, less) then
      var list :| IsListing(list, s, less);
      list
    else []
  }

  lemma TheListing<T(!new)>(list: seq<T>, s: set<T>, less: (T, T) -> bool)
    requires IsOrder(less) && IsListing(list, s, less)
    ensures Listing(s, less) == list
  {
    var other := Listing(s, less);
    assert IsListing(other, s, less);
    AscendingIsUnique(other, list, less);
  }

  /** Sorting a list of distinguished elements lists their set. */
  lemma SortLists<T(!new)>(list: seq<T>, s: set<T>, less: (T, T) -> bool)
    requires IsOrder(less) && Distinguished(list, less)
    requires forall x :: x in list <==> x in s
    ensures IsListing(Sort(list, less), s, less)
    ensures Sort(list, less) == Listing(s, less)
  {
    SortAscends(list, less);
    SortSameElements(list, less);
    TheListing(Sort(list, less), s, less);
  }

  ghost predicate Comparable<T(!new)>(s: set<T>, less: (T, T) -> bool) {
    forall x, y | x in s && y in s :: less(x, y) || x == y || less(y, x)
  }

  lemma {:induction false} Enumerate<T(!new)>(s: set<T>, less: (T, T) -> bool) returns (list: seq<T>)
    requires IsOrder(less) && Comparable(s, less)
    ensures |list| == |s| && Distinguished(list, less) && forall x :: x in list <==> x in s
  {
    list := [];
    if s == {} {
    } else {
      var x :| x in s;
      var rest := Enumerate(s - {x}, less);
      list := [x] + rest;
    }
  }

  /** A set whose elements can be compared has a listing, of its own size. */
  lemma ListingLists<T(!new)>(s: set<T>, less: (T, T) -> bool)
    requires IsOrder(less) && Comparable(s, less)
    ensures IsListing(Listing(s, less), s, less)
    ensures |Listing(s, less)| == |s|
  {
    var list := Enumerate(s, less);
    SortLists(list, s, less);
    SortSameElements(list, less);
  }

  ghost function Least(s: set<string>): string
    requires s != {}
  {
    VersionsListed(s);
    Listing(s, Before)[0]
  }

  lemma VersionsListed(s: set<string>)
    ensures IsListing(Listing(s, Before), s, Before)
    ensures |Listing(s, Before)| == |s|
  {
    BeforeIsOrder();
    ListingLists(s, Before);
  }

  lemma LeastIsLeast(s: set<string>)
    requires s != {}
    ensures Least(s) in s && forall v | v in s :: v == Least(s) || Before(Least(s), v)
  {
    VersionsListed(s);
    var list := Listing(s, Before);
    assert list[0] in list;
    assert forall v | v in list :: v == list[0] || Before(list[0], v);
  }

  // ---------- the difference ----------

  function AddedSet(base: set<Package>, head: set<Package>): set<Package> {
    set p | p in head && KeyOf(p) !in Keys(base)
  }

  function RemovedSet(base: set<Package>, head: set<Package>): set<Package> {
    set p | p in base && KeyOf(p) !in Keys(head)
  }

  function Lost(base: set<Package>, head: set<Package>, key: Key): set<string> {
    Versions(base, key) - Versions(head, key)
  }

  function Gained(base: set<Package>, head: set<Package>, key: Key): set<string> {
    Versions(head, key) - Versions(base, key)
  }

  /** A package on both sides is reported if it lost a version and gained one. */
  predicate Bumps(base: set<Package>, head: set<Package>, key: Key) {
    key in Keys(base) && key in Keys(head) && Lost(base, head, key) != {} && Gained(base, head, key) != {}
  }

  ghost function BumpOf(base: set<Package>, head: set<Package>, key: Key): Bump
    requires Bumps(base, head, key)
  {
    Bump(At(key, Least(Lost(base, head, key))), At(key, Least(Gained(base, head, key))))
  }

  ghost function BumpedSet(base: set<Package>, head: set<Package>): set<Bump> {
    set key | key in Keys(base) && Bumps(base, head, key) :: BumpOf(base, head, key)
  }

  datatype Caps = Caps(added: int, removed: int, bumped: int)

  predicate ValidCaps(caps: Caps) {
    caps.added >= 0 && caps.removed >= 0 && caps.bumped >= 0
  }

  datatype DiffError = NegativeCap

  datatype DiffResult = DiffResult(
    added: seq<Package>, removed: seq<Package>, bumped: seq<Bump>,
    truncatedAdded: nat, truncatedRemoved: nat, truncatedBumped: nat)

  function Capped<T>(list: seq<T>, cap: nat): seq<T> {
    if |list| <= cap then list else list[..cap]
  }

  function Dropped<T>(list: seq<T>, cap: nat): nat {
    if |list| <= cap then 0 else |list| - cap
  }

  ghost function Diff(base: set<Package>, head: set<Package>, caps: Caps): Result<DiffResult, DiffError> {
    if !ValidCaps(caps) then Err(NegativeCap)
    else
      var added := Listing(AddedSet(base, head), PackageBefore);
      var removed := Listing(RemovedSet(base, head), PackageBefore);
      var bumped := Listing(BumpedSet(base, head), BumpBefore);
      Ok(DiffResult(Capped(added, caps.added), Capped(removed, caps.removed), Capped(bumped, caps.bumped),
                    Dropped(added, caps.added), Dropped(removed, caps.removed), Dropped(bumped, caps.bumped)))
  }

  // ---------- what the difference means ----------

  lemma PackagesListed(s: set<Package>)
    ensures IsListing(Listing(s, PackageBefore), s, PackageBefore)
    ensures |Listing(s, PackageBefore)| == |s|
  {
    PackageBeforeIsOrder();
    ListingLists(s, PackageBefore);
  }

  lemma BumpsHaveKeys(base: set<Package>, head: set<Package>, bump: Bump)
    requires bump in BumpedSet(base, head)
    ensures KeyOf(bump.was) == KeyOf(bump.now)
    ensures Bumps(base, head, KeyOf(bump.was)) && bump == BumpOf(base, head, KeyOf(bump.was))
  {
  }

  lemma BumpsListed(base: set<Package>, head: set<Package>)
    ensures IsListing(Listing(BumpedSet(base, head), BumpBefore), BumpedSet(base, head), BumpBefore)
    ensures |Listing(BumpedSet(base, head), BumpBefore)| == |BumpedSet(base, head)|
  {
    var s := BumpedSet(base, head);
    BumpBeforeIsOrder();
    forall x, y | x in s && y in s
      ensures BumpBefore(x, y) || x == y || BumpBefore(y, x)
    {
      BumpsHaveKeys(base, head, x);
      BumpsHaveKeys(base, head, y);
    }
    ListingLists(s, BumpBefore);
  }

  /** What is listed and what is cut off add up to the whole difference. */
  lemma CountsAddUp(base: set<Package>, head: set<Package>, caps: Caps)
    requires ValidCaps(caps)
    ensures var r := Diff(base, head, caps).value;
            && |r.added| + r.truncatedAdded == |AddedSet(base, head)|
            && |r.removed| + r.truncatedRemoved == |RemovedSet(base, head)|
            && |r.bumped| + r.truncatedBumped == |BumpedSet(base, head)|
            && |r.added| <= caps.added && |r.removed| <= caps.removed && |r.bumped| <= caps.bumped
  {
    PackagesListed(AddedSet(base, head));
    PackagesListed(RemovedSet(base, head));
    BumpsListed(base, head);
  }

  /** What a cap cuts off an ascending list comes after everything it leaves. */
  lemma CutComesLast<T(!new)>(list: seq<T>, cap: nat, less: (T, T) -> bool)
    requires Ascending(list, less)
    ensures forall p, q | p in list && p !in Capped(list, cap) && q in Capped(list, cap) :: less(q, p)
  {
    var kept := Capped(list, cap);
    assert forall k | 0 <= k < |kept| :: kept[k] == list[k] && list[k] in kept;
    forall p, q | p in list && p !in kept && q in kept
      ensures less(q, p)
    {
      var i :| 0 <= i < |list| && list[i] == p;
      var j :| 0 <= j < |kept| && kept[j] == q;
      assert i >= |kept|;
    }
  }

  /** In all three lists everything that is cut off comes after everything that is listed. */
  lemma ListedComesFirst(base: set<Package>, head: set<Package>, caps: Caps)
    requires ValidCaps(caps)
    ensures var r := Diff(base, head, caps).value;
            && (forall p, q | p in AddedSet(base, head) && p !in r.added && q in r.added :: PackageBefore(q, p))
            && (forall p, q | p in RemovedSet(base, head) && p !in r.removed && q in r.removed :: PackageBefore(q, p))
            && (forall p, q | p in BumpedSet(base, head) && p !in r.bumped && q in r.bumped :: BumpBefore(q, p))
  {
    PackagesListed(AddedSet(base, head));
    PackagesListed(RemovedSet(base, head));
    BumpsListed(base, head);
    CutComesLast(Listing(AddedSet(base, head), PackageBefore), caps.added, PackageBefore);
    CutComesLast(Listing(RemovedSet(base, head), PackageBefore), caps.removed, PackageBefore);
    CutComesLast(Listing(BumpedSet(base, head), BumpBefore), caps.bumped, BumpBefore);
  }

  /** There is a report unless a cap is negative. Each list is then as long as its cap allows, ascending by ecosystem, then
      name, and, for single packages, then version. */
  lemma ListedInOrder(base: set<Package>, head: set<Package>, caps: Caps)
    ensures Diff(base, head, caps).Err? <==> caps.added < 0 || caps.removed < 0 || caps.bumped < 0
    ensures Diff(base, head, caps).Ok? ==>
            var r := Diff(base, head, caps).value;
            && |r.added| == (if |AddedSet(base, head)| <= caps.added then |AddedSet(base, head)| else caps.added)
            && |r.removed| == (if |RemovedSet(base, head)| <= caps.removed then |RemovedSet(base, head)| else caps.removed)
            && |r.bumped| == (if |BumpedSet(base, head)| <= caps.bumped then |BumpedSet(base, head)| else caps.bumped)
            && (forall i, j | 0 <= i < j < |r.added| :: InOrder(r.added[i], r.added[j]))
            && (forall i, j | 0 <= i < j < |r.removed| :: InOrder(r.removed[i], r.removed[j]))
            && (forall i, j | 0 <= i < j < |r.bumped| ::
                  || Before(r.bumped[i].was.ecosystem, r.bumped[j].was.ecosystem)
                  || (r.bumped[i].was.ecosystem == r.bumped[j].was.ecosystem &&
                      Before(r.bumped[i].was.name, r.bumped[j].was.name)))
  {
    PackagesListed(AddedSet(base, head));
    PackagesListed(RemovedSet(base, head));
    BumpsListed(base, head);
  }

  ghost predicate InOrder(p: Package, q: Package) {
    || Before(p.ecosystem, q.ecosystem)
    || (p.ecosystem == q.ecosystem && Before(p.name, q.name))
    || (p.ecosystem == q.ecosystem && p.name == q.name && Before(p.version, q.version))
  }

  /** What is added or removed is every package of the one list of whose ecosystem and name the other has none. */
  lemma AddedIff(base: set<Package>, head: set<Package>, p: Package)
    ensures p in AddedSet(base, head) <==>
            p in head && forall q | q in base :: q.ecosystem != p.ecosystem || q.name != p.name
    ensures p in RemovedSet(base, head) <==>
            p in base && forall q | q in head :: q.ecosystem != p.ecosystem || q.name != p.name
  {
    if forall q | q in base :: q.ecosystem != p.ecosystem || q.name != p.name {
      assert KeyOf(p) !in Keys(base);
    }
    if forall q | q in head :: q.ecosystem != p.ecosystem || q.name != p.name {
      assert KeyOf(p) !in Keys(head);
    }
    if p in AddedSet(base, head) {
      forall q | q in base
        ensures q.ecosystem != p.ecosystem || q.name != p.name
      {
        assert KeyOf(q) in Keys(base);
      }
    }
    if p in RemovedSet(base, head) {
      forall q | q in head
        ensures q.ecosystem != p.ecosystem || q.name != p.name
      {
        assert KeyOf(q) in Keys(head);
      }
    }
  }

  /** A bump goes from the least version that the base alone has to the least that the head alone has. */
  lemma BumpIsLeast(base: set<Package>, head: set<Package>, b: Bump, v: string)
    requires b in BumpedSet(base, head)
    ensures var p := Package(b.was.ecosystem, b.was.name, v);
            && (p in base && p !in head ==> v == b.was.version || Before(b.was.version, v))
            && (p in head && p !in base ==> v == b.now.version || Before(b.now.version, v))
  {
    BumpsHaveKeys(base, head, b);
    var key := KeyOf(b.was);
    VersionsHold(base, key);
    VersionsHold(head, key);
    LeastIsLeast(Lost(base, head, key));
    LeastIsLeast(Gained(base, head, key));
    assert At(key, v) == Package(b.was.ecosystem, b.was.name, v);
  }

  /** Everything listed belongs. */
  lemma ListedBelongs(base: set<Package>, head: set<Package>, caps: Caps)
    requires ValidCaps(caps)
    ensures var r := Diff(base, head, caps).value;
            && (forall p | p in r.added :: p in AddedSet(base, head))
            && (forall p | p in r.removed :: p in RemovedSet(base, head))
            && (forall b | b in r.bumped :: b in BumpedSet(base, head))
  {
    PackagesListed(AddedSet(base, head));
    PackagesListed(RemovedSet(base, head));
    BumpsListed(base, head);
  }

  /** No package is reported in two ways, and every bump leads from a version only the base has to one only the head
      has. */
  lemma ReportsAreDisjoint(base: set<Package>, head: set<Package>, caps: Caps)
    requires ValidCaps(caps)
    ensures var r := Diff(base, head, caps).value;
            && (forall a, d | a in r.added && d in r.removed :: KeyOf(a) != KeyOf(d))
            && (forall a, b | a in r.added && b in r.bumped :: KeyOf(a) != KeyOf(b.was))
            && (forall d, b | d in r.removed && b in r.bumped :: KeyOf(d) != KeyOf(b.was))
            && (forall b | b in r.bumped ::
                  KeyOf(b.was) == KeyOf(b.now) && b.was in base - head && b.now in head - base)
  {
    ListedBelongs(base, head, caps);
    var r := Diff(base, head, caps).value;
    forall a | a in r.added
      ensures KeyOf(a) !in Keys(base)
    {
      assert a in AddedSet(base, head);
    }
    forall d | d in r.removed
      ensures KeyOf(d) in Keys(base) && KeyOf(d) !in Keys(head)
    {
      assert d in RemovedSet(base, head);
    }
    forall b | b in r.bumped
      ensures KeyOf(b.was) == KeyOf(b.now) && KeyOf(b.was) in Keys(base) && KeyOf(b.was) in Keys(head)
      ensures b.was in base - head && b.now in head - base
    {
      BumpIsReal(base, head, b);
    }
  }

  lemma BumpIsReal(base: set<Package>, head: set<Package>, b: Bump)
    requires b in BumpedSet(base, head)
    ensures KeyOf(b.was) == KeyOf(b.now) && KeyOf(b.was) in Keys(base) && KeyOf(b.was) in Keys(head)
    ensures b.was in base && b.now in head && b.was !in head && b.now !in base
  {
    BumpsHaveKeys(base, head, b);
    var key := KeyOf(b.was);
    LeastIsLeast(Lost(base, head, key));
    LeastIsLeast(Gained(base, head, key));
    VersionsHold(base, key);
    VersionsHold(head, key);
  }

  // ---------- swapping the sides ----------

  function SwapBump(b: Bump): Bump {
    Bump(b.now, b.was)
  }

  function SwapBumps(list: seq<Bump>): seq<Bump> {
    seq(|list|, i requires 0 <= i < |list| => SwapBump(list[i]))
  }

  function SwapCaps(caps: Caps): Caps {
    Caps(caps.removed, caps.added, caps.bumped)
  }

  function Mirror(r: Result<DiffResult, DiffError>): Result<DiffResult, DiffError> {
    match r
    case Ok(d) =>
      Ok(DiffResult(d.removed, d.added, SwapBumps(d.bumped), d.truncatedRemoved, d.truncatedAdded, d.truncatedBumped))
    case Err(e) => Err(e)
  }

  lemma SwappedBumpBelongs(base: set<Package>, head: set<Package>, b: Bump)
    requires b in BumpedSet(base, head)
    ensures SwapBump(b) in BumpedSet(head, base)
  {
    BumpsHaveKeys(base, head, b);
    var key := KeyOf(b.was);
    assert Bumps(head, base, key);
    assert BumpOf(head, base, key) == SwapBump(b);
  }

  lemma SwappedListing(base: set<Package>, head: set<Package>)
    ensures Listing(BumpedSet(head, base), BumpBefore) == SwapBumps(Listing(BumpedSet(base, head), BumpBefore))
  {
    BumpBeforeIsOrder();
    BumpsListed(base, head);
    var s := BumpedSet(base, head);
    var list := Listing(s, BumpBefore);
    var swapped := SwapBumps(list);
    forall x | x in swapped
      ensures x in BumpedSet(head, base)
    {
      var i :| 0 <= i < |swapped| && swapped[i] == x;
      assert list[i] in s;
      SwappedBumpBelongs(base, head, list[i]);
    }
    forall x | x in BumpedSet(head, base)
      ensures x in swapped
    {
      SwappedBumpBelongs(head, base, x);
      assert SwapBump(x) in list;
      var i :| 0 <= i < |list| && list[i] == SwapBump(x);
      assert swapped[i] == x;
    }
    forall i, j | 0 <= i < j < |swapped|
      ensures BumpBefore(swapped[i], swapped[j])
    {
      assert list[i] in s && list[j] in s;
      BumpsHaveKeys(base, head, list[i]);
      BumpsHaveKeys(base, head, list[j]);
    }
    TheListing(swapped, BumpedSet(head, base), BumpBefore);
  }

  /** Comparing the other way round, with the caps swapped too, mirrors the report: errors, lists, order, counts. */
  lemma SwapMirrors(base: set<Package>, head: set<Package>, caps: Caps)
    ensures Diff(head, base, SwapCaps(caps)) == Mirror(Diff(base, head, caps))
  {
    SwappedListing(base, head);
    var bumped := Listing(BumpedSet(base, head), BumpBefore);
    if caps.bumped >= 0 {
      assert Capped(SwapBumps(bumped), caps.bumped) == SwapBumps(Capped(bumped, caps.bumped));
    }
    assert AddedSet(head, base) == RemovedSet(base, head) && RemovedSet(head, base) == AddedSet(base, head);
  }

  // ---------- which version changes are seen ----------

  /** A package on both sides is reported exactly if neither of its version sets includes the other. */
  lemma BumpedIff(base: set<Package>, head: set<Package>, key: Key)
    requires key in Keys(base) && key in Keys(head)
    ensures (exists b | b in BumpedSet(base, head) :: KeyOf(b.was) == key)
       <==> !(Versions(base, key) <= Versions(head, key)) && !(Versions(head, key) <= Versions(base, key))
  {
    if Bumps(base, head, key) {
      assert BumpOf(base, head, key) in BumpedSet(base, head);
      assert KeyOf(BumpOf(base, head, key).was) == key;
    }
    DifferenceIsEmpty(Versions(base, key), Versions(head, key));
    DifferenceIsEmpty(Versions(head, key), Versions(base, key));
  }

  lemma DifferenceIsEmpty(a: set<string>, b: set<string>)
    ensures a - b == {} <==> a <= b
  {
    assert forall v | v in a && v !in b :: v in a - b;
  }

  /** So not every version change is: a second version of a package slips in unreported. */
  lemma AddedVersionIsSilent()
    ensures var base, head := {Package("npm", "a", "1")}, {Package("npm", "a", "1"), Package("npm", "a", "2")};
            base != head && Diff(base, head, Caps(500, 500, 500)) == Ok(DiffResult([], [], [], 0, 0, 0))
  {
    var base, head := {Package("npm", "a", "1")}, {Package("npm", "a", "1"), Package("npm", "a", "2")};
    var key := Key("npm", "a");
    assert Package("npm", "a", "2") !in base && Package("npm", "a", "2") in head;
    assert Keys(base) == {key} && Keys(head) == {key};
    assert Lost(base, head, key) == {};
    assert AddedSet(base, head) == {} && RemovedSet(base, head) == {} && BumpedSet(base, head) == {};
    CountsAddUp(base, head, Caps(500, 500, 500));
  }

  ghost function Patch(base: set<Package>, removed: set<Package>, added: set<Package>, bumped: set<Bump>): set<Package> {
    base - removed - (set b | b in bumped :: b.was) + added + (set b | b in bumped :: b.now)
  }

  /** The base with the whole difference made to it. */
  ghost function Patched(base: set<Package>, head: set<Package>): set<Package> {
    Patch(base, RemovedSet(base, head), AddedSet(base, head), BumpedSet(base, head))
  }

  /** The versions of a package on both sides are the same, or differ by one version lost and one gained. */
  predicate Explained(base: set<Package>, head: set<Package>, key: Key) {
    var lost, gained := Lost(base, head, key), Gained(base, head, key);
    (lost == {} && gained == {}) || (|lost| == 1 && |gained| == 1)
  }

  /** Making the changes a report lists. */
  ghost function Apply(base: set<Package>, report: DiffResult): set<Package> {
    Patch(base, ElementsOf(report.removed), ElementsOf(report.added), ElementsOf(report.bumped))
  }

  function ElementsOf<T>(list: seq<T>): set<T> {
    set x | x in list
  }

  ghost predicate NothingCut(base: set<Package>, head: set<Package>, caps: Caps) {
    && ValidCaps(caps)
    && |AddedSet(base, head)| <= caps.added
    && |RemovedSet(base, head)| <= caps.removed
    && |BumpedSet(base, head)| <= caps.bumped
  }

  lemma UncutReportHoldsAll(base: set<Package>, head: set<Package>, caps: Caps)
    requires NothingCut(base, head, caps)
    ensures var report := Diff(base, head, caps).value;
            && ElementsOf(report.removed) == RemovedSet(base, head)
            && ElementsOf(report.added) == AddedSet(base, head)
            && ElementsOf(report.bumped) == BumpedSet(base, head)
  {
    PackagesListed(AddedSet(base, head));
    PackagesListed(RemovedSet(base, head));
    BumpsListed(base, head);
  }

  /** A report that nothing was cut from turns the base into the head exactly if every package on both sides kept its
      versions or exchanged a single one. */
  lemma ReportIsCompleteIff(base: set<Package>, head: set<Package>, caps: Caps)
    requires NothingCut(base, head, caps)
    ensures Apply(base, Diff(base, head, caps).value) == head
       <==> forall key | key in Keys(base) && key in Keys(head) :: Explained(base, head, key)
  {
    UncutReportHoldsAll(base, head, caps);
    PatchedIff(base, head);
  }

  lemma PatchedIff(base: set<Package>, head: set<Package>)
    ensures Patched(base, head) == head
       <==> forall key | key in Keys(base) && key in Keys(head) :: Explained(base, head, key)
  {
    forall key | key in Keys(base) && key in Keys(head)
      ensures Explained(base, head, key)
         <==> forall v :: At(key, v) in Patched(base, head) <==> At(key, v) in head
    {
      ExplainedIff(base, head, key);
    }
    if forall key | key in Keys(base) && key in Keys(head) :: Explained(base, head, key) {
      forall p
        ensures p in Patched(base, head) <==> p in head
      {
        if KeyOf(p) !in Keys(base) || KeyOf(p) !in Keys(head) {
          PatchedElsewhere(base, head, p);
        }
        assert p == At(KeyOf(p), p.version);
      }
    }
  }

  lemma PatchedElsewhere(base: set<Package>, head: set<Package>, p: Package)
    requires KeyOf(p) !in Keys(base) || KeyOf(p) !in Keys(head)
    ensures p in Patched(base, head) <==> p in head
  {
    assert p in base ==> KeyOf(p) in Keys(base);
    assert p in head ==> KeyOf(p) in Keys(head);
    forall b | b in BumpedSet(base, head)
      ensures b.was != p && b.now != p
    {
      BumpIsReal(base, head, b);
    }
  }

  lemma PatchedAt(base: set<Package>, head: set<Package>, key: Key, v: string)
    requires key in Keys(base) && key in Keys(head)
    ensures At(key, v) in Patched(base, head)
       <==> if Bumps(base, head, key) then
              (v in Versions(base, key) && v != Least(Lost(base, head, key))) || v == Least(Gained(base, head, key))
            else v in Versions(base, key)
  {
    VersionsHold(base, key);
    VersionsHold(head, key);
    forall b | b in BumpedSet(base, head)
      ensures KeyOf(b.was) == key ==> Bumps(base, head, key) && b == BumpOf(base, head, key)
      ensures KeyOf(b.was) == KeyOf(b.now)
    {
      BumpsHaveKeys(base, head, b);
    }
    assert Bumps(base, head, key) ==> BumpOf(base, head, key) in BumpedSet(base, head);
  }

  lemma OnlyElement(s: set<string>, x: string)
    requires x in s
    ensures |s| == 1 <==> forall v | v in s :: v == x
  {
    if forall v | v in s :: v == x {
      assert s == {x};
    }
    if |s| == 1 {
      assert |s - {x}| == 0;
    }
  }

  lemma ExplainedIff(base: set<Package>, head: set<Package>, key: Key)
    requires key in Keys(base) && key in Keys(head)
    ensures Explained(base, head, key)
       <==> forall v :: At(key, v) in Patched(base, head) <==> At(key, v) in head
  {
    VersionsHold(base, key);
    VersionsHold(head, key);
    forall v
      ensures At(key, v) in Patched(base, head)
         <==> if Bumps(base, head, key) then
                (v in Versions(base, key) && v != Least(Lost(base, head, key))) || v == Least(Gained(base, head, key))
              else v in Versions(base, key)
    {
      PatchedAt(base, head, key, v);
    }
    if Bumps(base, head, key) {
      LeastIsLeast(Lost(base, head, key));
      LeastIsLeast(Gained(base, head, key));
      OneLostOneGained(Versions(base, key), Versions(head, key), Least(Lost(base, head, key)),
                       Least(Gained(base, head, key)));
    }
  }

  lemma OneLostOneGained(b: set<string>, h: set<string>, lost: string, gained: string)
    requires lost in b - h && gained in h - b
    ensures |b - h| == 1 && |h - b| == 1
       <==> forall v :: v in h <==> (v in b && v != lost) || v == gained
  {
    OnlyElement(b - h, lost);
    OnlyElement(h - b, gained);
    if |b - h| == 1 && |h - b| == 1 {
      forall v
        ensures v in h <==> (v in b && v != lost) || v == gained
      {
        assert v in b && v !in h ==> v in b - h;
        assert v in h && v !in b ==> v in h - b;
      }
    }
  }
}

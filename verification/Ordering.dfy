/**
  Strings in the order of their characters, and sorting by any order.
 */
module Ordering {
  /** `a` comes strictly before `b`. */
  predicate Before(a: string, b: string) {
    b != [] && (a == [] || a[0] < b[0] || (a[0] == b[0] && Before(a[1..], b[1..])))
  }

  lemma {:induction false} BeforeIrreflexive(a: string)
    ensures !Before(a, a)
  {
    if a == [] {
    } else {
      BeforeIrreflexive(a[1..]);
    }
  }

  lemma {:induction false} BeforeTransitive(a: string, b: string, c: string)
    requires Before(a, b) && Before(b, c)
    ensures Before(a, c)
  {
    if a == [] || a[0] != b[0] || b[0] != c[0] {
    } else {
      BeforeTransitive(a[1..], b[1..], c[1..]);
    }
  }

  lemma {:induction false} BeforeTotal(a: string, b: string)
    ensures Before(a, b) || a == b || Before(b, a)
  {
    if a == [] || b == [] || a[0] != b[0] {
    } else {
      BeforeTotal(a[1..], b[1..]);
      assert a == [a[0]] + a[1..] && b == [b[0]] + b[1..];
    }
  }

  /** One string comes before another exactly if it is the beginning of it, or is smaller in the first character in which
      they differ. */
  lemma {:induction false} BeforeIff(a: string, b: string)
    ensures Before(a, b) <==>
            exists k: nat | k <= |a| && k < |b| :: a[..k] == b[..k] && (k == |a| || a[k] < b[k])
  {
    if b == [] {
    } else if a == [] || a[0] != b[0] {
      assert a[..0] == b[..0];
      forall k: nat | 0 < k <= |a| && k < |b|
        ensures a[..k] != b[..k]
      {
        assert a[..k][0] == a[0] && b[..k][0] == b[0];
      }
    } else {
      var s, t := a[1..], b[1..];
      BeforeIff(s, t);
      if k: nat :| k <= |s| && k < |t| && s[..k] == t[..k] && (k == |s| || s[k] < t[k]) {
        assert a[..k + 1] == [a[0]] + s[..k] && b[..k + 1] == [b[0]] + t[..k];
        assert k + 1 == |a| || a[k + 1] < b[k + 1];
      }
      if k: nat :| k <= |a| && k < |b| && a[..k] == b[..k] && (k == |a| || a[k] < b[k]) {
        assert k > 0;
        assert s[..k - 1] == a[..k][1..] && t[..k - 1] == b[..k][1..];
        assert k - 1 == |s| || s[k - 1] < t[k - 1];
      }
    }
  }

  lemma BeforeIsOrder()
    ensures IsOrder(Before)
    ensures forall a, b :: Before(a, b) || a == b || Before(b, a)
  {
    forall a: string, b: string, c: string
      ensures !Before(a, a)
      ensures Before(a, b) && Before(b, c) ==> Before(a, c)
      ensures Before(a, b) || a == b || Before(b, a)
    {
      BeforeIrreflexive(a);
      BeforeTotal(a, b);
      if Before(a, b) && Before(b, c) {
        BeforeTransitive(a, b, c);
      }
    }
  }

  // ---------- sorting by any order ----------

  ghost predicate IsOrder<T(!new)>(less: (T, T) -> bool) {
    && (forall a :: !less(a, a))
    && (forall a, b, c :: less(a, b) && less(b, c) ==> less(a, c))
  }

  predicate Ascending<T>(s: seq<T>, less: (T, T) -> bool) {
    forall i, j | 0 <= i < j < |s| :: less(s[i], s[j])
  }

  /** No two places of `s` tie. */
  predicate Distinguished<T>(s: seq<T>, less: (T, T) -> bool) {
    forall i, j | 0 <= i < j < |s| :: less(s[i], s[j]) || less(s[j], s[i])
  }

  predicate SameElements<T(==)>(a: seq<T>, b: seq<T>) {
    && (forall x | x in a :: x in b)
    && (forall x | x in b :: x in a)
  }

  /** Before the first element that does not have to come before `x`. */
  function Insert<T>(x: T, s: seq<T>, less: (T, T) -> bool): (r: seq<T>)
    ensures r != []
  {
    if s != [] && less(s[0], x) then [s[0]] + Insert(x, s[1..], less) else [x] + s
  }

  /** Elements that tie stay in their order. */
  function Sort<T>(s: seq<T>, less: (T, T) -> bool): (r: seq<T>)
    ensures s != [] ==> r != []
  {
    if s == [] then [] else Insert(s[0], Sort(s[1..], less), less)
  }

  lemma {:induction false} InsertKeeps<T>(x: T, s: seq<T>, less: (T, T) -> bool)
    ensures multiset(Insert(x, s, less)) == multiset{x} + multiset(s)
  {
    if s == [] {
    } else {
      assert s == [s[0]] + s[1..];
      InsertKeeps(x, s[1..], less);
    }
  }

  /** Sorting moves elements about, no more. */
  lemma {:induction false} SortKeeps<T>(s: seq<T>, less: (T, T) -> bool)
    ensures multiset(Sort(s, less)) == multiset(s)
  {
    if s == [] {
    } else {
      assert s == [s[0]] + s[1..];
      SortKeeps(s[1..], less);
      InsertKeeps(s[0], Sort(s[1..], less), less);
    }
  }

  lemma SortSameElements<T>(s: seq<T>, less: (T, T) -> bool)
    ensures SameElements(Sort(s, less), s) && |Sort(s, less)| == |s|
  {
    SortKeeps(s, less);
    forall x | x in Sort(s, less) ensures x in s {
      assert x in multiset(s);
    }
    forall x | x in s ensures x in Sort(s, less) {
      assert x in multiset(Sort(s, less));
    }
    assert |multiset(Sort(s, less))| == |Sort(s, less)| && |multiset(s)| == |s|;
  }

  lemma {:induction false} InsertAscends<T(!new)>(x: T, s: seq<T>, less: (T, T) -> bool)
    requires IsOrder(less) && Ascending(s, less)
    requires forall y | y in s :: less(x, y) || less(y, x)
    ensures Ascending(Insert(x, s, less), less)
  {
    if s == [] || !less(s[0], x) {
    } else {
      InsertAscends(x, s[1..], less);
      InsertKeeps(x, s[1..], less);
      var rest := Insert(x, s[1..], less);
      forall y | y in rest ensures less(s[0], y) {
        assert y in multiset(rest);
        assert y == x || y in s[1..];
      }
    }
  }

  lemma {:induction false} SortAscends<T(!new)>(s: seq<T>, less: (T, T) -> bool)
    requires IsOrder(less) && Distinguished(s, less)
    ensures Ascending(Sort(s, less), less)
  {
    if s == [] {
    } else {
      SortAscends(s[1..], less);
      SortSameElements(s[1..], less);
      InsertAscends(s[0], Sort(s[1..], less), less);
    }
  }

  /** There is one ascending list of the same elements. */
  lemma {:induction false} AscendingIsUnique<T(!new)>(a: seq<T>, b: seq<T>, less: (T, T) -> bool)
    requires IsOrder(less) && Ascending(a, less) && Ascending(b, less) && SameElements(a, b)
    ensures a == b
  {
    assert a == [] || a[0] in b;
    assert b == [] || b[0] in a;
    if a == [] || b == [] {
    } else {
      HeadsAgree(a, b, less);
      TailsAgree(a, b, less);
      AscendingIsUnique(a[1..], b[1..], less);
    }
  }

  lemma HeadsAgree<T(!new)>(a: seq<T>, b: seq<T>, less: (T, T) -> bool)
    requires IsOrder(less) && Ascending(a, less) && Ascending(b, less) && SameElements(a, b) && a != [] && b != []
    ensures a[0] == b[0]
  {
    assert a[0] in b && b[0] in a;
    assert forall x | x in b :: x == b[0] || less(b[0], x);
    assert forall x | x in a :: x == a[0] || less(a[0], x);
  }

  lemma TailsAgree<T(!new)>(a: seq<T>, b: seq<T>, less: (T, T) -> bool)
    requires IsOrder(less) && Ascending(a, less) && Ascending(b, less) && SameElements(a, b)
    requires a != [] && b != [] && a[0] == b[0]
    ensures SameElements(a[1..], b[1..])
  {
    TailIsRest(a, less);
    TailIsRest(b, less);
  }

  lemma TailIsRest<T(!new)>(a: seq<T>, less: (T, T) -> bool)
    requires IsOrder(less) && Ascending(a, less) && a != []
    ensures forall x :: x in a[1..] <==> x in a && x != a[0]
  {
    assert a == [a[0]] + a[1..];
    assert forall x | x in a[1..] :: less(a[0], x);
  }
}

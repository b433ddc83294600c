/** Lexicographic order on strings, and sorting and filtering of sequences under any
    strict order that is total on their elements. */
module Ordering {
  import Text

  // a sorts before b (Go's < on strings)
  predicate Less(a: string, b: string) {
    b != "" && (a == "" || a[0] < b[0] || (a[0] == b[0] && Less(a[1..], b[1..])))
  }

  lemma {:induction false} LessTotal(a: string, b: string)
    ensures a == b || Less(a, b) || Less(b, a)
  {
    if a != "" && b != "" && a[0] == b[0] {
      LessTotal(a[1..], b[1..]);
      assert a == [a[0]] + a[1..] && b == [b[0]] + b[1..];
    }
  }

  lemma {:induction false} LessAsymmetric(a: string, b: string)
    requires Less(a, b)
    ensures !Less(b, a)
  {
    if a != "" && a[0] == b[0] {
      LessAsymmetric(a[1..], b[1..]);
    }
  }

  lemma {:induction false} LessTransitive(a: string, b: string, c: string)
    requires Less(a, b) && Less(b, c)
    ensures Less(a, c)
  {
    if a != "" && a[0] == b[0] == c[0] {
      LessTransitive(a[1..], b[1..], c[1..]);
    }
  }

  /** The order is the lexicographic one: at the first place where the two differ, the first
      has the smaller character, or has ended. */
  lemma {:induction false} LessExactly(a: string, b: string)
    ensures Less(a, b) <==>
            exists k :: 0 <= k <= |a| && k < |b| && a[..k] == b[..k] && (k == |a| || a[k] < b[k])
  {
    if b != "" && a != "" && a[0] == b[0] {
      LessExactly(a[1..], b[1..]);
      if k :| 0 <= k <= |a[1..]| && k < |b[1..]| && a[1..][..k] == b[1..][..k] &&
              (k == |a[1..]| || a[1..][k] < b[1..][k]) {
        assert a[..k + 1] == [a[0]] + a[1..][..k] && b[..k + 1] == [b[0]] + b[1..][..k];
      }
      if k :| 0 <= k <= |a| && k < |b| && a[..k] == b[..k] && (k == |a| || a[k] < b[k]) {
        assert k > 0;
        assert a[1..][..k - 1] == a[..k][1..] && b[1..][..k - 1] == b[..k][1..];
      }
    } else if b != "" {
      assert a[..0] == b[..0];
      if k :| 0 <= k <= |a| && k < |b| && a[..k] == b[..k] && (k == |a| || a[k] < b[k]) {
        assert k > 0 ==> a[..k][0] == b[..k][0];
      }
    }
  }

  type Order<!T> = (T, T) -> bool

  ghost predicate Strict<T(!new)>(before: Order<T>) {
    && (forall x, y :: before(x, y) ==> !before(y, x))
    && (forall x, y, z :: before(x, y) && before(y, z) ==> before(x, z))
  }

  ghost predicate TotalOn<T(!new)>(s: seq<T>, before: Order<T>) {
    forall x, y :: x in s && y in s && x != y ==> before(x, y) || before(y, x)
  }

  ghost predicate Ordered<T>(s: seq<T>, before: Order<T>) {
    forall i, j :: 0 <= i < j < |s| ==> !before(s[j], s[i])
  }

  function Insert<T>(x: T, s: seq<T>, before: Order<T>): seq<T> {
    if s != [] && before(s[0], x) then [s[0]] + Insert(x, s[1..], before) else [x] + s
  }

  // sort.Strings and ORDER BY: the order is all that is observable of them here.
  function Sort<T>(s: seq<T>, before: Order<T>): seq<T> {
    if s == [] then [] else Insert(s[0], Sort(s[1..], before), before)
  }

  lemma {:induction false} InsertKeeps<T>(x: T, s: seq<T>, before: Order<T>)
    ensures multiset(Insert(x, s, before)) == multiset{x} + multiset(s)
  {
    if s != [] {
      InsertKeeps(x, s[1..], before);
      assert s == [s[0]] + s[1..];
    }
  }

  lemma {:induction false} InsertOrders<T(!new)>(x: T, s: seq<T>, before: Order<T>)
    requires Strict(before) && Ordered(s, before) && TotalOn([x] + s, before)
    ensures Ordered(Insert(x, s, before), before)
  {
    var r := Insert(x, s, before);
    if s != [] && before(s[0], x) {
      var tail := s[1..];
      forall y | y in [x] + tail ensures y in [x] + s {
        assert y == x || y in tail;
      }
      InsertOrders(x, tail, before);
      InsertKeeps(x, tail, before);
      forall i, j | 0 <= i < j < |r| ensures !before(r[j], r[i]) {
        if i == 0 {
          assert r[j] in multiset(Insert(x, tail, before));
          assert r[j] == x || r[j] in tail;
        }
      }
    } else {
      forall i, j | 0 <= i < j < |r| ensures !before(r[j], r[i]) {
        if i == 0 {
          assert x in [x] + s && s[0] in [x] + s;
          assert s[0] == x || before(x, s[0]);
          assert s[j - 1] == s[0] || !before(s[j - 1], s[0]);
        }
      }
    }
  }

  lemma {:induction false} SortPermutes<T>(s: seq<T>, before: Order<T>)
    ensures multiset(Sort(s, before)) == multiset(s)
  {
    if s != [] {
      SortPermutes(s[1..], before);
      InsertKeeps(s[0], Sort(s[1..], before), before);
      assert s == [s[0]] + s[1..];
    }
  }

  lemma SortKeeps<T>(s: seq<T>, before: Order<T>)
    ensures multiset(Sort(s, before)) == multiset(s)
    ensures |Sort(s, before)| == |s|
    ensures forall x :: x in Sort(s, before) <==> x in s
  {
    SortPermutes(s, before);
    SameMembers(Sort(s, before), s);
  }

  lemma SameMembers<T>(a: seq<T>, b: seq<T>)
    requires multiset(a) == multiset(b)
    ensures |a| == |b|
    ensures forall x :: x in a <==> x in b
  {
    assert |multiset(a)| == |a| && |multiset(b)| == |b|;
    forall x ensures x in a <==> x in b {
      assert x in a <==> x in multiset(a);
    }
  }

  lemma {:induction false} SortOrders<T(!new)>(s: seq<T>, before: Order<T>)
    requires Strict(before) && TotalOn(s, before)
    ensures Ordered(Sort(s, before), before)
  {
    if s != [] {
      SortOrders(s[1..], before);
      SortKeeps(s[1..], before);
      InsertOrders(s[0], Sort(s[1..], before), before);
    }
  }

  // A set of elements has only one ordered listing.
  lemma {:induction false} OrderedUnique<T(!new)>(a: seq<T>, b: seq<T>, before: Order<T>)
    requires Ordered(a, before) && Ordered(b, before) && TotalOn(a, before)
    requires multiset(a) == multiset(b)
    ensures a == b
  {
    assert |multiset(a)| == |a| && |multiset(b)| == |b|;
    if a != [] {
      HeadsAgree(a, b, before);
      TailMultiset(a);
      TailMultiset(b);
      OrderedUnique(a[1..], b[1..], before);
      assert a == [a[0]] + a[1..] && b == [b[0]] + b[1..];
    }
  }

  lemma HeadsAgree<T(!new)>(a: seq<T>, b: seq<T>, before: Order<T>)
    requires Ordered(a, before) && Ordered(b, before) && TotalOn(a, before)
    requires a != [] && b != [] && multiset(a) == multiset(b)
    ensures a[0] == b[0]
  {
    assert a[0] in multiset(b) && b[0] in multiset(a);
    var i :| 0 <= i < |b| && b[i] == a[0];
    var j :| 0 <= j < |a| && a[j] == b[0];
  }

  lemma TailMultiset<T>(s: seq<T>)
    requires s != []
    ensures multiset(s[1..]) == multiset(s) - multiset{s[0]}
  {
    assert s == [s[0]] + s[1..];
  }

  // ---- repeats ----------------------------------------------------------------------

  predicate Distinct<T(==)>(s: seq<T>) {
    forall i, j :: 0 <= i < j < |s| ==> s[i] != s[j]
  }

  lemma {:induction false} DistinctCounts<T>(s: seq<T>, x: T)
    requires Distinct(s)
    ensures multiset(s)[x] == if x in s then 1 else 0
  {
    if s != [] {
      DistinctCounts(s[1..], x);
      assert s == [s[0]] + s[1..];
      assert s[0] !in s[1..];
    }
  }

  lemma CountsDistinct<T>(s: seq<T>)
    requires forall x :: multiset(s)[x] <= 1
    ensures Distinct(s)
  {
    forall i, j | 0 <= i < j < |s| ensures s[i] != s[j] {
      assert s == s[..j] + [s[j]] + s[j + 1..];
      assert multiset(s)[s[j]] == multiset(s[..j])[s[j]] + 1 + multiset(s[j + 1..])[s[j]];
      assert s[i] in multiset(s[..j]) by {
        assert s[..j][i] == s[i];
      }
    }
  }

  lemma DistinctPermutes<T>(a: seq<T>, b: seq<T>)
    requires Distinct(a) && multiset(a) == multiset(b)
    ensures Distinct(b)
  {
    forall x ensures multiset(b)[x] <= 1 {
      DistinctCounts(a, x);
    }
    CountsDistinct(b);
  }

  // ---- filtering -------------------------------------------------------------------

  function Filter<T>(s: seq<T>, p: T -> bool): seq<T> {
    if s == [] then [] else (if p(s[0]) then [s[0]] else []) + Filter(s[1..], p)
  }

  lemma {:induction false} FilterCounts<T>(s: seq<T>, p: T -> bool, x: T)
    ensures multiset(Filter(s, p))[x] == if p(x) then multiset(s)[x] else 0
    ensures x in Filter(s, p) <==> x in s && p(x)
  {
    if s != [] {
      FilterCounts(s[1..], p, x);
      assert s == [s[0]] + s[1..];
    }
  }

  lemma {:induction false} FilterConcat<T>(a: seq<T>, b: seq<T>, p: T -> bool)
    ensures Filter(a + b, p) == Filter(a, p) + Filter(b, p)
  {
    if a == [] {
      assert a + b == b;
    } else {
      FilterConcat(a[1..], b, p);
      assert (a + b)[1..] == a[1..] + b;
      Text.Assoc(if p(a[0]) then [a[0]] else [], Filter(a[1..], p), Filter(b, p));
    }
  }

  lemma {:induction false} FilterNone<T>(s: seq<T>, p: T -> bool)
    requires forall x :: x in s ==> !p(x)
    ensures Filter(s, p) == []
  {
    if s != [] {
      FilterNone(s[1..], p);
    }
  }

  lemma {:induction false} FilterAll<T>(s: seq<T>, p: T -> bool)
    requires forall x :: x in s ==> p(x)
    ensures Filter(s, p) == s
  {
    if s != [] {
      FilterAll(s[1..], p);
    }
  }

  // A predicate that holds exactly from position n on keeps exactly that suffix.
  lemma {:induction false} FilterSuffix<T>(s: seq<T>, p: T -> bool, n: nat)
    requires n <= |s|
    requires forall i :: 0 <= i < |s| ==> (p(s[i]) <==> n <= i)
    ensures Filter(s, p) == s[n..]
  {
    if n == 0 {
      FilterAll(s, p);
    } else {
      var tail := s[1..];
      assert forall i :: 0 <= i < |tail| ==> tail[i] == s[i + 1];
      FilterSuffix(tail, p, n - 1);
      Text.DropDrop(s, 1, n - 1);
    }
  }

  lemma {:induction false} FilterOrders<T(!new)>(s: seq<T>, p: T -> bool, before: Order<T>)
    requires Ordered(s, before)
    ensures Ordered(Filter(s, p), before)
  {
    if s != [] {
      FilterOrders(s[1..], p, before);
      var rest := Filter(s[1..], p);
      forall i | 0 <= i < |rest| ensures !before(rest[i], s[0]) {
        FilterCounts(s[1..], p, rest[i]);
        var k :| 0 <= k < |s[1..]| && s[1..][k] == rest[i];
        assert s[k + 1] == rest[i];
      }
    }
  }

  // Filtering and sorting commute.
  lemma SortOfFilter<T(!new)>(s: seq<T>, p: T -> bool, before: Order<T>)
    requires Strict(before) && TotalOn(s, before)
    ensures Sort(Filter(s, p), before) == Filter(Sort(s, before), p)
  {
    var a, b := Sort(Filter(s, p), before), Filter(Sort(s, before), p);
    forall x ensures x in Filter(s, p) ==> x in s {
      FilterCounts(s, p, x);
    }
    SortOrders(Filter(s, p), before);
    SortOrders(s, before);
    FilterOrders(Sort(s, before), p, before);
    SortKeeps(Filter(s, p), before);
    SortKeeps(s, before);
    assert multiset(a) == multiset(b) by {
      forall x ensures multiset(a)[x] == multiset(b)[x] {
        FilterCounts(s, p, x);
        FilterCounts(Sort(s, before), p, x);
      }
    }
    OrderedUnique(a, b, before);
  }
}

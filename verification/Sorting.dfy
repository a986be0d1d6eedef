/** A stable sort by any total order: each element goes before the first one it does not follow. */
module Sorting {
  function Insert<T>(x: T, s: seq<T>, leq: (T, T) -> bool): seq<T> {
    if s == [] || leq(x, s[0]) then [x] + s else [s[0]] + Insert(x, s[1..], leq)
  }

  function Sort<T>(s: seq<T>, leq: (T, T) -> bool): seq<T> {
    if s == [] then [] else Insert(s[0], Sort(s[1..], leq), leq)
  }

  predicate Sorted<T>(s: seq<T>, leq: (T, T) -> bool) {
    forall i, j | 0 <= i < j < |s| :: leq(s[i], s[j])
  }

  ghost predicate TotalOrder<T(!new)>(leq: (T, T) -> bool) {
    && (forall a, b :: leq(a, b) || leq(b, a))
    && (forall a, b, c :: leq(a, b) && leq(b, c) ==> leq(a, c))
  }

  ghost predicate Antisymmetric<T(!new)>(leq: (T, T) -> bool) {
    forall a, b :: leq(a, b) && leq(b, a) ==> a == b
  }

  lemma {:induction false} InsertAdds<T>(x: T, s: seq<T>, leq: (T, T) -> bool)
    ensures multiset(Insert(x, s, leq)) == multiset(s) + multiset{x}
    decreases s
  {
    if s != [] {
      InsertAdds(x, s[1..], leq);
      assert s == [s[0]] + s[1..];
    }
  }

  lemma SortedCons<T>(x: T, s: seq<T>, leq: (T, T) -> bool)
    requires Sorted(s, leq) && forall y <- s :: leq(x, y)
    ensures Sorted([x] + s, leq)
  {
  }

  lemma SortedTail<T>(s: seq<T>, leq: (T, T) -> bool)
    requires Sorted(s, leq) && s != []
    ensures Sorted(s[1..], leq)
  {
  }

  lemma SortedHead<T(!new)>(s: seq<T>, x: T, leq: (T, T) -> bool)
    requires TotalOrder(leq) && Sorted(s, leq) && x in s
    ensures leq(s[0], x)
  {
    assert leq(x, x);
  }

  lemma {:induction false} InsertSorts<T(!new)>(x: T, s: seq<T>, leq: (T, T) -> bool)
    requires TotalOrder(leq) && Sorted(s, leq)
    ensures Sorted(Insert(x, s, leq), leq)
    decreases s
  {
    hide Sorted;
    if s == [] {
      SortedOne(x, leq);
      assert [x] + s == [x];
    } else {
      forall y <- s
        ensures leq(s[0], y)
      {
        SortedHead(s, y, leq);
      }
      if leq(x, s[0]) {
        SortedCons(x, s, leq);
      } else {
        var rest := Insert(x, s[1..], leq);
        SortedTail(s, leq);
        InsertSorts(x, s[1..], leq);
        InsertAdds(x, s[1..], leq);
        assert forall y <- rest :: y in multiset(rest);
        assert forall y <- rest :: y == x || y in s;
        SortedCons(s[0], rest, leq);
      }
    }
  }

  lemma SortedOne<T>(x: T, leq: (T, T) -> bool)
    ensures Sorted([x], leq)
  {
  }

  /** Sorting orders the elements and keeps every one of them. */
  lemma {:induction false} SortSorts<T(!new)>(s: seq<T>, leq: (T, T) -> bool)
    requires TotalOrder(leq)
    ensures Sorted(Sort(s, leq), leq) && multiset(Sort(s, leq)) == multiset(s)
    decreases s
  {
    if s != [] {
      SortSorts(s[1..], leq);
      InsertSorts(s[0], Sort(s[1..], leq), leq);
      InsertAdds(s[0], Sort(s[1..], leq), leq);
      assert s == [s[0]] + s[1..];
    }
  }

  lemma SortKeeps<T(!new)>(s: seq<T>, leq: (T, T) -> bool, x: T)
    requires TotalOrder(leq)
    ensures x in Sort(s, leq) <==> x in s
    ensures |Sort(s, leq)| == |s|
  {
    SortSorts(s, leq);
    assert x in s <==> x in multiset(s);
    assert x in Sort(s, leq) <==> x in multiset(Sort(s, leq));
    assert |multiset(Sort(s, leq))| == |Sort(s, leq)| && |multiset(s)| == |s|;
  }

  /** What is in order stays as it is, equal keys and all. */
  lemma {:induction false} SortedIsSettled<T>(s: seq<T>, leq: (T, T) -> bool)
    requires Sorted(s, leq)
    ensures Sort(s, leq) == s
    decreases s
  {
    if s != [] {
      SortedIsSettled(s[1..], leq);
      assert s == [s[0]] + s[1..];
    }
  }

  lemma MultisetTail<T>(s: seq<T>)
    requires s != []
    ensures multiset(s[1..]) == multiset(s) - multiset{s[0]}
  {
    assert s == [s[0]] + s[1..];
  }

  /** The elements alone decide the order when different ones are never equal in it. */
  lemma {:induction false} SortedIsUnique<T(!new)>(a: seq<T>, b: seq<T>, leq: (T, T) -> bool)
    requires TotalOrder(leq) && Antisymmetric(leq)
    requires Sorted(a, leq) && Sorted(b, leq) && multiset(a) == multiset(b)
    ensures a == b
    decreases a
  {
    hide Sorted;
    assert |a| == |multiset(a)| == |b|;
    if a != [] {
      assert a[0] in multiset(b) && b[0] in multiset(a);
      SortedHead(a, b[0], leq);
      SortedHead(b, a[0], leq);
      SortedTail(a, leq);
      SortedTail(b, leq);
      MultisetTail(a);
      MultisetTail(b);
      SortedIsUnique(a[1..], b[1..], leq);
      assert a == [a[0]] + a[1..] && b == [b[0]] + b[1..];
    }
  }
}

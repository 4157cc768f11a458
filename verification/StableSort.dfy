/**
 * The stable sort of `Array.prototype.sort`, as a specification: what the registry and the chat thread
 * rely on is that it orders by a total preorder, loses nothing, and keeps ties in their original order.
 */
module StableSort {

  ghost predicate TotalPreorder<T(!new)>(leq: (T, T) -> bool) {
    && (forall x, y :: leq(x, y) || leq(y, x))
    && (forall x, y, z :: leq(x, y) && leq(y, z) ==> leq(x, z))
  }

  ghost predicate Sorted<T>(leq: (T, T) -> bool, s: seq<T>) {
    forall i, j :: 0 <= i < j < |s| ==> leq(s[i], s[j])
  }

  /** Puts `x` behind every leading element that may stay before it. */
  function Insert<T>(leq: (T, T) -> bool, x: T, s: seq<T>): seq<T> {
    if s == [] then [x]
    else if leq(s[0], x) then [s[0]] + Insert(leq, x, s[1..])
    else [x] + s
  }

  function Sort<T>(leq: (T, T) -> bool, s: seq<T>): seq<T> {
    if s == [] then [] else Insert(leq, s[|s| - 1], Sort(leq, s[..|s| - 1]))
  }

  lemma SortSnoc<T>(leq: (T, T) -> bool, s: seq<T>, x: T)
    ensures Sort(leq, s + [x]) == Insert(leq, x, Sort(leq, s))
  {
    assert (s + [x])[..|s + [x]| - 1] == s;
  }

  lemma InsertCons<T>(leq: (T, T) -> bool, x: T, y: T, s: seq<T>)
    requires leq(y, x)
    ensures Insert(leq, x, [y] + s) == [y] + Insert(leq, x, s)
  {
    assert ([y] + s)[1..] == s;
  }

  function Filter<T>(keep: T -> bool, s: seq<T>): seq<T> {
    if s == [] then []
    else Filter(keep, s[..|s| - 1]) + (if keep(s[|s| - 1]) then [s[|s| - 1]] else [])
  }

  function RemoveAt<T>(s: seq<T>, k: nat): seq<T>
    requires k < |s|
  {
    s[..k] + s[k + 1..]
  }

  // ---------------------------------------------------------------- sorting

  lemma {:induction false} InsertContents<T>(leq: (T, T) -> bool, x: T, s: seq<T>)
    ensures multiset(Insert(leq, x, s)) == multiset(s) + multiset{x}
    ensures |Insert(leq, x, s)| == |s| + 1
  {
    if s != [] && leq(s[0], x) {
      InsertContents(leq, x, s[1..]);
      assert s == [s[0]] + s[1..];
    }
  }

  lemma {:induction false} InsertMembers<T>(leq: (T, T) -> bool, x: T, s: seq<T>)
    ensures forall y :: y in Insert(leq, x, s) <==> y == x || y in s
  {
    if s != [] && leq(s[0], x) {
      InsertMembers(leq, x, s[1..]);
      assert s == [s[0]] + s[1..];
    }
  }

  lemma InsertMember<T>(leq: (T, T) -> bool, x: T, s: seq<T>, y: T)
    ensures y in Insert(leq, x, s) <==> y == x || y in s
  {
    InsertMembers(leq, x, s);
  }

  lemma {:induction false} InsertSorted<T(!new)>(leq: (T, T) -> bool, x: T, s: seq<T>)
    requires TotalPreorder(leq) && Sorted(leq, s)
    ensures Sorted(leq, Insert(leq, x, s))
  {
    if s != [] && leq(s[0], x) {
      InsertSorted(leq, x, s[1..]);
      InsertMembers(leq, x, s[1..]);
      var t := Insert(leq, x, s[1..]);
      forall j | 0 <= j < |t|
        ensures leq(s[0], t[j])
      {
        assert t[j] in t;
      }
    }
  }

  lemma {:induction false} SortSorts<T(!new)>(leq: (T, T) -> bool, s: seq<T>)
    requires TotalPreorder(leq)
    ensures Sorted(leq, Sort(leq, s))
  {
    if s != [] {
      var n := |s| - 1;
      SortSorts(leq, s[..n]);
      InsertSorted(leq, s[n], Sort(leq, s[..n]));
    }
  }

  lemma InsertedContents<T>(leq: (T, T) -> bool, x: T, s: seq<T>, sorted: seq<T>)
    requires multiset(sorted) == multiset(s)
    ensures multiset(Insert(leq, x, sorted)) == multiset(s + [x])
  {
    InsertContents(leq, x, sorted);
  }

  lemma {:induction false} SortContents<T>(leq: (T, T) -> bool, s: seq<T>)
    ensures multiset(Sort(leq, s)) == multiset(s)
  {
    if s != [] {
      var n := |s| - 1;
      SortContents(leq, s[..n]);
      InsertedContents(leq, s[n], s[..n], Sort(leq, s[..n]));
      assert s == s[..n] + [s[n]];
    }
  }

  lemma {:induction false} InsertLast<T(!new)>(leq: (T, T) -> bool, x: T, s: seq<T>)
    requires forall y :: y in s ==> leq(y, x)
    ensures Insert(leq, x, s) == s + [x]
  {
    if s != [] {
      InsertLast(leq, x, s[1..]);
      assert s == [s[0]] + s[1..];
    }
  }

  /** Sorting a sorted sequence changes nothing. */
  lemma {:induction false} SortIsIdentityOnSorted<T(!new)>(leq: (T, T) -> bool, s: seq<T>)
    requires Sorted(leq, s)
    ensures Sort(leq, s) == s
  {
    if s != [] {
      var n := |s| - 1;
      SortIsIdentityOnSorted(leq, s[..n]);
      InsertLast(leq, s[n], s[..n]);
    }
  }

  // ---------------------------------------------------------------- filtering

  lemma {:induction false} FilterMembers<T>(keep: T -> bool, s: seq<T>)
    ensures forall y :: y in Filter(keep, s) <==> y in s && keep(y)
  {
    if s != [] {
      FilterMembers(keep, s[..|s| - 1]);
      assert s == s[..|s| - 1] + [s[|s| - 1]];
    }
  }

  lemma {:induction false} FilterConcat<T>(keep: T -> bool, a: seq<T>, b: seq<T>)
    ensures Filter(keep, a + b) == Filter(keep, a) + Filter(keep, b)
  {
    if b == [] {
      assert a + b == a;
    } else {
      var n := |b| - 1;
      assert (a + b)[..|a + b| - 1] == a + b[..n];
      FilterConcat(keep, a, b[..n]);
    }
  }

  lemma FilterFirst<T>(keep: T -> bool, x: T, s: seq<T>)
    ensures Filter(keep, [x] + s) == if keep(x) then [x] + Filter(keep, s) else Filter(keep, s)
  {
    FilterConcat(keep, [x], s);
  }

  lemma FilterSnoc<T>(keep: T -> bool, s: seq<T>, x: T)
    ensures Filter(keep, s + [x]) == if keep(x) then Filter(keep, s) + [x] else Filter(keep, s)
  {
    FilterConcat(keep, s, [x]);
  }

  lemma {:induction false} FilterAll<T>(keep: T -> bool, s: seq<T>)
    requires forall y :: y in s ==> keep(y)
    ensures Filter(keep, s) == s
  {
    if s != [] {
      var n := |s| - 1;
      assert s == s[..n] + [s[n]];
      FilterAll(keep, s[..n]);
    }
  }

  lemma {:induction false} FilterTwice<T>(p: T -> bool, q: T -> bool, s: seq<T>)
    ensures Filter(p, Filter(q, s)) == Filter(q, Filter(p, s))
  {
    if s != [] {
      var n := |s| - 1;
      FilterTwice(p, q, s[..n]);
      FilterConcat(p, Filter(q, s[..n]), if q(s[n]) then [s[n]] else []);
      FilterConcat(q, Filter(p, s[..n]), if p(s[n]) then [s[n]] else []);
    }
  }

  lemma {:induction false} FilterInsert<T(!new)>(leq: (T, T) -> bool, keep: T -> bool, x: T, s: seq<T>)
    requires TotalPreorder(leq) && Sorted(leq, s)
    ensures Filter(keep, Insert(leq, x, s)) == if keep(x) then Insert(leq, x, Filter(keep, s)) else Filter(keep, s)
  {
    if s == [] {
    } else if leq(s[0], x) {
      var t := s[1..];
      assert s == [s[0]] + t;
      FilterInsert(leq, keep, x, t);
      FilterFirst(keep, s[0], t);
      FilterFirst(keep, s[0], Insert(leq, x, t));
      InsertCons(leq, x, s[0], Filter(keep, t));
    } else {
      FilterFirst(keep, x, s);
      InsertInFront(leq, keep, x, s);
    }
  }

  /** What goes in front of a sorted sequence goes in front of every filtered part of it. */
  lemma InsertInFront<T(!new)>(leq: (T, T) -> bool, keep: T -> bool, x: T, s: seq<T>)
    requires TotalPreorder(leq) && Sorted(leq, s) && s != [] && !leq(s[0], x)
    ensures Insert(leq, x, Filter(keep, s)) == [x] + Filter(keep, s)
  {
    var t := Filter(keep, s);
    if t != [] {
      FilterMembers(keep, s);
      assert t[0] in t;
      assert !leq(t[0], x);
    }
  }

  /** Filtering a sorted result is sorting the filtered input: ties keep their original order. */
  lemma {:induction false} FilterSort<T(!new)>(leq: (T, T) -> bool, keep: T -> bool, s: seq<T>)
    requires TotalPreorder(leq)
    ensures Filter(keep, Sort(leq, s)) == Sort(leq, Filter(keep, s))
  {
    if s != [] {
      var n := |s| - 1;
      var t := s[..n];
      assert s == t + [s[n]];
      FilterSort(leq, keep, t);
      SortSorts(leq, t);
      FilterInsert(leq, keep, s[n], Sort(leq, t));
      SortSnoc(leq, Filter(keep, t), s[n]);
      FilterSnoc(keep, t, s[n]);
    }
  }

  /** Elements that tie with each other come out in the order they went in. */
  lemma SortIsStable<T(!new)>(leq: (T, T) -> bool, tie: T -> bool, s: seq<T>)
    requires TotalPreorder(leq)
    requires forall x, y :: tie(x) && tie(y) ==> leq(x, y)
    ensures Filter(tie, Sort(leq, s)) == Filter(tie, s)
  {
    FilterSort(leq, tie, s);
    FilterMembers(tie, s);
    var t := Filter(tie, s);
    forall i, j | 0 <= i < j < |t|
      ensures leq(t[i], t[j])
    {
      assert t[i] in t && t[j] in t;
    }
    SortIsIdentityOnSorted(leq, t);
  }

  // ---------------------------------------------------------------- removing one element

  lemma RemoveCons<T>(y: T, s: seq<T>, k: nat)
    requires k < |s|
    ensures RemoveAt([y] + s, k + 1) == [y] + RemoveAt(s, k)
  {
  }

  lemma {:induction false} InsertThenRemove<T(!new)>(leq: (T, T) -> bool, x: T, s: seq<T>, k: nat)
    requires k < |s| && TotalPreorder(leq) && Sorted(leq, s) && !leq(s[0], x)
    ensures Insert(leq, x, RemoveAt(s, k)) == [x] + RemoveAt(s, k)
  {
    if |s| > 1 {
      assert RemoveAt(s, k)[0] == s[if k == 0 then 1 else 0];
    }
  }

  /** An element of an insertion is the new one or an old one, and can be removed accordingly. */
  lemma {:induction false} RemoveFromInsert<T(!new)>(
      leq: (T, T) -> bool, x: T, s: seq<T>, k: nat) returns (inserted: bool, k': nat)
    requires k < |Insert(leq, x, s)|
    requires TotalPreorder(leq) && Sorted(leq, s)
    ensures inserted ==> Insert(leq, x, s)[k] == x && RemoveAt(Insert(leq, x, s), k) == s
    ensures !inserted ==>
              && k' < |s|
              && Insert(leq, x, s)[k] == s[k']
              && RemoveAt(Insert(leq, x, s), k) == Insert(leq, x, RemoveAt(s, k'))
  {
    if s == [] || !leq(s[0], x) {
      inserted, k' := k == 0, if k == 0 then 0 else k - 1;
      if k > 0 {
        RemoveCons(x, s, k');
        InsertThenRemove(leq, x, s, k');
      }
    } else if k == 0 {
      inserted, k' := false, 0;
      assert RemoveAt(s, 0) == s[1..];
      assert RemoveAt([s[0]] + Insert(leq, x, s[1..]), 0) == Insert(leq, x, s[1..]);
    } else {
      var t := s[1..];
      assert s == [s[0]] + t;
      inserted, k' := RemoveFromInsert(leq, x, t, k - 1);
      RemoveCons(s[0], Insert(leq, x, t), k - 1);
      if !inserted {
        RemoveCons(s[0], t, k');
        InsertCons(leq, x, s[0], RemoveAt(t, k'));
        k' := k' + 1;
      }
    }
  }

  /** Removing one element of a sorted result is sorting the input without that element. */
  lemma {:induction false} RemoveFromSort<T(!new)>(leq: (T, T) -> bool, s: seq<T>, k: nat) returns (m: nat)
    requires TotalPreorder(leq) && k < |Sort(leq, s)|
    ensures m < |s| && s[m] == Sort(leq, s)[k]
    ensures RemoveAt(Sort(leq, s), k) == Sort(leq, RemoveAt(s, m))
  {
    var n := |s| - 1;
    SortSorts(leq, s[..n]);
    var inserted, k' := RemoveFromInsert(leq, s[n], Sort(leq, s[..n]), k);
    if inserted {
      m := n;
      assert RemoveAt(s, n) == s[..n];
    } else {
      m := RemoveFromSort(leq, s[..n], k');
      SortSnoc(leq, RemoveAt(s[..n], m), s[n]);
      RemoveBeforeLast(s, m);
    }
  }

  lemma RemoveBeforeLast<T>(s: seq<T>, m: nat)
    requires m + 1 < |s|
    ensures RemoveAt(s, m) == RemoveAt(s[..|s| - 1], m) + [s[|s| - 1]]
  {
  }

  /** The k-th kept element sits at some position of the whole sequence, and can be removed there. */
  lemma {:induction false} RemoveFromFilter<T>(keep: T -> bool, s: seq<T>, k: nat) returns (m: nat)
    requires k < |Filter(keep, s)|
    ensures m < |s| && s[m] == Filter(keep, s)[k] && keep(s[m])
    ensures Filter(keep, RemoveAt(s, m)) == RemoveAt(Filter(keep, s), k)
  {
    var n := |s| - 1;
    var f := Filter(keep, s[..n]);
    if k == |f| {
      m := n;
      assert RemoveAt(s, n) == s[..n];
      assert RemoveAt(Filter(keep, s), k) == f;
    } else {
      m := RemoveFromFilter(keep, s[..n], k);
      var r := RemoveAt(s, m);
      assert r[..|r| - 1] == RemoveAt(s[..n], m);
    }
  }

  lemma {:induction false} RemoveUnkept<T>(keep: T -> bool, s: seq<T>, m: nat)
    requires m < |s| && !keep(s[m])
    ensures Filter(keep, RemoveAt(s, m)) == Filter(keep, s)
  {
    assert s == s[..m] + ([s[m]] + s[m + 1..]);
    FilterConcat(keep, s[..m], [s[m]] + s[m + 1..]);
    FilterFirst(keep, s[m], s[m + 1..]);
    FilterConcat(keep, s[..m], s[m + 1..]);
  }
}

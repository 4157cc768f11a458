/** Splitting, joining and comparing sequences, for text and byte strings alike. */
module Sequences {

  ghost predicate NoDuplicates<T>(s: seq<T>) {
    forall i, j :: 0 <= i < j < |s| ==> s[i] != s[j]
  }

  /** `s.startsWith(prefix)`. */
  predicate StartsWith<T(==)>(s: seq<T>, prefix: seq<T>) {
    |prefix| <= |s| && s[..|prefix|] == prefix
  }

  predicate Without<T(==)>(s: seq<T>, c: T) {
    forall i :: 0 <= i < |s| ==> s[i] != c
  }

  /** `s.split(...)` at every element of `separators`. */
  function Split<T(==)>(s: seq<T>, separators: set<T>): (parts: seq<seq<T>>)
    ensures |parts| > 0
  {
    if s == [] then [[]]
    else
      var rest := Split(s[1..], separators);
      if s[0] in separators then [[]] + rest else [[s[0]] + rest[0]] + rest[1..]
  }

  /** `parts.join(separator)`. */
  function Join<T>(parts: seq<seq<T>>, separator: T): seq<T> {
    if |parts| == 0 then []
    else if |parts| == 1 then parts[0]
    else parts[0] + [separator] + Join(parts[1..], separator)
  }

  lemma {:induction false} SplitWhole<T>(s: seq<T>, separators: set<T>)
    requires forall i :: 0 <= i < |s| ==> s[i] !in separators
    ensures Split(s, separators) == [s]
  {
    if s != [] {
      SplitWhole(s[1..], separators);
      assert [s[0]] + s[1..] == s;
    }
  }

  /** Splitting behind the first separator. */
  lemma {:induction false} SplitAt<T>(head: seq<T>, rest: seq<T>, separator: T)
    requires Without(head, separator)
    ensures Split(head + [separator] + rest, {separator}) == [head] + Split(rest, {separator})
  {
    var s := head + [separator] + rest;
    if head == [] {
      assert s[1..] == rest;
    } else {
      assert s[1..] == head[1..] + [separator] + rest;
      SplitAt(head[1..], rest, separator);
      assert [head[0]] + head[1..] == head;
    }
  }

  lemma PrependFirst<T>(c: T, parts: seq<seq<T>>, more: seq<seq<T>>)
    requires |parts| > 0
    ensures [[]] + (parts + more) == [[]] + parts + more
    ensures [[c] + (parts + more)[0]] + (parts + more)[1..] == [[c] + parts[0]] + parts[1..] + more
  {
    assert (parts + more)[1..] == parts[1..] + more;
  }

  /** Splitting distributes over a separator. */
  lemma {:induction false} SplitConcat<T>(a: seq<T>, b: seq<T>, separator: T)
    ensures Split(a + [separator] + b, {separator}) == Split(a, {separator}) + Split(b, {separator})
  {
    var s := a + [separator] + b;
    if a == [] {
      assert s[1..] == b;
    } else {
      assert s[1..] == a[1..] + [separator] + b;
      SplitConcat(a[1..], b, separator);
      PrependFirst(a[0], Split(a[1..], {separator}), Split(b, {separator}));
    }
  }

  /** Splitting gives back what was joined. */
  lemma {:induction false} SplitJoin<T>(parts: seq<seq<T>>, separator: T)
    requires |parts| > 0 && forall i :: 0 <= i < |parts| ==> Without(parts[i], separator)
    ensures Split(Join(parts, separator), {separator}) == parts
  {
    if |parts| == 1 {
      SplitWhole(parts[0], {separator});
    } else {
      SplitAt(parts[0], Join(parts[1..], separator), separator);
      SplitJoin(parts[1..], separator);
    }
  }

  /** Joining gives back what was split. */
  lemma {:induction false} JoinSplit<T>(s: seq<T>, separator: T)
    ensures Join(Split(s, {separator}), separator) == s
  {
    if s != [] {
      JoinSplit(s[1..], separator);
      var rest := Split(s[1..], {separator});
      assert [s[0]] + s[1..] == s;
      if s[0] == separator {
        assert ([[]] + rest)[1..] == rest;
      } else {
        var parts := [[s[0]] + rest[0]] + rest[1..];
        assert parts[1..] == rest[1..];
      }
    }
  }

  lemma JoinCons<T>(first: seq<T>, rest: seq<seq<T>>, separator: T)
    requires |rest| > 0
    ensures Join([first] + rest, separator) == first + [separator] + Join(rest, separator)
  {
    assert ([first] + rest)[1..] == rest;
  }

  lemma {:induction false} JoinSnoc<T>(parts: seq<seq<T>>, last: seq<T>, separator: T)
    requires |parts| > 0
    ensures Join(parts + [last], separator) == Join(parts, separator) + [separator] + last
  {
    if |parts| == 1 {
      assert (parts + [last])[1..] == [last];
    } else {
      assert (parts + [last])[1..] == parts[1..] + [last];
      JoinSnoc(parts[1..], last, separator);
      assert Join(parts + [last], separator)
          == parts[0] + [separator] + (Join(parts[1..], separator) + [separator] + last);
    }
  }
}

/** Sorting by a total order, as the library sorts the repository calls do. */
module Sorting {
  ghost predicate TotalPreorder<T(!new)>(le: (T, T) -> bool) {
    && (forall a, b :: le(a, b) || le(b, a))
    && (forall a, b, c :: le(a, b) && le(b, c) ==> le(a, c))
  }

  ghost predicate Sorted<T>(le: (T, T) -> bool, s: seq<T>) {
    forall i, j :: 0 <= i < j < |s| ==> le(s[i], s[j])
  }

  function Insert<T>(le: (T, T) -> bool, x: T, s: seq<T>): seq<T> {
    if s == [] then [x]
    else if le(x, s[0]) then [x] + s
    else [s[0]] + Insert(le, x, s[1..])
  }

  function Sort<T>(le: (T, T) -> bool, s: seq<T>): seq<T> {
    if s == [] then [] else Insert(le, s[0], Sort(le, s[1..]))
  }

  lemma {:induction false} InsertKeeps<T>(le: (T, T) -> bool, x: T, s: seq<T>)
    ensures multiset(Insert(le, x, s)) == multiset(s) + multiset{x}
    ensures |Insert(le, x, s)| == |s| + 1
  {
    if s != [] {
      assert s == [s[0]] + s[1..];
      if !le(x, s[0]) { InsertKeeps(le, x, s[1..]); }
    }
  }

  lemma {:induction false} InsertSorts<T(!new)>(le: (T, T) -> bool, x: T, s: seq<T>)
    requires TotalPreorder(le) && Sorted(le, s)
    ensures Sorted(le, Insert(le, x, s))
  {
    if s != [] && !le(x, s[0]) {
      InsertSorts(le, x, s[1..]);
      var rest := Insert(le, x, s[1..]);
      InsertKeeps(le, x, s[1..]);
      forall j | 0 <= j < |rest| ensures le(s[0], rest[j]) {
        assert rest[j] in multiset(rest);
        assert rest[j] == x || rest[j] in s[1..];
      }
    }
  }

  /** Sorting arranges the same elements in order. */
  lemma {:induction false} SortSorts<T(!new)>(le: (T, T) -> bool, s: seq<T>)
    requires TotalPreorder(le)
    ensures Sorted(le, Sort(le, s)) && multiset(Sort(le, s)) == multiset(s) && |Sort(le, s)| == |s|
  {
    if s != [] {
      assert s == [s[0]] + s[1..];
      SortSorts(le, s[1..]);
      InsertSorts(le, s[0], Sort(le, s[1..]));
      InsertKeeps(le, s[0], Sort(le, s[1..]));
    }
  }

  lemma SameElements<T>(a: seq<T>, b: seq<T>)
    requires multiset(a) == multiset(b)
    ensures |a| == |b| && forall x :: x in a <==> x in b
  {
    assert |a| == |multiset(a)| == |multiset(b)| == |b|;
    forall x ensures x in a <==> x in b {
      assert x in a <==> x in multiset(a);
      assert x in b <==> x in multiset(b);
    }
  }

  lemma LeastIsFirst<T>(le: (T, T) -> bool, a: seq<T>, x: T)
    requires Sorted(le, a) && x in a && le(x, x)
    ensures le(a[0], x)
  {
    var i :| 0 <= i < |a| && a[i] == x;
  }

  /** Where the order tells elements apart, their sorted arrangement is unique. */
  lemma {:induction false} SortedIsUnique<T(!new)>(le: (T, T) -> bool, a: seq<T>, b: seq<T>)
    requires Sorted(le, a) && Sorted(le, b) && multiset(a) == multiset(b)
    requires forall x, y :: x in a && y in a && le(x, y) && le(y, x) ==> x == y
    requires forall x :: le(x, x)
    ensures a == b
  {
    SameElements(a, b);
    if a != [] {
      assert a[0] in b && b[0] in a;
      LeastIsFirst(le, a, b[0]);
      LeastIsFirst(le, b, a[0]);
      TailsMatch(a, b);
      SortedIsUnique(le, a[1..], b[1..]);
    }
  }

  lemma TailsMatch<T>(a: seq<T>, b: seq<T>)
    requires a != [] && b != [] && a[0] == b[0] && multiset(a) == multiset(b)
    ensures multiset(a[1..]) == multiset(b[1..])
    ensures a == [a[0]] + a[1..] && b == [b[0]] + b[1..]
  {
    assert a == [a[0]] + a[1..] && b == [b[0]] + b[1..];
    assert multiset(a[1..]) == multiset(a) - multiset{a[0]};
    assert multiset(b[1..]) == multiset(b) - multiset{b[0]};
  }

  /** Where no element repeats, each occurs once. */
  lemma {:induction false} OnceEach<T>(s: seq<T>, x: T)
    requires forall i, j :: 0 <= i < j < |s| ==> s[i] != s[j]
    ensures multiset(s)[x] == if x in s then 1 else 0
  {
    if s != [] {
      OnceEach(s[1..], x);
      assert s == [s[0]] + s[1..];
      if x == s[0] { assert x !in s[1..]; }
    }
  }

  /** Two listings of the same elements without repeats are rearrangements. */
  lemma SameListing<T(!new)>(a: seq<T>, b: seq<T>)
    requires forall i, j :: 0 <= i < j < |a| ==> a[i] != a[j]
    requires forall i, j :: 0 <= i < j < |b| ==> b[i] != b[j]
    requires forall x :: x in a <==> x in b
    ensures multiset(a) == multiset(b)
  {
    forall x ensures multiset(a)[x] == multiset(b)[x] {
      OnceEach(a, x);
      OnceEach(b, x);
    }
  }

  /** A rearrangement repeats no element if the original does not. */
  lemma DistinctSurvives<T(!new)>(a: seq<T>, b: seq<T>)
    requires multiset(a) == multiset(b)
    requires forall i, j :: 0 <= i < j < |a| ==> a[i] != a[j]
    ensures forall i, j :: 0 <= i < j < |b| ==> b[i] != b[j]
  {
    forall i, j | 0 <= i < j < |b| ensures b[i] != b[j] {
      OnceEach(a, b[j]);
      var front := b[..j];
      assert b == front + [b[j]] + b[j + 1..] && front[i] in multiset(front);
    }
  }
}

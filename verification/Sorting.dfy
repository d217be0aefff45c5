/**
 * `Array.prototype.sort` with a comparator: a stable sort. A comparator answers a
 * negative, zero or positive number, as in JavaScript.
 */
module Sorting {

  ghost predicate TotalPreorder<T(!new)>(cmp: (T, T) -> int) {
    && (forall a, b :: cmp(a, b) <= 0 || cmp(b, a) <= 0)
    && (forall a, b, c :: cmp(a, b) <= 0 && cmp(b, c) <= 0 ==> cmp(a, c) <= 0)
  }

  /** No two different members of `s` tie under `cmp`. */
  ghost predicate NoTies<T(!new)>(s: set<T>, cmp: (T, T) -> int) {
    forall a, b :: a in s && b in s && cmp(a, b) <= 0 && cmp(b, a) <= 0 ==> a == b
  }

  function Members<T>(s: seq<T>): set<T> {
    set x | x in s
  }

  ghost predicate NoRepeats<T>(s: seq<T>) {
    forall i, j :: 0 <= i < j < |s| ==> s[i] != s[j]
  }

  ghost predicate SortedBy<T>(s: seq<T>, cmp: (T, T) -> int) {
    forall i, j :: 0 <= i < j < |s| ==> cmp(s[i], s[j]) <= 0
  }

  function Insert<T>(x: T, s: seq<T>, cmp: (T, T) -> int): seq<T> {
    if s == [] then [x]
    else if cmp(x, s[0]) <= 0 then [x] + s
    else [s[0]] + Insert(x, s[1..], cmp)
  }

  /** The stable insertion sort: among equal keys, earlier elements stay earlier. */
  function StableSort<T>(s: seq<T>, cmp: (T, T) -> int): seq<T> {
    if s == [] then [] else Insert(s[0], StableSort(s[1..], cmp), cmp)
  }

  lemma {:induction false} InsertKeeps<T>(x: T, s: seq<T>, cmp: (T, T) -> int)
    ensures multiset(Insert(x, s, cmp)) == multiset{x} + multiset(s)
  {
    if s != [] && cmp(x, s[0]) > 0 {
      InsertKeeps(x, s[1..], cmp);
      assert s == [s[0]] + s[1..];
    }
  }

  lemma {:induction false} SortKeeps<T>(s: seq<T>, cmp: (T, T) -> int)
    ensures multiset(StableSort(s, cmp)) == multiset(s)
    ensures |StableSort(s, cmp)| == |s|
    ensures forall x :: x in StableSort(s, cmp) <==> x in s
  {
    if s != [] {
      SortKeeps(s[1..], cmp);
      InsertKeeps(s[0], StableSort(s[1..], cmp), cmp);
      assert s == [s[0]] + s[1..];
    }
    assert |multiset(StableSort(s, cmp))| == |multiset(s)|;
    forall x ensures x in StableSort(s, cmp) <==> x in s {
      assert x in StableSort(s, cmp) <==> x in multiset(StableSort(s, cmp));
      assert x in s <==> x in multiset(s);
    }
  }

  lemma {:induction false} InsertSorts<T(!new)>(x: T, s: seq<T>, cmp: (T, T) -> int)
    requires TotalPreorder(cmp)
    requires SortedBy(s, cmp)
    ensures SortedBy(Insert(x, s, cmp), cmp)
  {
    if s != [] && cmp(x, s[0]) > 0 {
      InsertSorts(x, s[1..], cmp);
      InsertKeeps(x, s[1..], cmp);
      var r := Insert(x, s[1..], cmp);
      assert cmp(s[0], x) <= 0;
      hide TotalPreorder, Insert;
      forall i | 0 <= i < |r| ensures cmp(s[0], r[i]) <= 0 {
        assert r[i] in multiset(r);
        assert r[i] == x || r[i] in s[1..];
      }
    } else if s != [] {
      forall i | 0 <= i < |s| ensures cmp(x, s[i]) <= 0 {
        assert i == 0 || cmp(s[0], s[i]) <= 0;
      }
    }
  }

  lemma {:induction false} SortSorts<T(!new)>(s: seq<T>, cmp: (T, T) -> int)
    requires TotalPreorder(cmp)
    ensures SortedBy(StableSort(s, cmp), cmp)
  {
    if s != [] {
      SortSorts(s[1..], cmp);
      InsertSorts(s[0], StableSort(s[1..], cmp), cmp);
    }
  }

  /** The elements that tie with `x`, in their order. */
  function TiesOf<T>(s: seq<T>, x: T, cmp: (T, T) -> int): seq<T> {
    if s == [] then []
    else (if cmp(x, s[0]) <= 0 && cmp(s[0], x) <= 0 then [s[0]] else []) + TiesOf(s[1..], x, cmp)
  }

  lemma {:induction false} InsertTies<T(!new)>(y: T, s: seq<T>, x: T, cmp: (T, T) -> int)
    requires TotalPreorder(cmp)
    ensures TiesOf(Insert(y, s, cmp), x, cmp) == TiesOf([y] + s, x, cmp)
  {
    if s != [] && cmp(y, s[0]) > 0 {
      InsertTies(y, s[1..], x, cmp);
      TiesFirst(y, s, x, cmp);
      TiesFirst(y, s[1..], x, cmp);
      TiesFirst(s[0], Insert(y, s[1..], cmp), x, cmp);
      TiesFirst(s[0], s[1..], x, cmp);
      assert [s[0]] + s[1..] == s;
      var h := s[0];
      assert !(cmp(x, y) <= 0 && cmp(y, x) <= 0 && cmp(x, h) <= 0 && cmp(h, x) <= 0);
    }
  }

  lemma TiesFirst<T>(y: T, s: seq<T>, x: T, cmp: (T, T) -> int)
    ensures TiesOf([y] + s, x, cmp) == (if cmp(x, y) <= 0 && cmp(y, x) <= 0 then [y] else []) + TiesOf(s, x, cmp)
  {
    assert ([y] + s)[1..] == s;
  }

  /** Elements that tie keep their order. */
  lemma {:induction false} SortIsStable<T(!new)>(s: seq<T>, x: T, cmp: (T, T) -> int)
    requires TotalPreorder(cmp)
    ensures TiesOf(StableSort(s, cmp), x, cmp) == TiesOf(s, x, cmp)
  {
    if s != [] {
      SortIsStable(s[1..], x, cmp);
      InsertTies(s[0], StableSort(s[1..], cmp), x, cmp);
      TiesFirst(s[0], StableSort(s[1..], cmp), x, cmp);
      TiesFirst(s[0], s[1..], x, cmp);
      assert [s[0]] + s[1..] == s;
    }
  }

  /** Sorting keeps a duplicate-free list duplicate-free. */
  lemma {:induction false} InsertNoRepeats<T>(x: T, s: seq<T>, cmp: (T, T) -> int)
    requires NoRepeats(s) && x !in s
    ensures NoRepeats(Insert(x, s, cmp))
  {
    if s != [] && cmp(x, s[0]) > 0 {
      InsertNoRepeats(x, s[1..], cmp);
      InsertKeeps(x, s[1..], cmp);
      var r := Insert(x, s[1..], cmp);
      forall i | 0 <= i < |r| ensures r[i] != s[0] {
        assert r[i] in multiset(r);
        assert r[i] == x || r[i] in s[1..];
      }
    }
  }

  lemma {:induction false} SortNoRepeats<T>(s: seq<T>, cmp: (T, T) -> int)
    requires NoRepeats(s)
    ensures NoRepeats(StableSort(s, cmp))
  {
    if s != [] {
      SortNoRepeats(s[1..], cmp);
      SortKeeps(s[1..], cmp);
      InsertNoRepeats(s[0], StableSort(s[1..], cmp), cmp);
    }
  }

  /** Two sorted duplicate-free listings of one set are the same list. */
  lemma {:induction false} SortedListingUnique<T(!new)>(s: seq<T>, t: seq<T>, cmp: (T, T) -> int)
    requires Members(s) == Members(t)
    requires NoRepeats(s) && NoRepeats(t)
    requires NoTies(Members(s), cmp)
    requires SortedBy(s, cmp) && SortedBy(t, cmp)
    ensures s == t
    decreases |s|
  {
    if s == [] || t == [] {
      EmptyMembers(s);
      EmptyMembers(t);
    } else {
      assert s[0] in Members(t) && t[0] in Members(s);
      TailMembers(s);
      TailMembers(t);
      SortedListingUnique(s[1..], t[1..], cmp);
      assert s == [s[0]] + s[1..] && t == [t[0]] + t[1..];
    }
  }

  lemma EmptyMembers<T>(s: seq<T>)
    ensures s == [] <==> Members(s) == {}
  {
    if s != [] {
      assert s[0] in Members(s);
    }
  }

  lemma TailMembers<T>(s: seq<T>)
    requires s != [] && NoRepeats(s)
    ensures Members(s[1..]) == Members(s) - {s[0]}
    ensures NoRepeats(s[1..])
  {
    forall x | x in Members(s) - {s[0]} ensures x in Members(s[1..]) {
      var i :| 0 <= i < |s| && s[i] == x;
      assert s[1..][i - 1] == x;
    }
    forall x | x in Members(s[1..]) ensures x in Members(s) - {s[0]} {
      var i :| 0 <= i < |s[1..]| && s[1..][i] == x;
      assert s[i + 1] == x;
    }
  }

  ghost predicate LeastIn<T(!new)>(x: T, s: set<T>, cmp: (T, T) -> int) {
    x in s && forall y :: y in s ==> cmp(x, y) <= 0
  }

  lemma LeastExists<T(!new)>(s: set<T>, cmp: (T, T) -> int)
    requires TotalPreorder(cmp) && s != {}
    ensures exists x :: LeastIn(x, s, cmp)
  {
    var x :| x in s;
    var todo := s - {x};
    while todo != {}
      invariant todo <= s && x in s && x !in todo
      invariant forall y :: y in s && y !in todo ==> cmp(x, y) <= 0
    {
      var y :| y in todo;
      todo := todo - {y};
      if cmp(x, y) > 0 {
        x := y;
      }
    }
    assert LeastIn(x, s, cmp);
  }

  /** The members of `s` in order, each once. */
  ghost function SortedListing<T(!new)>(s: set<T>, cmp: (T, T) -> int): (r: seq<T>)
    requires TotalPreorder(cmp)
    ensures Members(r) == s && NoRepeats(r) && SortedBy(r, cmp)
    decreases |s|
  {
    if s == {} then []
    else
      LeastExists(s, cmp);
      var x :| LeastIn(x, s, cmp);
      var rest := SortedListing(s - {x}, cmp);
      PrependLeast(x, s, rest, cmp);
      [x] + rest
  }

  lemma PrependLeast<T(!new)>(x: T, s: set<T>, rest: seq<T>, cmp: (T, T) -> int)
    requires LeastIn(x, s, cmp) && Members(rest) == s - {x}
    requires NoRepeats(rest) && SortedBy(rest, cmp)
    ensures Members([x] + rest) == s && NoRepeats([x] + rest) && SortedBy([x] + rest, cmp)
  {
    var r := [x] + rest;
    forall i | 0 <= i < |rest| ensures rest[i] in s && rest[i] != x {
      assert rest[i] in Members(rest);
    }
    forall y | y in s ensures y in Members(r) {
      if y == x {
        assert r[0] == y;
      } else {
        assert y in Members(rest);
      }
    }
  }

  /** Sorting any listing of a set without ties gives the one sorted listing of it. */
  lemma SortIsListing<T(!new)>(list: seq<T>, cmp: (T, T) -> int)
    requires TotalPreorder(cmp) && NoRepeats(list) && NoTies(Members(list), cmp)
    ensures StableSort(list, cmp) == SortedListing(Members(list), cmp)
  {
    SortKeeps(list, cmp);
    SortSorts(list, cmp);
    SortNoRepeats(list, cmp);
    assert Members(StableSort(list, cmp)) == Members(list);
    SortedListingUnique(StableSort(list, cmp), SortedListing(Members(list), cmp), cmp);
  }
}

/** The two kinds of ordering the tools rely on: Python's stable `list.sort(key=...)`
    and `sorted(...)` of a set, whose elements are distinct.
 */
module Sorting {
  import opened Collections

  /** `le` compares every pair and is transitive: the order a sort key induces. */
  ghost predicate TotalPreorder<T(!new)>(le: (T, T) -> bool) {
    && (forall a, b :: le(a, b) || le(b, a))
    && (forall a, b, c :: le(a, b) && le(b, c) ==> le(a, c))
  }

  /** `lt` is irreflexive, transitive and compares every two distinct values. */
  ghost predicate StrictTotalOrder<T(!new)>(lt: (T, T) -> bool) {
    && (forall a :: !lt(a, a))
    && (forall a, b, c :: lt(a, b) && lt(b, c) ==> lt(a, c))
    && (forall a, b :: a == b || lt(a, b) || lt(b, a))
  }

  ghost predicate SortedBy<T>(s: seq<T>, le: (T, T) -> bool) {
    forall i, j :: 0 <= i < j < |s| ==> le(s[i], s[j])
  }

  ghost predicate StrictlySorted<T>(s: seq<T>, lt: (T, T) -> bool) {
    forall i, j :: 0 <= i < j < |s| ==> lt(s[i], s[j])
  }

  /** `[a]` when `le` cannot tell `a` apart from `x`, otherwise nothing. */
  function Tie<T>(a: T, x: T, le: (T, T) -> bool): seq<T> {
    if le(a, x) && le(x, a) then [a] else []
  }

  /** The elements of `s` that `le` cannot tell apart from `x`, in their order in `s`.
      A sort is stable when it keeps every such subsequence. */
  function Ties<T>(s: seq<T>, x: T, le: (T, T) -> bool): seq<T> {
    if |s| == 0 then [] else Tie(s[0], x, le) + Ties(s[1..], x, le)
  }

  lemma TiesCons<T>(a: T, s: seq<T>, x: T, le: (T, T) -> bool)
    ensures Ties([a] + s, x, le) == Tie(a, x, le) + Ties(s, x, le)
  {
    assert ([a] + s)[1..] == s;
  }

  /** Put `x` in front of the first element it is not strictly after. */
  function Insert<T>(x: T, s: seq<T>, le: (T, T) -> bool): (r: seq<T>)
    ensures multiset(r) == multiset(s) + multiset{x}
  {
    if |s| == 0 then [x]
    else if le(x, s[0]) then [x] + s
    else
      assert s == [s[0]] + s[1..];
      [s[0]] + Insert(x, s[1..], le)
  }

  lemma {:induction false} InsertSorted<T(!new)>(x: T, s: seq<T>, le: (T, T) -> bool)
    requires TotalPreorder(le) && SortedBy(s, le)
    ensures SortedBy(Insert(x, s, le), le)
  {
    if |s| > 0 && !le(x, s[0]) {
      var t := Insert(x, s[1..], le);
      InsertSorted(x, s[1..], le);
      forall j | 0 <= j < |t| ensures le(s[0], t[j]) {
        assert t[j] in multiset(t);
        assert t[j] == x || t[j] in multiset(s[1..]);
        if t[j] != x {
          assert t[j] in s[1..];
        }
      }
    }
  }

  /** An element strictly after `x` and `x` itself cannot both tie with `y`, so their tie
      lists commute. */
  lemma TieSwap<T>(a: T, x: T, y: T, le: (T, T) -> bool)
    requires !le(x, a) && (le(x, y) && le(y, a) ==> le(x, a))
    ensures Tie(a, y, le) + Tie(x, y, le) == Tie(x, y, le) + Tie(a, y, le)
  {
  }

  /** Inserting keeps the ties of every value in order: `x` lands after every element it
      cannot be told apart from. */
  lemma {:induction false} InsertTies<T>(x: T, s: seq<T>, y: T, le: (T, T) -> bool)
    requires forall a :: le(x, y) && le(y, a) ==> le(x, a)
    ensures Ties(Insert(x, s, le), y, le) == Tie(x, y, le) + Ties(s, y, le)
  {
    if |s| == 0 {
      assert Insert(x, s, le) == [x] + s;
      TiesCons(x, s, y, le);
    } else if le(x, s[0]) {
      TiesCons(x, s, y, le);
    } else {
      var a, rest := s[0], s[1..];
      assert s == [a] + rest;
      InsertTies(x, rest, y, le);
      InsertTiesStep(x, a, rest, y, le);
    }
  }

  /** The step of `InsertTies` where `x` goes past the first element `a`. */
  lemma InsertTiesStep<T>(x: T, a: T, rest: seq<T>, y: T, le: (T, T) -> bool)
    requires !le(x, a) && (le(x, y) && le(y, a) ==> le(x, a))
    requires Ties(Insert(x, rest, le), y, le) == Tie(x, y, le) + Ties(rest, y, le)
    ensures Ties(Insert(x, [a] + rest, le), y, le) == Tie(x, y, le) + Ties([a] + rest, y, le)
  {
    var inserted := Insert(x, rest, le);
    assert ([a] + rest)[1..] == rest;
    assert Insert(x, [a] + rest, le) == [a] + inserted;
    TiesCons(a, inserted, y, le);
    TiesCons(a, rest, y, le);
    TieSwap(a, x, y, le);
    AppendAssoc(Tie(a, y, le), Tie(x, y, le), Ties(rest, y, le));
    AppendAssoc(Tie(x, y, le), Tie(a, y, le), Ties(rest, y, le));
  }

  lemma AppendAssoc<T>(a: seq<T>, b: seq<T>, c: seq<T>)
    ensures a + (b + c) == (a + b) + c
  {
  }

  lemma InsertKeepsTies<T(!new)>(s: seq<T>, t: seq<T>, le: (T, T) -> bool)
    requires TotalPreorder(le) && |s| > 0
    requires forall y :: Ties(t, y, le) == Ties(s[1..], y, le)
    ensures forall y :: Ties(Insert(s[0], t, le), y, le) == Ties(s, y, le)
  {
    forall y ensures Ties(Insert(s[0], t, le), y, le) == Ties(s, y, le) {
      InsertTies(s[0], t, y, le);
      TiesCons(s[0], s[1..], y, le);
      assert [s[0]] + s[1..] == s;
    }
  }

  /** Python's stable `list.sort`: ordered by `le`, the same elements, and elements `le`
      cannot tell apart kept in their original order. */
  function SortBy<T(!new)>(s: seq<T>, le: (T, T) -> bool): (r: seq<T>)
    requires TotalPreorder(le)
    ensures SortedBy(r, le)
    ensures multiset(r) == multiset(s)
    ensures forall x :: Ties(r, x, le) == Ties(s, x, le)
  {
    if |s| == 0 then []
    else
      var t := SortBy(s[1..], le);
      InsertSorted(s[0], t, le);
      InsertKeepsTies(s, t, le);
      assert s == [s[0]] + s[1..];
      Insert(s[0], t, le)
  }

  /** `le` never puts two different values level. */
  ghost predicate Antisymmetric<T(!new)>(le: (T, T) -> bool) {
    forall a, b :: le(a, b) && le(b, a) ==> a == b
  }

  /** Under an order that puts no two different values level, there is one sorted
      arrangement of a collection: sorting it in any way gives the same sequence. */
  lemma {:induction false} SortedUnique<T(!new)>(a: seq<T>, b: seq<T>, le: (T, T) -> bool)
    requires Antisymmetric(le) && SortedBy(a, le) && SortedBy(b, le)
    requires multiset(a) == multiset(b)
    ensures a == b
    decreases |a|
  {
    assert |a| == |multiset(a)| && |b| == |multiset(b)|;
    if |a| > 0 {
      SameTails(a, b, le);
      SortedUnique(a[1..], b[1..], le);
      assert a == [a[0]] + a[1..] && b == [b[0]] + b[1..];
    }
  }

  /** Taking the first element off two sorted arrangements of one collection leaves two
      sorted arrangements of one collection. */
  lemma SameTails<T(!new)>(a: seq<T>, b: seq<T>, le: (T, T) -> bool)
    requires Antisymmetric(le) && SortedBy(a, le) && SortedBy(b, le)
    requires multiset(a) == multiset(b) && |a| > 0 && |b| > 0
    ensures a[0] == b[0] && multiset(a[1..]) == multiset(b[1..])
    ensures SortedBy(a[1..], le) && SortedBy(b[1..], le)
  {
    SameFirst(a, b, le);
    SameTailElements(a, b);
    SortedByTail(a, le);
    SortedByTail(b, le);
  }

  lemma SortedByTail<T>(s: seq<T>, le: (T, T) -> bool)
    requires SortedBy(s, le) && |s| > 0
    ensures SortedBy(s[1..], le)
  {
  }

  lemma SameTailElements<T>(a: seq<T>, b: seq<T>)
    requires multiset(a) == multiset(b) && |a| > 0 && |b| > 0 && a[0] == b[0]
    ensures multiset(a[1..]) == multiset(b[1..])
  {
    assert a == [a[0]] + a[1..] && b == [b[0]] + b[1..];
    assert multiset(a[1..]) == multiset(a) - multiset{a[0]};
    assert multiset(b[1..]) == multiset(b) - multiset{b[0]};
  }

  /** Sorted arrangements of one collection start with the same element. */
  lemma SameFirst<T(!new)>(a: seq<T>, b: seq<T>, le: (T, T) -> bool)
    requires Antisymmetric(le) && SortedBy(a, le) && SortedBy(b, le)
    requires multiset(a) == multiset(b) && |a| > 0 && |b| > 0
    ensures a[0] == b[0]
  {
    assert a[0] in multiset(b) && b[0] in multiset(a);
    var j :| 0 <= j < |b| && b[j] == a[0];
    var i :| 0 <= i < |a| && a[i] == b[0];
    assert (j == 0 || le(b[0], a[0])) && (i == 0 || le(a[0], b[0]));
  }

  /** Strictly increasing sequences with the same elements are the same sequence. */
  lemma {:induction false} StrictlySortedUnique<T(!new)>(a: seq<T>, b: seq<T>, lt: (T, T) -> bool)
    requires StrictTotalOrder(lt) && StrictlySorted(a, lt) && StrictlySorted(b, lt)
    requires forall x :: x in a <==> x in b
    ensures a == b
    decreases |a|
  {
    assert |a| > 0 ==> a[0] in b;
    assert |b| > 0 ==> b[0] in a;
    if |a| > 0 {
      FirstIsLeast(a, b[0], lt);
      FirstIsLeast(b, a[0], lt);
      assert !lt(a[0], a[0]);
      assert a[0] == b[0];
      forall x ensures x in a[1..] <==> x in b[1..] {
        if x in a[1..] {
          var k :| 1 <= k < |a| && a[k] == x;
          assert lt(a[0], x) && x != a[0] && x in b;
          assert b == [b[0]] + b[1..];
        }
        if x in b[1..] {
          var k :| 1 <= k < |b| && b[k] == x;
          assert lt(b[0], x) && x != b[0] && x in a;
          assert a == [a[0]] + a[1..];
        }
      }
      SortedTail(a, lt);
      SortedTail(b, lt);
      StrictlySortedUnique(a[1..], b[1..], lt);
      assert a == [a[0]] + a[1..] && b == [b[0]] + b[1..];
    }
  }

  /** The first element of a strictly increasing sequence is below every other one. */
  lemma FirstIsLeast<T>(s: seq<T>, x: T, lt: (T, T) -> bool)
    requires StrictlySorted(s, lt) && x in s
    ensures x == s[0] || lt(s[0], x)
  {
    var k :| 0 <= k < |s| && s[k] == x;
    if k > 0 {
      assert lt(s[0], s[k]);
    }
  }

  lemma SortedTail<T>(s: seq<T>, lt: (T, T) -> bool)
    requires StrictlySorted(s, lt) && |s| > 0
    ensures StrictlySorted(s[1..], lt)
  {
  }

  /** The least element of a non-empty set under a strict total order. */
  lemma {:induction false} Minimum<T(!new)>(s: set<T>, lt: (T, T) -> bool) returns (m: T)
    requires s != {} && StrictTotalOrder(lt)
    ensures m in s && forall y :: y in s && y != m ==> lt(m, y)
    decreases |s|
  {
    var x :| x in s;
    if s == {x} {
      m := x;
    } else {
      var n := Minimum(s - {x}, lt);
      if lt(x, n) {
        m := x;
        forall y | y in s && y != x ensures lt(x, y) {
          if y != n {
            assert y in s - {x} && lt(n, y);
          }
        }
      } else {
        m := n;
        assert x != n;
        assert lt(n, x);
        forall y | y in s && y != n ensures lt(n, y) {
          if y != x {
            assert y in s - {x};
          }
        }
      }
    }
  }

  lemma HasMinimum<T(!new)>(s: set<T>, lt: (T, T) -> bool)
    requires s != {} && StrictTotalOrder(lt)
    ensures exists m :: m in s && forall y :: y in s && y != m ==> lt(m, y)
  {
    var m := Minimum(s, lt);
  }

  /** `min(s)` under a strict total order. */
  function Least<T(==,!new)>(s: set<T>, lt: (T, T) -> bool): (m: T)
    requires s != {} && StrictTotalOrder(lt)
    ensures m in s && forall y :: y in s && y != m ==> lt(m, y)
  {
    HasMinimum(s, lt);
    var m :| m in s && forall y :: y in s && y != m ==> lt(m, y);
    m
  }

  /** Python's `sorted(s)` for a set: its elements, each once, in increasing order. */
  function SortedSet<T(==,!new)>(s: set<T>, lt: (T, T) -> bool): (r: seq<T>)
    requires StrictTotalOrder(lt)
    ensures StrictlySorted(r, lt)
    ensures forall x :: x in r <==> x in s
    ensures |r| == |s|
    decreases |s|
  {
    if s == {} then []
    else
      var m := Least(s, lt);
      var rest := SortedSet(s - {m}, lt);
      assert forall x :: x in rest ==> lt(m, x);
      [m] + rest
  }
}

/** Sequence helpers and the `dict`/`Counter` the metrics are kept in.

    A Python `dict` remembers the order in which its keys were first stored, and the
    ranking reads a counter's items in that order, so a counter is modelled as a sequence of
    (key, value) entries, each key at most once, rather than as a Dafny `map`.
 */
module Collections {

  /** `list(reversed(s))`. */
  function Reverse<T>(s: seq<T>): (r: seq<T>)
    ensures |r| == |s| && forall i :: 0 <= i < |s| ==> r[i] == s[|s| - 1 - i]
  {
    seq(|s|, i requires 0 <= i < |s| => s[|s| - 1 - i])
  }

  /** The first `k` elements of the reversed sequence, reversed back, are the last `k`. */
  lemma ReverseTake<T>(s: seq<T>, k: nat)
    requires k <= |s|
    ensures Reverse(Reverse(s)[..k]) == s[|s| - k..]
  {
    var t := Reverse(s)[..k];
    var r := Reverse(t);
    assert |r| == k;
    forall i | 0 <= i < k ensures r[i] == s[|s| - k + i] {
      assert r[i] == t[k - 1 - i];
      assert t[k - 1 - i] == Reverse(s)[k - 1 - i];
    }
    assert r == s[|s| - k..];
  }

  /** `[f(x) for x in s if p(x)]`. */
  function Select<T, U>(s: seq<T>, p: T -> bool, f: T -> U): (r: seq<U>)
    ensures |r| <= |s|
  {
    if |s| == 0 then []
    else if p(s[0]) then [f(s[0])] + Select(s[1..], p, f)
    else Select(s[1..], p, f)
  }

  lemma {:induction false} SelectAppend<T, U>(a: seq<T>, b: seq<T>, p: T -> bool, f: T -> U)
    ensures Select(a + b, p, f) == Select(a, p, f) + Select(b, p, f)
  {
    if |a| == 0 {
      assert a + b == b;
    } else {
      assert (a + b)[0] == a[0] && (a + b)[1..] == a[1..] + b;
      SelectAppend(a[1..], b, p, f);
    }
  }

  /** A selection keeps exactly the chosen elements, whatever their order: reordering the
      input only reorders the output. */
  lemma {:induction false} SelectPermutation<T, U>(s: seq<T>, t: seq<T>, p: T -> bool, f: T -> U)
    requires multiset(s) == multiset(t)
    ensures multiset(Select(s, p, f)) == multiset(Select(t, p, f))
    decreases |s|
  {
    if |s| > 0 {
      var x := s[0];
      assert x in multiset(t);
      var k :| 0 <= k < |t| && t[k] == x;
      var rest := t[..k] + t[k + 1..];
      SelectRemove(t, k, p, f);
      RemoveMatching(s, t, k);
      SelectPermutation(s[1..], rest, p, f);
      SelectAppend([x], s[1..], p, f);
    }
  }

  /** Two orderings of the same elements stay so once the first element of one and a copy of
      it in the other are taken out. */
  lemma RemoveMatching<T>(s: seq<T>, t: seq<T>, k: nat)
    requires multiset(s) == multiset(t) && 0 < |s| && k < |t| && t[k] == s[0]
    ensures multiset(s[1..]) == multiset(t[..k] + t[k + 1..])
  {
    var x := s[0];
    assert s == [x] + s[1..];
    assert t == t[..k] + [x] + t[k + 1..];
    assert multiset(t) == multiset(t[..k]) + multiset{x} + multiset(t[k + 1..]);
    assert multiset(s[1..]) == multiset(s) - multiset{x};
  }

  /** Taking one element out of the input takes its image, if any, out of the output. */
  lemma SelectRemove<T, U>(t: seq<T>, k: nat, p: T -> bool, f: T -> U)
    requires k < |t|
    ensures multiset(Select(t, p, f))
            == multiset(Select([t[k]], p, f)) + multiset(Select(t[..k] + t[k + 1..], p, f))
  {
    var a, x, b := t[..k], [t[k]], t[k + 1..];
    var xb := x + b;
    SplitAround(t, k);
    SelectAppend(a, xb, p, f);
    SelectAppend(x, b, p, f);
    SelectAppend(a, b, p, f);
    MiddleOut(Select(a, p, f), Select(x, p, f), Select(b, p, f));
  }

  lemma SplitAround<T>(t: seq<T>, k: nat)
    requires k < |t|
    ensures t == t[..k] + ([t[k]] + t[k + 1..])
  {
    assert t[k..] == [t[k]] + t[k + 1..];
    assert t == t[..k] + t[k..];
  }

  /** Taking the middle part out of a sequence leaves the multiset of the other two. */
  lemma MiddleOut<U>(a: seq<U>, x: seq<U>, b: seq<U>)
    ensures multiset(a + (x + b)) == multiset(x) + multiset(a + b)
  {
  }

  /** `set(s)`. */
  function Elements<T(!new)>(s: seq<T>): (r: set<T>)
    ensures forall x :: x in r <==> x in s
  {
    set x | x in s
  }

  /** A `collections.Counter` (or a `dict` of counts): (key, count) entries in insertion
      order. */
  type Counter<K(==)> = seq<(K, nat)>

  /** Each key of a dict appears once. */
  ghost predicate DistinctKeys<K, V>(c: seq<(K, V)>) {
    forall i, j :: 0 <= i < j < |c| ==> c[i].0 != c[j].0
  }

  function Keys<K(==), V>(c: seq<(K, V)>): set<K> {
    if |c| == 0 then {} else {c[0].0} + Keys(c[1..])
  }

  /** `counter[k]`: the stored value, or 0 for a key never stored. */
  function Count<K(==)>(c: seq<(K, nat)>, k: K): nat {
    if |c| == 0 then 0 else if c[0].0 == k then c[0].1 else Count(c[1..], k)
  }

  /** `counter[k] = v`: a stored key keeps its place, a new one goes last. */
  function Store<K(==,!new)>(c: seq<(K, nat)>, k: K, v: nat): (r: seq<(K, nat)>)
    ensures forall j :: Count(r, j) == if j == k then v else Count(c, j)
    ensures Keys(r) == Keys(c) + {k}
    ensures k !in Keys(c) ==> r == c + [(k, v)]
  {
    if |c| == 0 then [(k, v)]
    else if c[0].0 == k then [(k, v)] + c[1..]
    else
      var r := [c[0]] + Store(c[1..], k, v);
      assert r[1..] == Store(c[1..], k, v);
      r
  }

  /** A stored key keeps its place, and the keys stay distinct. */
  lemma StoreInPlace<K(!new)>(c: seq<(K, nat)>, k: K, v: nat)
    ensures DistinctKeys(c) ==> DistinctKeys(Store(c, k, v))
    ensures k in Keys(c) ==> |Store(c, k, v)| == |c| && forall i :: 0 <= i < |c| ==> Store(c, k, v)[i].0 == c[i].0
  {
    if DistinctKeys(c) {
      StoreDistinct(c, k, v);
    }
    if k in Keys(c) {
      StorePlaces(c, k, v);
    }
  }

  /** Storing under a key already present rewrites that entry and moves nothing. */
  lemma {:induction false} StorePlaces<K(!new)>(c: seq<(K, nat)>, k: K, v: nat)
    requires k in Keys(c)
    ensures |Store(c, k, v)| == |c| && forall i :: 0 <= i < |c| ==> Store(c, k, v)[i].0 == c[i].0
  {
    var r := Store(c, k, v);
    if c[0].0 != k {
      var rest := c[1..];
      var r1 := Store(rest, k, v);
      StorePlaces(rest, k, v);
      assert r == [c[0]] + r1;
      forall i | 0 <= i < |c| ensures r[i].0 == c[i].0 {
        if i > 0 {
          assert r[i] == r1[i - 1] && c[i] == rest[i - 1];
        }
      }
    }
  }

  /** Storing keeps the keys distinct. */
  lemma {:induction false} StoreDistinct<K(!new)>(c: seq<(K, nat)>, k: K, v: nat)
    requires DistinctKeys(c)
    ensures DistinctKeys(Store(c, k, v))
  {
    var r := Store(c, k, v);
    if |c| > 0 && c[0].0 == k {
      assert forall i :: 0 <= i < |c| ==> r[i].0 == c[i].0;
    } else if |c| > 0 {
      var rest := c[1..];
      var r1 := Store(rest, k, v);
      assert DistinctKeys(rest) by {
        forall i, j | 0 <= i < j < |rest| ensures rest[i].0 != rest[j].0 {
          assert rest[i] == c[i + 1] && rest[j] == c[j + 1];
        }
      }
      StoreDistinct(rest, k, v);
      assert r == [c[0]] + r1;
      forall j | 0 <= j < |r1| ensures r1[j].0 != c[0].0 {
        if k in Keys(rest) {
          StorePlaces(rest, k, v);
          assert r1[j].0 == rest[j].0 && rest[j] == c[j + 1];
        } else {
          assert r1 == rest + [(k, v)];
          KeysIndex(rest, c[0].0);
          if j < |rest| {
            assert r1[j] == rest[j] && rest[j] == c[j + 1];
          }
        }
      }
      forall i, j | 0 <= i < j < |r| ensures r[i].0 != r[j].0 {
        if i > 0 {
          assert r[i] == r1[i - 1] && r[j] == r1[j - 1];
        } else {
          assert r[j] == r1[j - 1];
        }
      }
    }
  }

  /** `counter[k] += 1`. */
  function Increment<K(==,!new)>(c: seq<(K, nat)>, k: K): (r: seq<(K, nat)>) {
    Store(c, k, Count(c, k) + 1)
  }

  /** `for k in ks: counter[k] += 1`. */
  function IncrementAll<K(==,!new)>(c: seq<(K, nat)>, ks: seq<K>): (r: seq<(K, nat)>)
    ensures Keys(r) == Keys(c) + Elements(ks)
    ensures Total(r) == Total(c) + |ks|
    decreases |ks|
  {
    if |ks| == 0 then c
    else
      TotalIncrement(c, ks[0]);
      assert ks == [ks[0]] + ks[1..];
      IncrementAll(Increment(c, ks[0]), ks[1..])
  }

  /** Each key's count goes up by the number of times it is listed. */
  lemma {:induction false} IncrementAllCount<K(!new)>(c: seq<(K, nat)>, ks: seq<K>, k: K)
    ensures Count(IncrementAll(c, ks), k) == Count(c, k) + multiset(ks)[k]
    decreases |ks|
  {
    if |ks| > 0 {
      IncrementAllCount(Increment(c, ks[0]), ks[1..], k);
      assert ks == [ks[0]] + ks[1..];
    }
  }

  /** `sum(counter.values())`. */
  function Total<K(==)>(c: seq<(K, nat)>): nat {
    if |c| == 0 then 0 else c[0].1 + Total(c[1..])
  }

  /** The keys are the first components of the entries. */
  lemma {:induction false} KeysIndex<K, V>(c: seq<(K, V)>, k: K)
    ensures k in Keys(c) <==> exists i :: 0 <= i < |c| && c[i].0 == k
  {
    if |c| > 0 {
      KeysIndex(c[1..], k);
      if k in Keys(c[1..]) {
        var i :| 0 <= i < |c[1..]| && c[1..][i].0 == k;
        assert c[i + 1].0 == k;
      }
      if exists i :: 0 <= i < |c| && c[i].0 == k {
        var i :| 0 <= i < |c| && c[i].0 == k;
        if i > 0 {
          assert c[1..][i - 1].0 == k;
        }
      }
    }
  }

  /** A key never stored counts 0. */
  lemma {:induction false} CountAbsent<K>(c: seq<(K, nat)>, k: K)
    requires k !in Keys(c)
    ensures Count(c, k) == 0
  {
    if |c| > 0 {
      CountAbsent(c[1..], k);
    }
  }

  /** An entry appended for a new key changes only that key's count. */
  lemma {:induction false} CountAppendAbsent<K>(c: seq<(K, nat)>, k: K, v: nat, j: K)
    requires k !in Keys(c)
    ensures Count(c + [(k, v)], j) == if j == k then v else Count(c, j)
  {
    if |c| == 0 {
      assert c + [(k, v)] == [(k, v)];
    } else {
      assert (c + [(k, v)])[1..] == c[1..] + [(k, v)];
      CountAppendAbsent(c[1..], k, v, j);
    }
  }

  /** Storing a value changes the total by the difference with the value it replaces. */
  lemma {:induction false} TotalStore<K(!new)>(c: seq<(K, nat)>, k: K, v: nat)
    ensures Total(Store(c, k, v)) + Count(c, k) == Total(c) + v
  {
    if |c| > 0 && c[0].0 != k {
      TotalStore(c[1..], k, v);
    }
  }

  /** A counted value only goes up by one for the counted key. */
  lemma TotalIncrement<K(!new)>(c: seq<(K, nat)>, k: K)
    ensures Total(Increment(c, k)) == Total(c) + 1
  {
    TotalStore(c, k, Count(c, k) + 1);
  }

  /** Counter `==` since Python 3.10: a key that is absent and a key counted 0 compare
      equal, and the order of the entries does not matter. */
  ghost predicate SameCounts<K(!new)>(a: Counter<K>, b: Counter<K>) {
    forall k :: Count(a, k) == Count(b, k)
  }

  /** The dict as a map, for comparisons that ignore the order of the keys (dict `==`). */
  function AsMap<K(==), V>(c: seq<(K, V)>): (m: map<K, V>)
    ensures m.Keys == Keys(c)
  {
    if |c| == 0 then map[]
    else AsMap(c[1..])[c[0].0 := c[0].1]
  }
}

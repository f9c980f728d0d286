/** `get_largest_and_smallest`: the entries of a size counter grouped by size, given
    competition ranks (1, 1, 3, ...), and the groups that make up the largest N and the
    smallest N, ties kept whole.
 */
module Ranking {
  import opened Text
  import opened Sorting
  import opened Collections
  import opened MetricsData

  /** One `(name, size)` entry of the counter. */
  type Item = (string, nat)

  /** `sorted(..., key=lambda x: x[1], reverse=True)`: larger sizes first. */
  predicate LargerFirst(a: Item, b: Item) {
    a.1 >= b.1
  }

  lemma LargerFirstIsTotalPreorder()
    ensures TotalPreorder(LargerFirst)
  {
  }

  function NameOf(x: Item): string {
    x.0
  }

  function Itself(x: Item): Item {
    x
  }

  function HasSize(size: nat): Item -> bool {
    (x: Item) => x.1 == size
  }

  function LargerThan(size: nat): Item -> bool {
    (x: Item) => x.1 > size
  }

  /** The names of the entries of a given size, in their order. */
  function NamesOfSize(items: seq<Item>, size: nat): seq<string> {
    Select(items, HasSize(size), NameOf)
  }

  /** How many entries are strictly larger than `size`. */
  function CountLarger(items: seq<Item>, size: nat): nat {
    |Select(items, LargerThan(size), Itself)|
  }

  /** One group of `groupby`: a size and its run of entries. */
  datatype Group = Group(size: nat, items: seq<Item>)

  ghost predicate Uniform(g: Group) {
    |g.items| > 0 && forall x :: x in g.items ==> x.1 == g.size
  }

  ghost predicate Decreasing(groups: seq<Group>) {
    forall i, j :: 0 <= i < j < |groups| ==> groups[i].size > groups[j].size
  }

  function Flatten(groups: seq<Group>): seq<Item> {
    if |groups| == 0 then [] else groups[0].items + Flatten(groups[1..])
  }

  /** `groupby(sorted_sizes, key=itemgetter(1))`: runs of equal size that together are the
      entries, in order. */
  function GroupBySize(s: seq<Item>): (groups: seq<Group>)
    ensures Flatten(groups) == s
    ensures forall i :: 0 <= i < |groups| ==> Uniform(groups[i])
    ensures |s| > 0 ==> |groups| > 0 && groups[0].size == s[0].1
  {
    if |s| == 0 then []
    else
      var rest := GroupBySize(s[1..]);
      assert s == [s[0]] + s[1..];
      if |rest| > 0 && rest[0].size == s[0].1 then
        var groups := [Group(s[0].1, [s[0]] + rest[0].items)] + rest[1..];
        assert groups[1..] == rest[1..];
        groups
      else
        var groups := [Group(s[0].1, [s[0]])] + rest;
        assert groups[1..] == rest;
        groups
  }

  /** The runs are maximal: on entries sorted largest first, each run is of a strictly
      smaller size than the one before. */
  lemma {:induction false} GroupsDecrease(s: seq<Item>)
    requires SortedBy(s, LargerFirst)
    ensures Decreasing(GroupBySize(s))
  {
    if |s| > 0 {
      var tail := s[1..];
      assert SortedBy(tail, LargerFirst) by {
        forall i, j | 0 <= i < j < |tail| ensures LargerFirst(tail[i], tail[j]) {
          assert tail[i] == s[i + 1] && tail[j] == s[j + 1];
        }
      }
      GroupsDecrease(tail);
      var rest := GroupBySize(tail);
      var groups := GroupBySize(s);
      if |rest| > 0 && rest[0].size == s[0].1 {
        assert groups == [Group(s[0].1, [s[0]] + rest[0].items)] + rest[1..];
        forall i, j | 0 <= i < j < |groups| ensures groups[i].size > groups[j].size {
          assert groups[j] == rest[j];
          if i > 0 {
            assert groups[i] == rest[i];
          }
        }
      } else {
        assert groups == [Group(s[0].1, [s[0]])] + rest;
        if |rest| > 0 {
          assert LargerFirst(s[0], s[1]) && rest[0].size == tail[0].1;
        }
        forall i, j | 0 <= i < j < |groups| ensures groups[i].size > groups[j].size {
          assert groups[j] == rest[j - 1];
          if i > 0 {
            assert groups[i] == rest[i - 1];
          } else if j > 1 {
            assert rest[0].size > rest[j - 1].size;
          }
        }
      }
    }
  }

  function Names(items: seq<Item>): (names: seq<string>)
    ensures |names| == |items| && forall i :: 0 <= i < |items| ==> names[i] == items[i].0
  {
    seq(|items|, i requires 0 <= i < |items| => items[i].0)
  }

  /** `sorted([name for name, _ in group])`. */
  function SortedNames(items: seq<Item>): (names: seq<string>)
    ensures SortedBy(names, LessEq) && multiset(names) == multiset(Names(items))
    ensures |names| == |items|
  {
    LessEqTotalPreorder();
    var names := SortBy(Names(items), LessEq);
    assert |multiset(names)| == |names|;
    names
  }

  /** The ranking loop: a group's rank is one more than the number of entries in the
      groups before it. */
  function RankGroups(groups: seq<Group>): (r: seq<Ranked>) {
    seq(|groups|, i requires 0 <= i < |groups| =>
      Ranked(1 + |Flatten(groups[..i])|, groups[i].size, SortedNames(groups[i].items)))
  }

  /** `ranked_with_ties`. */
  function RankedWithTies(items: seq<Item>): seq<Ranked> {
    LargerFirstIsTotalPreorder();
    RankGroups(GroupBySize(SortBy(items, LargerFirst)))
  }

  /** How many names the groups list. */
  function NameCount(r: seq<Ranked>): nat {
    if |r| == 0 then 0 else |r[0].names| + NameCount(r[1..])
  }

  /** The selection loop: take whole groups while fewer than `n` names are taken. */
  function TakeGroups(ranked: seq<Ranked>, n: int, taken: nat): (r: seq<Ranked>)
    ensures |r| <= |ranked| && r == ranked[..|r|]
    ensures forall j :: 0 <= j < |r| ==> taken + NameCount(ranked[..j]) < n
    ensures |r| < |ranked| ==> taken + NameCount(r) >= n
  {
    if |ranked| == 0 || taken >= n then []
    else
      var rest := TakeGroups(ranked[1..], n, taken + |ranked[0].names|);
      forall j | 0 < j <= |rest| ensures NameCount(ranked[..j]) == |ranked[0].names| + NameCount(ranked[1..][..j - 1]) {
        assert ranked[..j][1..] == ranked[1..][..j - 1];
      }
      assert ([ranked[0]] + rest)[1..] == rest;
      [ranked[0]] + rest
  }

  /** The last `k` elements. */
  function Suffix<T>(s: seq<T>, k: nat): seq<T>
    requires k <= |s|
  {
    s[|s| - k..]
  }

  /** `list(reversed(...))` of the groups taken from the reversed ranking. */
  function TakeGroupsFromEnd(ranked: seq<Ranked>, n: int): (r: seq<Ranked>)
    ensures |r| <= |ranked| && r == Suffix(ranked, |r|)
    ensures forall j :: 0 <= j < |r| ==> NameCount(Suffix(ranked, j)) < n
    ensures |r| < |ranked| ==> NameCount(r) >= n
  {
    var reversed := TakeGroups(Reverse(ranked), n, 0);
    ReverseTake(ranked, |reversed|);
    forall j | 0 <= j <= |ranked| ensures NameCount(Reverse(ranked)[..j]) == NameCount(Suffix(ranked, j)) {
      ReverseTake(ranked, j);
      NameCountReverse(Reverse(ranked)[..j]);
    }
    NameCountReverse(reversed);
    Reverse(reversed)
  }

  /** `get_largest_and_smallest(sizes, n)`: the largest groups, then the smallest groups in
      ascending order of rank. Each list is the shortest run of whole groups, from its end
      of the ranking, that holds at least `n` names, or the whole ranking when it holds
      fewer. */
  function LargestAndSmallest(items: seq<Item>, n: int): (r: (seq<Ranked>, seq<Ranked>))
    ensures var ranked := RankedWithTies(items);
      && |r.0| <= |ranked| && r.0 == ranked[..|r.0|]
      && (forall j :: 0 <= j < |r.0| ==> NameCount(ranked[..j]) < n)
      && (|r.0| < |ranked| ==> NameCount(r.0) >= n)
      && |r.1| <= |ranked| && r.1 == Suffix(ranked, |r.1|)
      && (forall j :: 0 <= j < |r.1| ==> NameCount(Suffix(ranked, j)) < n)
      && (|r.1| < |ranked| ==> NameCount(r.1) >= n)
  {
    var ranked := RankedWithTies(items);
    (TakeGroups(ranked, n, 0), TakeGroupsFromEnd(ranked, n))
  }

  lemma {:induction false} NameCountAppend(a: seq<Ranked>, b: seq<Ranked>)
    ensures NameCount(a + b) == NameCount(a) + NameCount(b)
  {
    if |a| == 0 {
      assert a + b == b;
    } else {
      assert (a + b)[1..] == a[1..] + b;
      NameCountAppend(a[1..], b);
    }
  }

  lemma {:induction false} NameCountReverse(a: seq<Ranked>)
    ensures NameCount(Reverse(a)) == NameCount(a)
  {
    if |a| > 0 {
      assert Reverse(a) == Reverse(a[1..]) + [a[0]];
      NameCountAppend(Reverse(a[1..]), [a[0]]);
      NameCountReverse(a[1..]);
    }
  }

  // ---------------------------------------------------------------------------------------
  // What the ranking is, independently of how it is computed.

  /** `r` ranks `items`: one group per size that occurs, largest first, and each group as
      `GroupOf` says. */
  ghost predicate RanksOf(items: seq<Item>, r: seq<Ranked>) {
    && (forall i, j :: 0 <= i < j < |r| ==> r[i].size > r[j].size)
    && (forall x :: x in items ==> exists i :: 0 <= i < |r| && r[i].size == x.1)
    && (forall i :: 0 <= i < |r| ==> GroupOf(items, r[i]))
  }

  /** A group lists the names of the entries of its size, sorted, and its rank is one more
      than the number of entries of a larger size. */
  ghost predicate GroupOf(items: seq<Item>, g: Ranked) {
    && |g.names| > 0
    && SortedBy(g.names, LessEq)
    && multiset(g.names) == multiset(NamesOfSize(items, g.size))
    && g.rank == 1 + CountLarger(items, g.size)
  }

  /** The computed ranking is the ranking. */
  lemma RankedWithTiesRanks(items: seq<Item>)
    ensures RanksOf(items, RankedWithTies(items))
  {
    LargerFirstIsTotalPreorder();
    var sorted := SortBy(items, LargerFirst);
    var groups := GroupBySize(sorted);
    GroupsDecrease(sorted);
    GroupsRank(groups);
    RanksOfPermutation(sorted, items, RankGroups(groups));
  }

  /** Ranking runs of decreasing sizes ranks their entries. */
  lemma GroupsRank(groups: seq<Group>)
    requires Decreasing(groups) && forall i :: 0 <= i < |groups| ==> Uniform(groups[i])
    ensures RanksOf(Flatten(groups), RankGroups(groups))
  {
    var r := RankGroups(groups);
    forall i | 0 <= i < |r| ensures GroupOf(Flatten(groups), r[i]) {
      NamesOfGroup(groups, i);
      RankOfGroup(groups, i);
    }
    forall x | x in Flatten(groups) ensures exists i :: 0 <= i < |r| && r[i].size == x.1 {
      var k := InFlatten(groups, x);
      assert r[k].size == x.1;
    }
  }

  /** The groups before the `i`th and after it, around its own entries. */
  lemma FlattenAround(groups: seq<Group>, i: nat)
    requires i < |groups|
    ensures Flatten(groups) == Flatten(groups[..i]) + groups[i].items + Flatten(groups[i + 1..])
  {
    FlattenAppend(groups[..i], groups[i..]);
    assert groups == groups[..i] + groups[i..];
    assert groups[i..][1..] == groups[i + 1..];
  }

  lemma {:induction false} FlattenAppend(a: seq<Group>, b: seq<Group>)
    ensures Flatten(a + b) == Flatten(a) + Flatten(b)
  {
    if |a| == 0 {
      assert a + b == b;
    } else {
      assert (a + b)[1..] == a[1..] + b;
      FlattenAppend(a[1..], b);
    }
  }

  /** Entries before the `i`th group are larger than its size, entries after it smaller. */
  lemma AroundGroup(groups: seq<Group>, i: nat)
    requires Decreasing(groups) && forall k :: 0 <= k < |groups| ==> Uniform(groups[k])
    requires i < |groups|
    ensures forall x :: x in Flatten(groups[..i]) ==> x.1 > groups[i].size
    ensures forall x :: x in Flatten(groups[i + 1..]) ==> x.1 < groups[i].size
  {
    forall x | x in Flatten(groups[..i]) ensures x.1 > groups[i].size {
      var k := InFlatten(groups[..i], x);
      assert groups[..i][k] == groups[k];
    }
    forall x | x in Flatten(groups[i + 1..]) ensures x.1 < groups[i].size {
      var k := InFlatten(groups[i + 1..], x);
      assert groups[i + 1..][k] == groups[i + 1 + k];
    }
  }

  /** The names of a group's size are the names of its own entries. */
  lemma NamesOfGroup(groups: seq<Group>, i: nat)
    requires Decreasing(groups) && forall k :: 0 <= k < |groups| ==> Uniform(groups[k])
    requires i < |groups|
    ensures NamesOfSize(Flatten(groups), groups[i].size) == Names(groups[i].items)
  {
    var s := groups[i].size;
    FlattenAround(groups, i);
    AroundGroup(groups, i);
    SelectAppend(Flatten(groups[..i]) + groups[i].items, Flatten(groups[i + 1..]), HasSize(s), NameOf);
    SelectAppend(Flatten(groups[..i]), groups[i].items, HasSize(s), NameOf);
    SelectNone(Flatten(groups[..i]), HasSize(s), NameOf);
    SelectNone(Flatten(groups[i + 1..]), HasSize(s), NameOf);
    SelectAllNames(groups[i].items, s);
  }

  /** The entries larger than a group's size are those of the groups before it. */
  lemma RankOfGroup(groups: seq<Group>, i: nat)
    requires Decreasing(groups) && forall k :: 0 <= k < |groups| ==> Uniform(groups[k])
    requires i < |groups|
    ensures CountLarger(Flatten(groups), groups[i].size) == |Flatten(groups[..i])|
  {
    var s := groups[i].size;
    FlattenAround(groups, i);
    AroundGroup(groups, i);
    SelectAppend(Flatten(groups[..i]) + groups[i].items, Flatten(groups[i + 1..]), LargerThan(s), Itself);
    SelectAppend(Flatten(groups[..i]), groups[i].items, LargerThan(s), Itself);
    SelectAll(Flatten(groups[..i]), LargerThan(s), Itself);
    SelectNone(groups[i].items, LargerThan(s), Itself);
    SelectNone(Flatten(groups[i + 1..]), LargerThan(s), Itself);
  }

  /** The group an entry of the flattened groups comes from. */
  lemma {:induction false} InFlatten(groups: seq<Group>, x: Item) returns (k: nat)
    requires x in Flatten(groups)
    ensures k < |groups| && x in groups[k].items
  {
    if x in groups[0].items {
      k := 0;
    } else {
      var j := InFlatten(groups[1..], x);
      k := j + 1;
    }
  }

  lemma {:induction false} SelectNone<U>(s: seq<Item>, p: Item -> bool, f: Item -> U)
    requires forall x :: x in s ==> !p(x)
    ensures Select(s, p, f) == []
  {
    if |s| > 0 {
      SelectNone(s[1..], p, f);
    }
  }

  lemma {:induction false} SelectAll(s: seq<Item>, p: Item -> bool, f: Item -> Item)
    requires forall x :: x in s ==> p(x)
    ensures |Select(s, p, f)| == |s|
  {
    if |s| > 0 {
      SelectAll(s[1..], p, f);
    }
  }

  /** In a group of one size, the names of that size are all the names. */
  lemma {:induction false} SelectAllNames(s: seq<Item>, size: nat)
    requires forall x :: x in s ==> x.1 == size
    ensures NamesOfSize(s, size) == Names(s)
  {
    if |s| > 0 {
      SelectAllNames(s[1..], size);
      assert Names(s) == [s[0].0] + Names(s[1..]);
    }
  }

  /** Reordering the entries keeps what a group says about them. */
  lemma GroupOfPermutation(items: seq<Item>, other: seq<Item>, g: Ranked)
    requires multiset(items) == multiset(other) && GroupOf(items, g)
    ensures GroupOf(other, g)
  {
    SelectPermutation(items, other, HasSize(g.size), NameOf);
    SelectPermutation(items, other, LargerThan(g.size), Itself);
    var a, b := Select(items, LargerThan(g.size), Itself), Select(other, LargerThan(g.size), Itself);
    assert |multiset(a)| == |a| && |multiset(b)| == |b|;
  }

  /** Only the entries matter, not the order the counter holds them in. */
  lemma RanksOfPermutation(items: seq<Item>, other: seq<Item>, r: seq<Ranked>)
    requires multiset(items) == multiset(other) && RanksOf(items, r)
    ensures RanksOf(other, r)
  {
    forall i | 0 <= i < |r| ensures GroupOf(other, r[i]) {
      GroupOfPermutation(items, other, r[i]);
    }
    forall x | x in other ensures exists i :: 0 <= i < |r| && r[i].size == x.1 {
      assert x in multiset(items);
      assert x in items;
    }
  }

  /** The names of a ranking are ordered under `<=` with no two distinct names level. */
  lemma LessEqAntisymmetric()
    ensures Antisymmetric(LessEq)
  {
    forall a, b ensures LessEq(a, b) && LessEq(b, a) ==> a == b {
      if Less(a, b) {
        LessAsymmetric(a, b);
      }
    }
  }

  predicate Greater(a: nat, b: nat) {
    a > b
  }

  function Sizes(r: seq<Ranked>): (s: seq<nat>)
    ensures |s| == |r| && forall i :: 0 <= i < |r| ==> s[i] == r[i].size
  {
    seq(|r|, i requires 0 <= i < |r| => r[i].size)
  }

  /** A size occurs in a ranking exactly when some entry has it. */
  lemma SizesOfRanking(items: seq<Item>, r: seq<Ranked>, size: nat)
    requires RanksOf(items, r)
    ensures size in Sizes(r) <==> exists x :: x in items && x.1 == size
  {
    if size in Sizes(r) {
      var i :| 0 <= i < |r| && Sizes(r)[i] == size;
      assert GroupOf(items, r[i]);
      var name := r[i].names[0];
      assert name in multiset(NamesOfSize(items, size));
      var x := SelectWitness(items, HasSize(size), NameOf, name);
    }
    if exists x :: x in items && x.1 == size {
      var x :| x in items && x.1 == size;
      var i :| 0 <= i < |r| && r[i].size == x.1;
      assert Sizes(r)[i] == size;
    }
  }

  /** Something selected comes from an element that passed the test. */
  lemma {:induction false} SelectWitness<T, U>(s: seq<T>, p: T -> bool, f: T -> U, y: U) returns (x: T)
    requires y in Select(s, p, f)
    ensures x in s && p(x) && f(x) == y
  {
    if p(s[0]) && f(s[0]) == y {
      x := s[0];
    } else {
      x := SelectWitness(s[1..], p, f, y);
    }
  }

  /** There is only one ranking of a collection of entries. */
  lemma RanksUnique(items: seq<Item>, a: seq<Ranked>, b: seq<Ranked>)
    requires RanksOf(items, a) && RanksOf(items, b)
    ensures a == b
  {
    forall size ensures size in Sizes(a) <==> size in Sizes(b) {
      SizesOfRanking(items, a, size);
      SizesOfRanking(items, b, size);
    }
    assert StrictTotalOrder(Greater);
    StrictlySortedUnique(Sizes(a), Sizes(b), Greater);
    LessEqAntisymmetric();
    forall i | 0 <= i < |a| ensures a[i] == b[i] {
      assert Sizes(a)[i] == Sizes(b)[i];
      assert GroupOf(items, a[i]) && GroupOf(items, b[i]);
      SortedUnique(a[i].names, b[i].names, LessEq);
    }
  }

  /** The lists returned do not depend on the order of the counter's entries. */
  lemma OrderIndependent(items: seq<Item>, other: seq<Item>, n: int)
    requires multiset(items) == multiset(other)
    ensures RankedWithTies(items) == RankedWithTies(other)
    ensures LargestAndSmallest(items, n) == LargestAndSmallest(other, n)
  {
    RankedWithTiesRanks(items);
    RankedWithTiesRanks(other);
    RanksOfPermutation(items, other, RankedWithTies(items));
    RanksUnique(other, RankedWithTies(items), RankedWithTies(other));
  }

  /** Every entry's name is listed once: the groups hold as many names as there are
      entries. */
  lemma RankedCountsAll(items: seq<Item>)
    ensures NameCount(RankedWithTies(items)) == |items|
  {
    LargerFirstIsTotalPreorder();
    var sorted := SortBy(items, LargerFirst);
    var groups := GroupBySize(sorted);
    var r := RankGroups(groups);
    RankGroupsCount(r, groups, |groups|);
    assert r[..|groups|] == r;
    assert groups[..|groups|] == groups;
    assert |multiset(sorted)| == |sorted| && |multiset(items)| == |items|;
  }

  /** Groups listing as many names as their runs hold entries list, in any prefix, as many
      names as the prefix of runs holds entries. */
  lemma {:induction false} RankGroupsCount(r: seq<Ranked>, groups: seq<Group>, k: nat)
    requires |r| == |groups| && forall i :: 0 <= i < |r| ==> |r[i].names| == |groups[i].items|
    requires k <= |groups|
    ensures NameCount(r[..k]) == |Flatten(groups[..k])|
  {
    if k > 0 {
      RankGroupsCount(r, groups, k - 1);
      assert r[..k] == r[..k - 1] + [r[k - 1]];
      NameCountLast(r[..k], r[..k - 1], r[k - 1]);
      assert groups[..k] == groups[..k - 1] + [groups[k - 1]];
      FlattenLast(groups[..k], groups[..k - 1], groups[k - 1]);
    }
  }

  lemma NameCountLast(r: seq<Ranked>, init: seq<Ranked>, last: Ranked)
    requires r == init + [last]
    ensures NameCount(r) == NameCount(init) + |last.names|
  {
    NameCountAppend(init, [last]);
  }

  lemma FlattenLast(groups: seq<Group>, init: seq<Group>, last: Group)
    requires groups == init + [last]
    ensures |Flatten(groups)| == |Flatten(init)| + |last.items|
  {
    FlattenAppend(init, [last]);
    assert Flatten([last]) == last.items;
  }

  /** An empty counter ranks nothing and selects nothing. */
  lemma EmptyCounter(n: int)
    ensures LargestAndSmallest([], n) == ([], [])
  {
    LargerFirstIsTotalPreorder();
    assert SortBy([], LargerFirst) == [];
  }

  /** When `n` reaches the number of entries, both lists are the whole ranking. */
  lemma EverythingWhenNIsLarge(items: seq<Item>, n: int)
    requires |items| <= n
    ensures LargestAndSmallest(items, n) == (RankedWithTies(items), RankedWithTies(items))
  {
    var ranked := RankedWithTies(items);
    var r := LargestAndSmallest(items, n);
    RankedCountsAll(items);
    NamesNonEmpty(items);
    PrefixCount(ranked, |r.0|);
    SuffixCount(ranked, |r.1|);
    assert |r.0| == |ranked| && |r.1| == |ranked|;
    assert ranked[..|ranked|] == ranked && Suffix(ranked, |ranked|) == ranked;
    assert r.0 == ranked && r.1 == ranked;
  }

  lemma NamesNonEmpty(items: seq<Item>)
    ensures forall i :: 0 <= i < |RankedWithTies(items)| ==> |RankedWithTies(items)[i].names| > 0
  {
    RankedWithTiesRanks(items);
  }

  /** Leaving out groups, each with at least one name, leaves out at least one name each. */
  lemma {:induction false} PrefixCount(r: seq<Ranked>, k: nat)
    requires k <= |r| && forall i :: 0 <= i < |r| ==> |r[i].names| > 0
    ensures NameCount(r[..k]) + (|r| - k) <= NameCount(r)
    decreases |r| - k
  {
    if k < |r| {
      PrefixCount(r, k + 1);
      assert r[..k + 1] == r[..k] + [r[k]];
      NameCountAppend(r[..k], [r[k]]);
    } else {
      assert r[..k] == r;
    }
  }

  lemma {:induction false} SuffixCount(r: seq<Ranked>, k: nat)
    requires k <= |r| && forall i :: 0 <= i < |r| ==> |r[i].names| > 0
    ensures NameCount(Suffix(r, k)) + (|r| - k) <= NameCount(r)
    decreases |r| - k
  {
    if k < |r| {
      SuffixCount(r, k + 1);
      assert Suffix(r, k + 1) == [r[|r| - k - 1]] + Suffix(r, k);
    } else {
      assert Suffix(r, k) == r;
    }
  }
}

/** `differentiate_metrics` and its helpers: the differences between this week's records and
    the previous week's, the new bookmarks looked up in this week's tree, and their grouping
    by the day they were created.
 */
module Differ {
  import opened Wrappers
  import opened Collections
  import opened Sorting
  import opened Bookmarks
  import opened MetricsData
  import opened Gather

  // ---------------------------------------------------------------------------------------
  // all_bookmarks_sorted: a breadth-first walk, then a stable sort on the creation time.

  /** How many nodes a folder holds, itself included: what the walk still has to take off
      the queue. */
  function Weight(f: Folder): nat
    decreases f, |f.content| + 1
  {
    1 + WeightFrom(f, 0)
  }

  function WeightFrom(f: Folder, i: nat): nat
    requires i <= |f.content|
    decreases f, |f.content| - i
  {
    if i == |f.content| then 0
    else
      match f.content[i]
      case FolderNode(g) => Weight(g) + WeightFrom(f, i + 1)
      case BookmarkNode(_) => 1 + WeightFrom(f, i + 1)
  }

  function NodeWeight(n: Node): nat {
    match n
    case FolderNode(g) => Weight(g)
    case BookmarkNode(_) => 1
  }

  function QueueWeight(queue: seq<Node>): nat {
    if |queue| == 0 then 0 else NodeWeight(queue[0]) + QueueWeight(queue[1..])
  }

  lemma {:induction false} QueueWeightAppend(a: seq<Node>, b: seq<Node>)
    ensures QueueWeight(a + b) == QueueWeight(a) + QueueWeight(b)
  {
    if |a| == 0 {
      assert a + b == b;
    } else {
      assert (a + b)[1..] == a[1..] + b;
      QueueWeightAppend(a[1..], b);
    }
  }

  lemma {:induction false} QueueWeightContent(f: Folder, i: nat)
    requires i <= |f.content|
    ensures QueueWeight(f.content[i..]) == WeightFrom(f, i)
    decreases |f.content| - i
  {
    if i < |f.content| {
      assert f.content[i..][1..] == f.content[i + 1..];
      QueueWeightContent(f, i + 1);
    }
  }

  /** A depth-first reference: a folder's bookmarks in the order the tree lists them, each
      sub-folder's in its place. */
  function TreeBookmarks(f: Folder): seq<Bookmark>
    decreases f, |f.content| + 1
  {
    BookmarksFrom(f, 0)
  }

  function BookmarksFrom(f: Folder, i: nat): seq<Bookmark>
    requires i <= |f.content|
    decreases f, |f.content| - i
  {
    if i == |f.content| then []
    else
      match f.content[i]
      case FolderNode(g) => TreeBookmarks(g) + BookmarksFrom(f, i + 1)
      case BookmarkNode(b) => [b] + BookmarksFrom(f, i + 1)
  }

  function NodeBookmarks(n: Node): seq<Bookmark> {
    match n
    case FolderNode(g) => TreeBookmarks(g)
    case BookmarkNode(b) => [b]
  }

  /** The bookmarks of every node of a queue and below, node after node. */
  function QueueBookmarks(queue: seq<Node>): seq<Bookmark> {
    if |queue| == 0 then [] else NodeBookmarks(queue[0]) + QueueBookmarks(queue[1..])
  }

  lemma {:induction false} QueueBookmarksAppend(a: seq<Node>, b: seq<Node>)
    ensures QueueBookmarks(a + b) == QueueBookmarks(a) + QueueBookmarks(b)
  {
    if |a| == 0 {
      assert a + b == b;
    } else {
      assert (a + b)[1..] == a[1..] + b;
      QueueBookmarksAppend(a[1..], b);
    }
  }

  lemma {:induction false} QueueBookmarksContent(f: Folder, i: nat)
    requires i <= |f.content|
    ensures QueueBookmarks(f.content[i..]) == BookmarksFrom(f, i)
    decreases |f.content| - i
  {
    if i < |f.content| {
      assert f.content[i..][1..] == f.content[i + 1..];
      QueueBookmarksContent(f, i + 1);
    }
  }

  /** The `while len(queue) > 0` loop: a bookmark taken off the front is kept, a folder
      taken off the front sends its entries to the back. Every bookmark of the queue and
      below comes out once, in breadth-first order rather than the tree's. */
  function Collect(queue: seq<Node>): (r: seq<Bookmark>)
    ensures multiset(r) == multiset(QueueBookmarks(queue))
    decreases QueueWeight(queue)
  {
    if |queue| == 0 then []
    else
      match queue[0]
      case BookmarkNode(b) => [b] + Collect(queue[1..])
      case FolderNode(f) =>
        QueueWeightAppend(queue[1..], f.content);
        QueueWeightContent(f, 0);
        QueueBookmarksAppend(queue[1..], f.content);
        QueueBookmarksContent(f, 0);
        assert f.content[0..] == f.content;
        Collect(queue[1..] + f.content)
  }

  /** `key=attrgetter('created')`. */
  predicate ByCreated(a: Bookmark, b: Bookmark) {
    a.created <= b.created
  }

  lemma ByCreatedIsTotalPreorder()
    ensures TotalPreorder(ByCreated)
  {
  }

  /** `all_bookmarks_sorted`: every bookmark of the tree, ordered by creation time; those
      created in the same second stay in the order the walk met them. */
  function AllBookmarksSorted(data: Folder): (r: seq<Bookmark>)
    ensures SortedBy(r, ByCreated)
    ensures multiset(r) == multiset(TreeBookmarks(data))
    ensures forall b :: Ties(r, b, ByCreated) == Ties(Collect(data.content), b, ByCreated)
  {
    ByCreatedIsTotalPreorder();
    QueueBookmarksContent(data, 0);
    assert data.content[0..] == data.content;
    SortBy(Collect(data.content), ByCreated)
  }

  lemma {:induction false} AllBookmarksAppend(a: seq<Place>, b: seq<Place>)
    ensures AllBookmarks(a + b) == AllBookmarks(a) + AllBookmarks(b)
  {
    if |a| == 0 {
      assert a + b == b;
    } else {
      assert (a + b)[1..] == a[1..] + b;
      AllBookmarksAppend(a[1..], b);
    }
  }

  /** The walk of `gather_metrics` sees the same bookmarks, as many times each, as the
      depth-first reference `TreeBookmarks`, which `AllBookmarksSorted` ties to the queue
      walk of `all_bookmarks_sorted`. */
  lemma {:induction false} PlacesBookmarks(f: Folder, path: seq<string>)
    ensures multiset(AllBookmarks(Places(f, path))) == multiset(TreeBookmarks(f))
    decreases f, |f.content| + 1
  {
    var ps := Places(f, path);
    assert ps[1..] == SubPlaces(f, 0, path);
    SubPlacesBookmarks(f, 0, path);
    assert f.content[0..] == f.content;
  }

  lemma {:induction false} SubPlacesBookmarks(f: Folder, i: nat, path: seq<string>)
    requires i <= |f.content|
    ensures multiset(BookmarksOf(f.content[i..])) + multiset(AllBookmarks(SubPlaces(f, i, path)))
            == multiset(BookmarksFrom(f, i))
    decreases f, |f.content| - i
  {
    if i < |f.content| {
      var c := f.content[i..];
      assert c[0] == f.content[i] && c[1..] == f.content[i + 1..];
      SubPlacesBookmarks(f, i + 1, path);
      match f.content[i]
      case FolderNode(g) =>
        PlacesBookmarks(g, path + [g.name]);
        AllBookmarksAppend(Places(g, path + [g.name]), SubPlaces(f, i + 1, path));
      case BookmarkNode(b) =>
    }
  }

  // ---------------------------------------------------------------------------------------
  // bisect_left(all_bookmarks, bookmark_id, key=attrgetter('created')), then the index.

  /** Every bookmark before position `k` was created before `x`. */
  ghost predicate Before(s: seq<Bookmark>, x: int, k: int) {
    k <= |s| && forall i :: 0 <= i < k ==> s[i].created < x
  }

  /** Every bookmark from position `k` on was created at `x` or later. */
  ghost predicate From(s: seq<Bookmark>, x: int, k: int) {
    0 <= k && forall i :: k <= i < |s| ==> s[i].created >= x
  }

  /** The loop of `bisect_left` between `lo` and `hi`, with CPython's midpoint. */
  function Bisect(s: seq<Bookmark>, x: int, lo: nat, hi: nat): (pos: nat)
    requires lo <= hi <= |s|
    ensures lo <= pos <= hi
    ensures SortedBy(s, ByCreated) && Before(s, x, lo) && From(s, x, hi) ==> Before(s, x, pos) && From(s, x, pos)
    decreases hi - lo
  {
    if lo == hi then lo
    else
      var mid := (lo + hi) / 2;
      if s[mid].created < x then Bisect(s, x, mid + 1, hi) else Bisect(s, x, lo, mid)
  }

  /** `bisect_left`: in a list sorted by creation time, the position that splits the
      bookmarks created before `x` from the rest. */
  function BisectLeft(s: seq<Bookmark>, x: int): (pos: nat)
    ensures pos <= |s|
    ensures SortedBy(s, ByCreated) ==> Before(s, x, pos) && From(s, x, pos)
  {
    Bisect(s, x, 0, |s|)
  }

  /** A reference for the search: how many bookmarks at the front were created before `x`. */
  function LeadingBefore(s: seq<Bookmark>, x: int): nat {
    if |s| == 0 || s[0].created >= x then 0 else 1 + LeadingBefore(s[1..], x)
  }

  lemma {:induction false} LeadingBeforeSplits(s: seq<Bookmark>, x: int)
    ensures Before(s, x, LeadingBefore(s, x))
    ensures LeadingBefore(s, x) < |s| ==> s[LeadingBefore(s, x)].created >= x
  {
    if |s| > 0 && s[0].created < x {
      LeadingBeforeSplits(s[1..], x);
      var k := LeadingBefore(s[1..], x);
      forall i | 0 <= i < k + 1 ensures s[i].created < x {
        if i > 0 {
          assert s[i] == s[1..][i - 1];
        }
      }
    }
  }

  /** On a sorted list the binary search lands where a scan from the front stops. */
  lemma BisectIsLinearScan(s: seq<Bookmark>, x: int)
    requires SortedBy(s, ByCreated)
    ensures BisectLeft(s, x) == LeadingBefore(s, x)
  {
    var p, k := BisectLeft(s, x), LeadingBefore(s, x);
    LeadingBeforeSplits(s, x);
    if p < |s| {
      assert s[p].created >= x;
    }
    if k < |s| {
      assert s[k].created >= x;
    }
  }

  /** Some bookmark was created at `x` or later. */
  ghost predicate Reaches(all: seq<Bookmark>, x: int) {
    exists b :: b in all && b.created >= x
  }

  /** `b` is the earliest created of the bookmarks created at `x` or later. */
  ghost predicate Earliest(all: seq<Bookmark>, x: int, b: Bookmark) {
    && b in all && b.created >= x
    && forall c :: c in all && c.created >= x ==> b.created <= c.created
  }

  /** `all_bookmarks[pos]` succeeds exactly when some bookmark was created at `x` or later,
      and then gives the earliest such bookmark. */
  lemma BisectEarliest(all: seq<Bookmark>, x: int)
    requires SortedBy(all, ByCreated)
    ensures BisectLeft(all, x) < |all| <==> Reaches(all, x)
    ensures BisectLeft(all, x) < |all| ==> Earliest(all, x, all[BisectLeft(all, x)])
  {
    var p := BisectLeft(all, x);
    if p < |all| {
      assert all[p] in all;
      forall c | c in all && c.created >= x ensures all[p].created <= c.created {
        var j :| 0 <= j < |all| && all[j] == c;
        assert ByCreated(all[p], all[j]) || j < p;
      }
    } else {
      forall c | c in all ensures c.created < x {
        var j :| 0 <= j < |all| && all[j] == c;
      }
    }
  }

  /** The lookup loop of lines 264-267: for each id, the bookmark `bisect_left` points at, or
      the IndexError of `all_bookmarks[pos]` for an id later than every creation time. */
  function NewBookmarks(all: seq<Bookmark>, ids: seq<int>): (r: Result<seq<Bookmark>>)
    ensures r.Err? ==> r.error == IndexError
    ensures r.Ok? ==> |r.value| == |ids| && forall b :: b in r.value ==> b in all
  {
    if |ids| == 0 then Ok([])
    else
      var pos := BisectLeft(all, ids[0]);
      if pos == |all| then Err(IndexError)
      else
        match NewBookmarks(all, ids[1..])
        case Err(e) => Err(e)
        case Ok(rest) => Ok([all[pos]] + rest)
  }

  /** Against the sorted list of the week's bookmarks, the lookup fails exactly when some id
      is later than every creation time; otherwise it gives, for each id, the earliest
      bookmark created at that id or later. */
  lemma {:induction false} NewBookmarksFound(all: seq<Bookmark>, ids: seq<int>)
    requires SortedBy(all, ByCreated)
    ensures NewBookmarks(all, ids).Ok? <==> forall i :: 0 <= i < |ids| ==> Reaches(all, ids[i])
    ensures NewBookmarks(all, ids).Ok? ==>
      forall i :: 0 <= i < |ids| ==> Earliest(all, ids[i], NewBookmarks(all, ids).value[i])
  {
    if |ids| > 0 {
      BisectEarliest(all, ids[0]);
      NewBookmarksFound(all, ids[1..]);
      var r := NewBookmarks(all, ids);
      if r.Ok? {
        var rest := NewBookmarks(all, ids[1..]).value;
        forall i | 0 < i < |ids| ensures Earliest(all, ids[i], r.value[i]) {
          assert r.value[i] == rest[i - 1] && ids[i] == ids[1..][i - 1];
        }
      }
      if forall i :: 0 <= i < |ids| ==> Reaches(all, ids[i]) {
        assert forall i :: 0 <= i < |ids[1..]| ==> Reaches(all, ids[1..][i]);
      } else {
        var i :| 0 <= i < |ids| && !Reaches(all, ids[i]);
        if i > 0 {
          assert !Reaches(all, ids[1..][i - 1]);
        }
      }
    }
  }

  // ---------------------------------------------------------------------------------------
  // Grouping by day.

  const SecondsPerDay := 86400

  /** The UTC date of a timestamp, counted in days since 1970-01-01: the date that
      `strftime('%Y-%m-%d')` writes out. */
  function Day(t: int): (d: int)
    ensures d * SecondsPerDay <= t < (d + 1) * SecondsPerDay
  {
    t / SecondsPerDay
  }

  /** Exactly one day holds a given timestamp. */
  lemma DayIsUnique(t: int, d: int)
    ensures Day(t) == d <==> d * SecondsPerDay <= t < (d + 1) * SecondsPerDay
  {
    var e := Day(t);
    if d < e {
      assert (d + 1) * SecondsPerDay <= e * SecondsPerDay;
    } else if e < d {
      assert (e + 1) * SecondsPerDay <= d * SecondsPerDay;
    }
  }

  /** A reference for a day's list: the ids of that day, in their order. */
  function IdsOnDay(ids: seq<int>, d: int): (r: seq<int>)
    ensures forall t :: t in r <==> t in ids && Day(t) == d
  {
    if |ids| == 0 then []
    else if Day(ids[0]) == d then [ids[0]] + IdsOnDay(ids[1..], d)
    else IdsOnDay(ids[1..], d)
  }

  /** Picking out one day's ids keeps them in increasing order. */
  lemma {:induction false} IdsOnDaySorted(ids: seq<int>, d: int)
    requires StrictlySorted(ids, IntLess)
    ensures StrictlySorted(IdsOnDay(ids, d), IntLess)
  {
    if |ids| > 0 {
      SortedTail(ids, IntLess);
      IdsOnDaySorted(ids[1..], d);
      var rest := IdsOnDay(ids[1..], d);
      if Day(ids[0]) == d {
        var r := [ids[0]] + rest;
        forall i, j | 0 <= i < j < |r| ensures IntLess(r[i], r[j]) {
          if i == 0 {
            assert r[j] in rest;
            var k :| 0 <= k < |ids[1..]| && ids[1..][k] == r[j];
            assert ids[k + 1] == r[j];
          } else {
            assert r[i] == rest[i - 1] && r[j] == rest[j - 1];
          }
        }
      }
    }
  }

  predicate IntLess(a: int, b: int) {
    a < b
  }

  lemma IntLessIsStrictTotalOrder()
    ensures StrictTotalOrder(IntLess)
  {
  }

  /** `sorted(added)`: the added ids, each once, in increasing order. */
  function SortedIds(s: set<int>): (r: seq<int>)
    ensures StrictlySorted(r, IntLess)
    ensures forall x :: x in r <==> x in s
  {
    IntLessIsStrictTotalOrder();
    SortedSet(s, IntLess)
  }

  /** A day's list so far, or the empty list a new day starts with. */
  function Bucket<V>(days: map<int, seq<V>>, d: int): seq<V> {
    if d in days then days[d] else []
  }

  /** `by_date[date_str].append(bookmark_id)`, id after id. */
  function GroupIds(ids: seq<int>, days: map<int, seq<int>>): map<int, seq<int>>
    decreases |ids|
  {
    if |ids| == 0 then days
    else
      var d := Day(ids[0]);
      GroupIds(ids[1..], days[d := Bucket(days, d) + [ids[0]]])
  }

  /** Each day's list grows by the ids of that day, in order, and a day appears once one of
      its ids has been seen. */
  lemma {:induction false} GroupIdsDay(ids: seq<int>, days: map<int, seq<int>>, d: int)
    ensures d in GroupIds(ids, days) <==> d in days || IdsOnDay(ids, d) != []
    ensures Bucket(GroupIds(ids, days), d) == Bucket(days, d) + IdsOnDay(ids, d)
    decreases |ids|
  {
    if |ids| > 0 {
      var d0 := Day(ids[0]);
      var days' := days[d0 := Bucket(days, d0) + [ids[0]]];
      GroupIdsDay(ids[1..], days', d);
      if d == d0 {
        assert Bucket(days', d) + IdsOnDay(ids[1..], d) == Bucket(days, d) + ([ids[0]] + IdsOnDay(ids[1..], d));
      } else {
        assert Bucket(days', d) == Bucket(days, d);
      }
    }
  }

  /** `new_bookmarks_by_date`, over the added ids in increasing order. */
  function NewBookmarksByDate(ids: seq<int>): map<int, seq<int>> {
    GroupIds(ids, map[])
  }

  /** The days listed are those of the ids, and each lists its ids, ascending when the ids
      come in increasing order, as `sorted(added)` gives them. */
  lemma NewBookmarksByDateGroups(ids: seq<int>, d: int)
    ensures d in NewBookmarksByDate(ids) <==> exists t :: t in ids && Day(t) == d
    ensures d in NewBookmarksByDate(ids) ==> NewBookmarksByDate(ids)[d] == IdsOnDay(ids, d)
    ensures d in NewBookmarksByDate(ids) && StrictlySorted(ids, IntLess) ==> StrictlySorted(NewBookmarksByDate(ids)[d], IntLess)
  {
    GroupIdsDay(ids, map[], d);
    if IdsOnDay(ids, d) != [] {
      var t := IdsOnDay(ids, d)[0];
      assert t in IdsOnDay(ids, d);
      assert t in ids && Day(t) == d;
    }
    if exists t :: t in ids && Day(t) == d {
      var t :| t in ids && Day(t) == d;
      assert t in IdsOnDay(ids, d);
    }
    if StrictlySorted(ids, IntLess) {
      IdsOnDaySorted(ids, d);
    }
  }

  /** A reference for a day's tag use: the bookmarks created on that day, in their order. */
  function OnDay(bs: seq<Bookmark>, d: int): (r: seq<Bookmark>)
    ensures forall b :: b in r <==> b in bs && Day(b.created) == d
  {
    if |bs| == 0 then []
    else if Day(bs[0].created) == d then [bs[0]] + OnDay(bs[1..], d)
    else OnDay(bs[1..], d)
  }

  /** The loop of `tags_usage_by_date`: a bookmark opens its day's counter, tags or not, and
      counts each of its tags there. */
  function TagDays(bs: seq<Bookmark>, days: map<int, Counter<string>>): map<int, Counter<string>>
    decreases |bs|
  {
    if |bs| == 0 then days
    else
      var d := Day(bs[0].created);
      TagDays(bs[1..], days[d := IncrementAll(Bucket(days, d), bs[0].tags)])
  }

  lemma {:induction false} TagDaysDay(bs: seq<Bookmark>, days: map<int, Counter<string>>, d: int, t: string)
    ensures d in TagDays(bs, days) <==> d in days || OnDay(bs, d) != []
    ensures Count(Bucket(TagDays(bs, days), d), t) == Count(Bucket(days, d), t) + multiset(AllTags(OnDay(bs, d)))[t]
    ensures Keys(Bucket(TagDays(bs, days), d)) == Keys(Bucket(days, d)) + Elements(AllTags(OnDay(bs, d)))
    decreases |bs|
  {
    if |bs| > 0 {
      var b := bs[0];
      var d0 := Day(b.created);
      var days' := days[d0 := IncrementAll(Bucket(days, d0), b.tags)];
      TagDaysDay(bs[1..], days', d, t);
      if d == d0 {
        IncrementAllCount(Bucket(days, d), b.tags, t);
        assert AllTags(OnDay(bs, d)) == b.tags + AllTags(OnDay(bs[1..], d));
      } else {
        assert Bucket(days', d) == Bucket(days, d);
      }
    }
  }

  /** `tags_usage_by_date`, over the new bookmarks. */
  function TagsUsageByDate(newOnes: seq<Bookmark>): map<int, Counter<string>> {
    TagDays(newOnes, map[])
  }

  /** Every day on which a new bookmark was created has a counter, even when none of that
      day's bookmarks has a tag; it holds that day's tags, each counted once per use. */
  lemma TagsUsageByDateCounts(newOnes: seq<Bookmark>, d: int, t: string)
    ensures d in TagsUsageByDate(newOnes) <==> exists b :: b in newOnes && Day(b.created) == d
    ensures d in TagsUsageByDate(newOnes) ==>
      && Count(TagsUsageByDate(newOnes)[d], t) == multiset(AllTags(OnDay(newOnes, d)))[t]
      && Keys(TagsUsageByDate(newOnes)[d]) == Elements(AllTags(OnDay(newOnes, d)))
  {
    TagDaysDay(newOnes, map[], d, t);
    if OnDay(newOnes, d) != [] {
      assert OnDay(newOnes, d)[0] in OnDay(newOnes, d);
    }
  }

  // ---------------------------------------------------------------------------------------
  // The differences of the three records.

  /** The items added since the previous week and those deleted, with their numbers. */
  function Changes<T>(now: CoreMetrics<T>, before: set<T>): (c: CoreMetrics<T>)
    ensures (before - c.deleted) + c.added == now.items
    ensures c.added !! before && c.deleted <= before && c.deleted !! now.items
    ensures c.addedCount - c.deletedCount == |now.items| - |before|
    ensures c.(added := now.added, addedCount := now.addedCount, deleted := now.deleted, deletedCount := now.deletedCount) == now
  {
    var added, deleted := now.items - before, before - now.items;
    NetChange(now.items, before);
    now.(added := added, addedCount := |added|, deleted := deleted, deletedCount := |deleted|)
  }

  lemma NetChange<T>(a: set<T>, b: set<T>)
    ensures |a - b| - |b - a| == |a| - |b|
  {
    assert a == (a - b) + (a * b) && (a - b) !! (a * b);
    assert b == (b - a) + (a * b) && (b - a) !! (a * b);
  }

  /** `delta / basis`, or `whenZero` where the division would raise ZeroDivisionError. */
  function Pct(delta: int, basis: int, whenZero: real): (r: real)
    ensures basis != 0 ==> r * basis as real == delta as real
    ensures basis == 0 ==> r == whenZero
  {
    if basis == 0 then whenZero else delta as real / basis as real
  }

  /** Bookmarks and folders against the previous week: the change in `count`, as a
      fraction of the previous count (1.0 when that was 0). */
  function CountedChange<T>(now: CoreMetrics<T>, before: CoreMetrics<T>): CoreMetrics<T> {
    var delta := now.count - before.count;
    Changes(now, before.items).(delta := delta, deltaPct := Pct(delta, before.count, 1.0))
  }

  /** Tags against the previous week: the change in the number of distinct tags, as a
      fraction of the previous number (0.0 when both are 0, 1.0 when only that was). */
  function TagChange(now: CoreMetrics<string>, before: CoreMetrics<string>): CoreMetrics<string> {
    var delta := |now.items| - |before.items|;
    Changes(now, before.items).(delta := delta, deltaPct := Pct(delta, |before.items|, if |now.items| == 0 then 0.0 else 1.0))
  }

  /** Bookmarks and folders of the very first week. `added_count` takes `count`, which
      exceeds the number of added items when two bookmarks share a creation time or two
      folders a path. */
  function CountedStart<T>(now: CoreMetrics<T>): CoreMetrics<T> {
    now.(delta := now.count, deltaPct := if now.count != 0 then 1.0 else 0.0,
         added := now.items, addedCount := now.count, deleted := {}, deletedCount := 0)
  }

  /** Tags of the very first week. */
  function TagStart(now: CoreMetrics<string>): CoreMetrics<string> {
    var delta := |now.items|;
    now.(delta := delta, deltaPct := if delta != 0 then 1.0 else 0.0,
         added := now.items, addedCount := |now.items|, deleted := {}, deletedCount := 0)
  }

  /** Against a previous week, the tag delta is the number of tags added less the number
      deleted; for bookmarks and folders the same holds when no two items share an
      identifier. */
  lemma ChangeIsNet<T>(now: CoreMetrics<T>, before: CoreMetrics<T>, tagsNow: CoreMetrics<string>, tagsBefore: CoreMetrics<string>)
    ensures var c := TagChange(tagsNow, tagsBefore); c.delta == c.addedCount - c.deletedCount
    ensures now.count == |now.items| && before.count == |before.items| ==>
      var c := CountedChange(now, before); c.delta == c.addedCount - c.deletedCount
  {
    var _ := Changes(now, before.items);
    var _ := Changes(tagsNow, tagsBefore.items);
  }

  /** The very first week's tags are what a comparison with an empty week gives. */
  lemma TagStartIsChangeFromNothing(now: CoreMetrics<string>)
    ensures TagStart(now) == TagChange(now, EmptyCore())
  {
  }

  /** The very first week's bookmarks and folders differ from a comparison with an empty
      week in two places only: `added_count` is the count rather than the number of
      distinct items, and a first week with nothing in it has a `delta_pct` of 0.0 where the
      comparison gives 1.0. */
  lemma CountedStartAgainstNothing<T>(now: CoreMetrics<T>)
    ensures CountedStart(now).(addedCount := |now.items|, deltaPct := 1.0) == CountedChange(now, EmptyCore())
    ensures now.count != 0 ==> CountedStart(now).deltaPct == CountedChange(now, EmptyCore()).deltaPct
    ensures now.count == 0 ==> CountedStart(now).deltaPct == 0.0 && CountedChange(now, EmptyCore()).deltaPct == 1.0
  {
  }

  /** The three records' differences: against `those` when there is a previous week, as a
      first week otherwise. */
  function Diff(these: Metrics, those: Option<Metrics>): Metrics {
    match those
    case Some(prev) =>
      these.(
        folders := these.folders.(core := CountedChange(these.folders.core, prev.folders.core)),
        bookmarks := these.bookmarks.(core := CountedChange(these.bookmarks.core, prev.bookmarks.core)),
        tags := these.tags.(core := TagChange(these.tags.core, prev.tags.core)))
    case None =>
      these.(
        folders := these.folders.(core := CountedStart(these.folders.core)),
        bookmarks := these.bookmarks.(core := CountedStart(these.bookmarks.core)),
        tags := these.tags.(core := TagStart(these.tags.core)))
  }

  /** `differentiate_metrics`: the records of `these` with their differences filled in, the
      new bookmarks looked up in `thisWeek`, and their grouping by day; or the IndexError
      of an added id later than every bookmark of the week. */
  function DifferentiateMetrics(thisWeek: Folder, these: Metrics, those: Option<Metrics>): (r: Result<Metrics>)
    ensures r.Err? ==> r.error == IndexError
    ensures r.Ok? ==>
      && r.value.folders == Diff(these, those).folders
      && r.value.bookmarks.core == Diff(these, those).bookmarks.core
      && r.value.tags.(tagsByDate := these.tags.tagsByDate) == Diff(these, those).tags
      && |r.value.bookmarks.newBookmarks| == |r.value.bookmarks.core.added|
      && (forall b :: b in r.value.bookmarks.newBookmarks ==> b in multiset(TreeBookmarks(thisWeek)))
      && r.value.bookmarks.newBookmarksByDate == NewBookmarksByDate(SortedIds(Diff(these, those).bookmarks.core.added))
      && r.value.tags.tagsByDate == TagsUsageByDate(r.value.bookmarks.newBookmarks)
  {
    var d := Diff(these, those);
    var ids := SortedIds(d.bookmarks.core.added);
    var all := AllBookmarksSorted(thisWeek);
    match NewBookmarks(all, ids)
    case Err(e) => Err(e)
    case Ok(newOnes) =>
      assert forall b :: b in newOnes ==> b in multiset(all);
      Ok(d.(
        bookmarks := d.bookmarks.(newBookmarks := newOnes, newBookmarksByDate := NewBookmarksByDate(ids)),
        tags := d.tags.(tagsByDate := TagsUsageByDate(newOnes))))
  }

  /** The ids-by-day table of a successful call: a day is listed exactly when an added id
      falls on it, with that day's ids in increasing order. */
  lemma DifferentiateByDate(thisWeek: Folder, these: Metrics, those: Option<Metrics>, d: int)
    ensures var r := DifferentiateMetrics(thisWeek, these, those);
      r.Ok? ==>
        var byDate := r.value.bookmarks.newBookmarksByDate;
        && (d in byDate <==> exists x :: x in r.value.bookmarks.core.added && Day(x) == d)
        && (d in byDate ==> StrictlySorted(byDate[d], IntLess)
                            && forall x :: x in byDate[d] <==> x in r.value.bookmarks.core.added && Day(x) == d)
  {
    var r := DifferentiateMetrics(thisWeek, these, those);
    if r.Ok? {
      var added := r.value.bookmarks.core.added;
      var ids := SortedIds(added);
      NewBookmarksByDateGroups(ids, d);
    }
  }

  /** The tags-by-day table of a successful call: a day has a counter exactly when a new
      bookmark was created on it, counting each tag once per use on that day. */
  lemma DifferentiateTagsByDate(thisWeek: Folder, these: Metrics, those: Option<Metrics>, d: int, t: string)
    ensures var r := DifferentiateMetrics(thisWeek, these, those);
      r.Ok? ==>
        var newOnes := r.value.bookmarks.newBookmarks;
        var byDate := r.value.tags.tagsByDate;
        && (d in byDate <==> exists b :: b in newOnes && Day(b.created) == d)
        && (d in byDate ==> Count(byDate[d], t) == multiset(AllTags(OnDay(newOnes, d)))[t])
  {
    var r := DifferentiateMetrics(thisWeek, these, those);
    if r.Ok? {
      TagsUsageByDateCounts(r.value.bookmarks.newBookmarks, d, t);
    }
  }

  /** The items of the new week are what remains of the previous week's after the
      deletions, together with the additions; with no previous week everything is added. */
  lemma DiffRoundTrip(these: Metrics, those: Option<Metrics>)
    ensures var d := Diff(these, those); var before := if those.Some? then those.value else EmptyMetrics;
      && (before.bookmarks.core.items - d.bookmarks.core.deleted) + d.bookmarks.core.added == these.bookmarks.core.items
      && (before.folders.core.items - d.folders.core.deleted) + d.folders.core.added == these.folders.core.items
      && (before.tags.core.items - d.tags.core.deleted) + d.tags.core.added == these.tags.core.items
      && d.bookmarks.core.added <= these.bookmarks.core.items
  {
    if those.Some? {
      var _ := Changes(these.bookmarks.core, those.value.bookmarks.core.items);
      var _ := Changes(these.folders.core, those.value.folders.core.items);
      var _ := Changes(these.tags.core, those.value.tags.core.items);
    }
  }

  function CreatedOf(bs: seq<Bookmark>): (r: seq<int>)
    ensures |r| == |bs| && forall i :: 0 <= i < |bs| ==> r[i] == bs[i].created
  {
    if |bs| == 0 then [] else [bs[0].created] + CreatedOf(bs[1..])
  }

  lemma {:induction false} CreatedTimesMembers(bs: seq<Bookmark>, x: int)
    ensures x in CreatedTimes(bs) <==> exists b :: b in bs && b.created == x
  {
    if |bs| > 0 {
      CreatedTimesMembers(bs[1..], x);
      if exists b :: b in bs[1..] && b.created == x {
        var b :| b in bs[1..] && b.created == x;
        assert b in bs;
      }
      if exists b :: b in bs && b.created == x {
        var b :| b in bs && b.created == x;
        assert b == bs[0] || b in bs[1..];
      }
    }
  }

  /** Some bookmark of the tree was created at `x`. */
  ghost predicate CreatedAt(week: Folder, x: int) {
    exists b :: b in TreeBookmarks(week) && b.created == x
  }

  /** When every added id is the creation time of a bookmark of the week, the lookup
      succeeds and finds, for each id, a bookmark created at exactly that id. */
  lemma DifferentiateExact(thisWeek: Folder, these: Metrics, those: Option<Metrics>)
    requires forall x :: x in Diff(these, those).bookmarks.core.added ==> CreatedAt(thisWeek, x)
    ensures var r := DifferentiateMetrics(thisWeek, these, those);
      && r.Ok?
      && StrictlySorted(CreatedOf(r.value.bookmarks.newBookmarks), IntLess)
      && forall x :: x in CreatedOf(r.value.bookmarks.newBookmarks) <==> x in r.value.bookmarks.core.added
  {
    var added := Diff(these, those).bookmarks.core.added;
    var ids := SortedIds(added);
    var all := AllBookmarksSorted(thisWeek);
    forall i | 0 <= i < |ids| ensures Occurs(all, ids[i]) {
      assert ids[i] in added;
      assert CreatedAt(thisWeek, ids[i]);
      var b :| b in TreeBookmarks(thisWeek) && b.created == ids[i];
      assert b in multiset(all);
    }
    LookupExact(all, ids);
  }

  /** Some bookmark of the list was created at `x`. */
  ghost predicate Occurs(all: seq<Bookmark>, x: int) {
    exists b :: b in all && b.created == x
  }

  /** Ids that are all creation times of the sorted list are all found, each at a bookmark
      created at exactly that id. */
  lemma LookupExact(all: seq<Bookmark>, ids: seq<int>)
    requires SortedBy(all, ByCreated)
    requires forall i :: 0 <= i < |ids| ==> Occurs(all, ids[i])
    ensures NewBookmarks(all, ids).Ok? && CreatedOf(NewBookmarks(all, ids).value) == ids
  {
    NewBookmarksFound(all, ids);
    var found := NewBookmarks(all, ids);
    assert found.Ok? by {
      forall i | 0 <= i < |ids| ensures Reaches(all, ids[i]) {
        var b :| b in all && b.created == ids[i];
      }
    }
    var newOnes := found.value;
    forall i | 0 <= i < |ids| ensures newOnes[i].created == ids[i] {
      var b :| b in all && b.created == ids[i];
      assert Earliest(all, ids[i], newOnes[i]);
    }
    assert CreatedOf(newOnes) == ids;
  }

  /** Every bookmark `gather_metrics` identifies is a bookmark of the tree, so every id it
      records as added is a creation time of the tree. */
  lemma GatheredIdsExist(week: Folder, those: Option<Metrics>)
    requires GatherMetrics(week).Ok?
    ensures forall x :: x in Diff(GatherMetrics(week).value, those).bookmarks.core.added ==> CreatedAt(week, x)
  {
    var m := GatherMetrics(week).value;
    var walked := AllBookmarks(TreePlaces(week));
    assert m.bookmarks.core.items == CreatedTimes(walked) by {
      GatherResult(week);
      GatherWalk(week);
    }
    DiffRoundTrip(m, those);
    PlacesBookmarks(week, [""]);
    forall x | x in Diff(m, those).bookmarks.core.added ensures CreatedAt(week, x) {
      CreatedTimesMembers(walked, x);
      var b :| b in walked && b.created == x;
      assert b in multiset(TreeBookmarks(week));
    }
  }

  /** For the records `gather_metrics` takes from the same tree, the lookup never fails:
      the new bookmarks are bookmarks created at exactly the added ids, in increasing
      order. */
  lemma DifferentiateGathered(week: Folder, those: Option<Metrics>)
    requires GatherMetrics(week).Ok?
    ensures var r := DifferentiateMetrics(week, GatherMetrics(week).value, those);
      && r.Ok?
      && StrictlySorted(CreatedOf(r.value.bookmarks.newBookmarks), IntLess)
      && forall x :: x in CreatedOf(r.value.bookmarks.newBookmarks) <==> x in r.value.bookmarks.core.added
  {
    GatheredIdsExist(week, those);
    DifferentiateExact(week, GatherMetrics(week).value, those);
  }
}

/** `_gather_metrics`, `average_size` and `gather_metrics`: one walk over the tree that
    fills the folder, bookmark and tag records, then the averages and rankings.

    The walk visits each folder before its sub-folders and its sub-folders in order. It is
    modelled as written, by recursion, and shown equal to a fold of one folder's update over
    the folders listed in that order (`Places`); what the walk computes is stated on the
    fold.
 */
module Gather {
  import opened Wrappers
  import opened Text
  import opened Collections
  import opened Bookmarks
  import opened MetricsData
  import opened Ranking
  import opened FolderSizes

  function Min(a: int, b: int): int {
    if b < a then b else a
  }

  function Max(a: int, b: int): int {
    if b > a then b else a
  }

  /** `'::'.join(path)`: the records' identifier of the folder at `path`. */
  function FolderId(path: seq<string>): string {
    Join(path, "::")
  }

  /** `[x for x in node.content if isinstance(x, Bookmark)]`. */
  function BookmarksOf(content: seq<Node>): (bs: seq<Bookmark>)
    ensures |bs| <= |content|
    ensures forall b :: b in bs <==> BookmarkNode(b) in content
  {
    if |content| == 0 then []
    else
      assert content == [content[0]] + content[1..];
      match content[0]
      case BookmarkNode(b) => [b] + BookmarksOf(content[1..])
      case FolderNode(_) => BookmarksOf(content[1..])
  }

  /** The size table's count of a folder's non-folder entries is the number of bookmarks
      the walk takes from it. */
  lemma {:induction false} NonFolderCountIsBookmarks(content: seq<Node>)
    ensures NonFolderCount(content) == |BookmarksOf(content)|
  {
    if |content| > 0 {
      NonFolderCountIsBookmarks(content[1..]);
    }
  }

  // ---------------------------------------------------------------------------------------
  // One folder's update.

  /** Lines 88-95: one bookmark's tags are counted, and its tag count taken into the
      bounds. */
  function TagBookmark(b: Bookmark, tags: TagsMetrics): TagsMetrics {
    var n := |b.tags|;
    tags.(
      core := tags.core.(count := tags.core.count + n, items := tags.core.items + Elements(b.tags)),
      size := tags.size.(
        sizes := IncrementAll(tags.size.sizes, b.tags),
        maxSize := Max(tags.size.maxSize, n),
        minSize := Min(tags.size.minSize, n)))
  }

  /** What one bookmark adds to the tag record. */
  lemma TagBookmarkStep(b: Bookmark, tags: TagsMetrics)
    ensures var r := TagBookmark(b, tags);
      && r.core.count == tags.core.count + |b.tags|
      && r.core.items == tags.core.items + Elements(b.tags)
      && Keys(r.size.sizes) == Keys(tags.size.sizes) + Elements(b.tags)
      && Total(r.size.sizes) == Total(tags.size.sizes) + |b.tags|
      && r.size.sizes == IncrementAll(tags.size.sizes, b.tags)
      && RunningMax(r.size.maxSize, tags.size.maxSize, [|b.tags|])
      && RunningMin(r.size.minSize, tags.size.minSize, [|b.tags|])
  {
  }

  /** Starting from the empty records, the first folder's size becomes the largest size
      and, being at most `MaxSize`, the smallest; likewise for the first bookmark's tag
      count. */
  lemma FirstSizeTaken(p: Place, b: Bookmark)
    ensures var folders := CountFolder(p, EmptyMetrics.folders);
      && folders.size.maxSize == |p.folder.content|
      && folders.size.minSize == (if |p.folder.content| < MaxSize then |p.folder.content| else MaxSize)
    ensures var tags := TagBookmark(b, EmptyMetrics.tags);
      && tags.size.maxSize == |b.tags|
      && tags.size.minSize == (if |b.tags| < MaxSize then |b.tags| else MaxSize)
  {
  }

  /** Lines 85-95: each bookmark adds its creation time to the bookmark record and its tags
      to the tag record. */
  function TallyBookmarks(bs: seq<Bookmark>, bookmarks: CoreMetrics<int>, tags: TagsMetrics): (r: (CoreMetrics<int>, TagsMetrics)) {
    if |bs| == 0 then (bookmarks, tags)
    else TallyBookmarks(bs[1..], bookmarks.(items := bookmarks.items + {bs[0].created}), TagBookmark(bs[0], tags))
  }

  /** A folder and the path `_gather_metrics` is called with. */
  datatype Place = Place(folder: Folder, path: seq<string>)

  /** Lines 66-81: the folder record counts the folder, records its size under its
      identifier and takes its size and depth into the bounds. */
  function CountFolder(p: Place, folders: FoldersMetrics): FoldersMetrics {
    var id := FolderId(p.path);
    var size := |p.folder.content|;
    folders.(
      core := folders.core.(count := folders.core.count + 1, items := folders.core.items + {id}),
      size := folders.size.(
        sizes := Store(folders.size.sizes, id, size),
        maxSize := Max(folders.size.maxSize, size),
        minSize := Min(folders.size.minSize, size)),
      maxDepth := Max(folders.maxDepth, p.folder.depth))
  }

  /** What one folder adds to the folder record. */
  lemma CountFolderStep(p: Place, folders: FoldersMetrics)
    ensures var r := CountFolder(p, folders);
      && r.core.count == folders.core.count + 1
      && r.core.items == folders.core.items + {FolderId(p.path)}
      && Count(r.size.sizes, FolderId(p.path)) == |p.folder.content|
      && (forall k :: k != FolderId(p.path) ==> Count(r.size.sizes, k) == Count(folders.size.sizes, k))
      && Keys(r.size.sizes) == Keys(folders.size.sizes) + {FolderId(p.path)}
      && RunningMax(r.size.maxSize, folders.size.maxSize, [|p.folder.content|])
      && RunningMin(r.size.minSize, folders.size.minSize, [|p.folder.content|])
      && RunningMax(r.maxDepth, folders.maxDepth, [p.folder.depth])
  {
  }

  /** Lines 66-95: what visiting one folder adds to the records. */
  function VisitFolder(p: Place, m: Metrics): Metrics {
    var tallied := TallyFolder(p, m);
    Metrics(CountFolder(p, m.folders), m.bookmarks.(core := tallied.0), tallied.1)
  }

  /** Lines 84-95: the folder's bookmarks are counted, then tallied one by one. */
  function TallyFolder(p: Place, m: Metrics): (CoreMetrics<int>, TagsMetrics) {
    var bs := BookmarksOf(p.folder.content);
    TallyBookmarks(bs, m.bookmarks.core.(count := m.bookmarks.core.count + |bs|), m.tags)
  }

  // ---------------------------------------------------------------------------------------
  // The walk, as written.

  /** `_gather_metrics(node, path, metrics)`. */
  function GatherFolder(f: Folder, path: seq<string>, m: Metrics): Metrics
    decreases f, |f.content| + 1
  {
    GatherSubfolders(f, 0, path, VisitFolder(Place(f, path), m))
  }

  /** Lines 97-102: the sub-folders among `f.content[i..]`, each with its name added to the
      path. */
  function GatherSubfolders(f: Folder, i: nat, path: seq<string>, m: Metrics): Metrics
    requires i <= |f.content|
    decreases f, |f.content| - i
  {
    if i == |f.content| then m
    else
      match f.content[i]
      case FolderNode(g) => GatherSubfolders(f, i + 1, path, GatherFolder(g, path + [g.name], m))
      case BookmarkNode(_) => GatherSubfolders(f, i + 1, path, m)
  }

  /** Every folder of the tree with its path, each folder before its sub-folders. */
  function Places(f: Folder, path: seq<string>): (r: seq<Place>)
    ensures |r| > 0 && r[0] == Place(f, path)
    decreases f, |f.content| + 1
  {
    [Place(f, path)] + SubPlaces(f, 0, path)
  }

  function SubPlaces(f: Folder, i: nat, path: seq<string>): seq<Place>
    requires i <= |f.content|
    decreases f, |f.content| - i
  {
    if i == |f.content| then []
    else
      match f.content[i]
      case FolderNode(g) => Places(g, path + [g.name]) + SubPlaces(f, i + 1, path)
      case BookmarkNode(_) => SubPlaces(f, i + 1, path)
  }

  /** The updates of the listed folders, in order. */
  function VisitAll(ps: seq<Place>, m: Metrics): Metrics {
    if |ps| == 0 then m else VisitAll(ps[1..], VisitFolder(ps[0], m))
  }

  lemma {:induction false} VisitAllAppend(a: seq<Place>, b: seq<Place>, m: Metrics)
    ensures VisitAll(a + b, m) == VisitAll(b, VisitAll(a, m))
  {
    if |a| == 0 {
      assert a + b == b;
    } else {
      assert (a + b)[1..] == a[1..] + b;
      VisitAllAppend(a[1..], b, VisitFolder(a[0], m));
    }
  }

  /** The recursive walk updates the records folder by folder, in the order of `Places`. */
  lemma {:induction false} GatherFolderVisitsAll(f: Folder, path: seq<string>, m: Metrics)
    ensures GatherFolder(f, path, m) == VisitAll(Places(f, path), m)
    decreases f, |f.content| + 1
  {
    GatherSubfoldersVisitAll(f, 0, path, VisitFolder(Place(f, path), m));
    assert Places(f, path)[1..] == SubPlaces(f, 0, path);
  }

  lemma {:induction false} GatherSubfoldersVisitAll(f: Folder, i: nat, path: seq<string>, m: Metrics)
    requires i <= |f.content|
    ensures GatherSubfolders(f, i, path, m) == VisitAll(SubPlaces(f, i, path), m)
    decreases f, |f.content| - i
  {
    if i < |f.content| {
      match f.content[i]
      case FolderNode(g) =>
        var below := GatherFolder(g, path + [g.name], m);
        GatherFolderVisitsAll(g, path + [g.name], m);
        GatherSubfoldersVisitAll(f, i + 1, path, below);
        VisitAllAppend(Places(g, path + [g.name]), SubPlaces(f, i + 1, path), m);
      case BookmarkNode(_) =>
        GatherSubfoldersVisitAll(f, i + 1, path, m);
    }
  }

  // ---------------------------------------------------------------------------------------
  // References the records are measured against.

  /** The identifiers of the listed folders. */
  function Ids(ps: seq<Place>): set<string> {
    if |ps| == 0 then {} else {FolderId(ps[0].path)} + Ids(ps[1..])
  }

  function Sizes(ps: seq<Place>): (s: seq<int>)
    ensures |s| == |ps| && forall i :: 0 <= i < |ps| ==> s[i] == |ps[i].folder.content|
  {
    if |ps| == 0 then [] else [|ps[0].folder.content|] + Sizes(ps[1..])
  }

  function Depths(ps: seq<Place>): (s: seq<int>)
    ensures |s| == |ps| && forall i :: 0 <= i < |ps| ==> s[i] == ps[i].folder.depth
  {
    if |ps| == 0 then [] else [ps[0].folder.depth] + Depths(ps[1..])
  }

  /** The bookmarks directly in the listed folders. */
  function AllBookmarks(ps: seq<Place>): seq<Bookmark> {
    if |ps| == 0 then [] else BookmarksOf(ps[0].folder.content) + AllBookmarks(ps[1..])
  }

  function CreatedTimes(bs: seq<Bookmark>): set<int> {
    if |bs| == 0 then {} else {bs[0].created} + CreatedTimes(bs[1..])
  }

  /** Every tag use, bookmark after bookmark. */
  function AllTags(bs: seq<Bookmark>): seq<string> {
    if |bs| == 0 then [] else bs[0].tags + AllTags(bs[1..])
  }

  function TagCounts(bs: seq<Bookmark>): (s: seq<int>)
    ensures |s| == |bs| && forall i :: 0 <= i < |bs| ==> s[i] == |bs[i].tags|
  {
    if |bs| == 0 then [] else [|bs[0].tags|] + TagCounts(bs[1..])
  }

  /** `r` is what repeated `max` leaves, starting from `start`, once it has taken in every
      value of `s`. */
  ghost predicate RunningMax(r: int, start: int, s: seq<int>) {
    && start <= r
    && (forall x :: x in s ==> x <= r)
    && (r == start || r in s)
  }

  ghost predicate RunningMin(r: int, start: int, s: seq<int>) {
    && r <= start
    && (forall x :: x in s ==> r <= x)
    && (r == start || r in s)
  }

  lemma RunningMaxAppend(r1: int, start: int, a: seq<int>, r2: int, b: seq<int>)
    requires RunningMax(r1, start, a) && RunningMax(r2, r1, b)
    ensures RunningMax(r2, start, a + b)
  {
  }

  lemma RunningMinAppend(r1: int, start: int, a: seq<int>, r2: int, b: seq<int>)
    requires RunningMin(r1, start, a) && RunningMin(r2, r1, b)
    ensures RunningMin(r2, start, a + b)
  {
  }

  lemma {:induction false} AllTagsAppend(a: seq<Bookmark>, b: seq<Bookmark>)
    ensures AllTags(a + b) == AllTags(a) + AllTags(b)
  {
    if |a| == 0 {
      assert a + b == b;
    } else {
      assert (a + b)[1..] == a[1..] + b;
      AllTagsAppend(a[1..], b);
    }
  }

  lemma {:induction false} CreatedTimesAppend(a: seq<Bookmark>, b: seq<Bookmark>)
    ensures CreatedTimes(a + b) == CreatedTimes(a) + CreatedTimes(b)
  {
    if |a| == 0 {
      assert a + b == b;
    } else {
      assert (a + b)[1..] == a[1..] + b;
      CreatedTimesAppend(a[1..], b);
    }
  }

  // ---------------------------------------------------------------------------------------
  // What the bookmark loop does.

  /** The bookmark record gains the creation times, and nothing else of it changes. */
  lemma {:induction false} TallyCreated(bs: seq<Bookmark>, bookmarks: CoreMetrics<int>, tags: TagsMetrics)
    ensures TallyBookmarks(bs, bookmarks, tags).0 == bookmarks.(items := bookmarks.items + CreatedTimes(bs))
  {
    if |bs| > 0 {
      TallyCreated(bs[1..], bookmarks.(items := bookmarks.items + {bs[0].created}), TagBookmark(bs[0], tags));
    }
  }

  /** The tag record after the listed bookmarks, one after the other. */
  function TagBookmarks(bs: seq<Bookmark>, tags: TagsMetrics): TagsMetrics {
    if |bs| == 0 then tags else TagBookmarks(bs[1..], TagBookmark(bs[0], tags))
  }

  /** The bookmark loop leaves the tag record as the bookmarks' tags alone make it. */
  lemma {:induction false} TallyBookmarksTags(bs: seq<Bookmark>, bookmarks: CoreMetrics<int>, tags: TagsMetrics)
    ensures TallyBookmarks(bs, bookmarks, tags).1 == TagBookmarks(bs, tags)
  {
    if |bs| > 0 {
      TallyBookmarksTags(bs[1..], bookmarks.(items := bookmarks.items + {bs[0].created}), TagBookmark(bs[0], tags));
    }
  }

  lemma {:induction false} TagBookmarksAppend(a: seq<Bookmark>, b: seq<Bookmark>, tags: TagsMetrics)
    ensures TagBookmarks(a + b, tags) == TagBookmarks(b, TagBookmarks(a, tags))
  {
    if |a| == 0 {
      assert a + b == b;
    } else {
      assert (a + b)[1..] == a[1..] + b;
      TagBookmarksAppend(a[1..], b, TagBookmark(a[0], tags));
    }
  }

  /** The tag record counts every tag use: `count` and the sum of `sizes` grow by the
      number of uses, and the tags used join `items` and the keys of `sizes`. */
  lemma {:induction false} TallyTags(bs: seq<Bookmark>, tags: TagsMetrics)
    ensures var r := TagBookmarks(bs, tags);
      && r.core.count == tags.core.count + |AllTags(bs)|
      && r.core.items == tags.core.items + Elements(AllTags(bs))
      && Keys(r.size.sizes) == Keys(tags.size.sizes) + Elements(AllTags(bs))
      && Total(r.size.sizes) == Total(tags.size.sizes) + |AllTags(bs)|
  {
    if |bs| > 0 {
      TagBookmarkStep(bs[0], tags);
      TallyTags(bs[1..], TagBookmark(bs[0], tags));
      assert AllTags(bs) == bs[0].tags + AllTags(bs[1..]);
    }
  }

  /** Each tag's size goes up by its number of uses. */
  lemma {:induction false} TallyTagCount(bs: seq<Bookmark>, tags: TagsMetrics, t: string)
    ensures Count(TagBookmarks(bs, tags).size.sizes, t) == Count(tags.size.sizes, t) + multiset(AllTags(bs))[t]
  {
    if |bs| > 0 {
      TagBookmarkStep(bs[0], tags);
      IncrementAllCount(tags.size.sizes, bs[0].tags, t);
      TallyTagCount(bs[1..], TagBookmark(bs[0], tags), t);
      assert AllTags(bs) == bs[0].tags + AllTags(bs[1..]);
    }
  }

  /** The tag record's `max_size` and `min_size` take in the tag count of every
      bookmark. */
  lemma {:induction false} TallyTagBounds(bs: seq<Bookmark>, tags: TagsMetrics)
    ensures var r := TagBookmarks(bs, tags);
      && RunningMax(r.size.maxSize, tags.size.maxSize, TagCounts(bs))
      && RunningMin(r.size.minSize, tags.size.minSize, TagCounts(bs))
  {
    if |bs| > 0 {
      var next := TagBookmark(bs[0], tags);
      TagBookmarkStep(bs[0], tags);
      TallyTagBounds(bs[1..], next);
      var r := TagBookmarks(bs[1..], next);
      RunningMaxAppend(next.size.maxSize, tags.size.maxSize, [|bs[0].tags|], r.size.maxSize, TagCounts(bs[1..]));
      RunningMinAppend(next.size.minSize, tags.size.minSize, [|bs[0].tags|], r.size.minSize, TagCounts(bs[1..]));
    }
  }

  // ---------------------------------------------------------------------------------------
  // What visiting the listed folders does.

  /** Every listed folder is counted once and recorded under its identifier. */
  lemma {:induction false} VisitAllFolders(ps: seq<Place>, m: Metrics)
    ensures var r := VisitAll(ps, m).folders;
      && r.core.count == m.folders.core.count + |ps|
      && r.core.items == m.folders.core.items + Ids(ps)
      && Keys(r.size.sizes) == Keys(m.folders.size.sizes) + Ids(ps)
  {
    if |ps| > 0 {
      CountFolderStep(ps[0], m.folders);
      VisitFolderParts(ps[0], m);
      VisitAllFolders(ps[1..], VisitFolder(ps[0], m));
    }
  }

  /** A folder's size stays recorded unless a later folder has the same identifier: the
      last write wins. */
  lemma {:induction false} VisitAllKeepsSize(ps: seq<Place>, m: Metrics, id: string)
    requires id !in Ids(ps)
    ensures Count(VisitAll(ps, m).folders.size.sizes, id) == Count(m.folders.size.sizes, id)
  {
    if |ps| > 0 {
      CountFolderStep(ps[0], m.folders);
      VisitFolderParts(ps[0], m);
      VisitAllKeepsSize(ps[1..], VisitFolder(ps[0], m), id);
    }
  }

  /** `min_size` and `max_size` take in every listed folder's size, `max_depth` every
      folder's depth. */
  lemma {:induction false} VisitAllFolderBounds(ps: seq<Place>, m: Metrics)
    ensures var r := VisitAll(ps, m).folders;
      && RunningMax(r.size.maxSize, m.folders.size.maxSize, Sizes(ps))
      && RunningMin(r.size.minSize, m.folders.size.minSize, Sizes(ps))
      && RunningMax(r.maxDepth, m.folders.maxDepth, Depths(ps))
  {
    if |ps| > 0 {
      var next := VisitFolder(ps[0], m);
      CountFolderStep(ps[0], m.folders);
      VisitFolderParts(ps[0], m);
      VisitAllFolderBounds(ps[1..], next);
      var r := VisitAll(ps[1..], next).folders;
      RunningMaxAppend(next.folders.size.maxSize, m.folders.size.maxSize, [|ps[0].folder.content|], r.size.maxSize, Sizes(ps[1..]));
      RunningMinAppend(next.folders.size.minSize, m.folders.size.minSize, [|ps[0].folder.content|], r.size.minSize, Sizes(ps[1..]));
      RunningMaxAppend(next.folders.maxDepth, m.folders.maxDepth, [ps[0].folder.depth], r.maxDepth, Depths(ps[1..]));
    }
  }

  lemma VisitFolderParts(p: Place, m: Metrics)
    ensures VisitFolder(p, m).folders == CountFolder(p, m.folders)
    ensures VisitFolder(p, m).bookmarks.core == TallyFolder(p, m).0
    ensures VisitFolder(p, m).tags == TallyFolder(p, m).1
  {
  }

  lemma TallyFolderBookmarks(p: Place, m: Metrics, bs: seq<Bookmark>, start: CoreMetrics<int>)
    requires bs == BookmarksOf(p.folder.content)
    requires start == m.bookmarks.core.(count := m.bookmarks.core.count + |bs|)
    ensures TallyFolder(p, m) == TallyBookmarks(bs, start, m.tags)
  {
  }

  /** Visiting a folder adds its bookmarks to the bookmark record. */
  lemma TallyFolderCreated(p: Place, m: Metrics)
    ensures var bs := BookmarksOf(p.folder.content); var r := TallyFolder(p, m).0;
      && r.count == m.bookmarks.core.count + |bs|
      && r.items == m.bookmarks.core.items + CreatedTimes(bs)
  {
    var bs := BookmarksOf(p.folder.content);
    var start := m.bookmarks.core.(count := m.bookmarks.core.count + |bs|);
    TallyFolderBookmarks(p, m, bs, start);
    TallyCreated(bs, start, m.tags);
  }

  /** Visiting a folder adds the tags of its bookmarks to the tag record. */
  lemma TallyFolderTags(p: Place, m: Metrics)
    ensures TallyFolder(p, m).1 == TagBookmarks(BookmarksOf(p.folder.content), m.tags)
  {
    var bs := BookmarksOf(p.folder.content);
    var start := m.bookmarks.core.(count := m.bookmarks.core.count + |bs|);
    TallyFolderBookmarks(p, m, bs, start);
    TallyBookmarksTags(bs, start, m.tags);
  }

  /** The bookmark record counts the bookmarks of the listed folders and gathers their
      creation times. */
  lemma {:induction false} VisitAllBookmarks(ps: seq<Place>, m: Metrics)
    ensures var r := VisitAll(ps, m).bookmarks.core;
      && r.count == m.bookmarks.core.count + |AllBookmarks(ps)|
      && r.items == m.bookmarks.core.items + CreatedTimes(AllBookmarks(ps))
  {
    if |ps| > 0 {
      var bs := BookmarksOf(ps[0].folder.content);
      var next := VisitFolder(ps[0], m);
      VisitFolderParts(ps[0], m);
      TallyFolderCreated(ps[0], m);
      VisitAllBookmarks(ps[1..], next);
      assert AllBookmarks(ps) == bs + AllBookmarks(ps[1..]);
      CreatedTimesAppend(bs, AllBookmarks(ps[1..]));
    }
  }

  /** Visiting the listed folders leaves the tag record as their bookmarks' tags make it. */
  lemma {:induction false} VisitAllTags(ps: seq<Place>, m: Metrics)
    ensures VisitAll(ps, m).tags == TagBookmarks(AllBookmarks(ps), m.tags)
  {
    if |ps| > 0 {
      var bs := BookmarksOf(ps[0].folder.content);
      var rest := AllBookmarks(ps[1..]);
      var next := VisitFolder(ps[0], m);
      calc {
        VisitAll(ps, m).tags;
        VisitAll(ps[1..], next).tags;
        { VisitAllTags(ps[1..], next); }
        TagBookmarks(rest, next.tags);
        { VisitFolderParts(ps[0], m); TallyFolderTags(ps[0], m); }
        TagBookmarks(rest, TagBookmarks(bs, m.tags));
        { TagBookmarksAppend(bs, rest, m.tags); }
        TagBookmarks(bs + rest, m.tags);
        { assert AllBookmarks(ps) == bs + rest; }
        TagBookmarks(AllBookmarks(ps), m.tags);
      }
    }
  }

  // ---------------------------------------------------------------------------------------
  // `average_size` and `gather_metrics`.

  /** `average_size`: the sum of the sizes over the number of entries; no entries is a
      ZeroDivisionError. */
  function AverageSize(s: SizeMetrics): (r: Result<real>)
    ensures r.Err? <==> |s.sizes| == 0
    ensures r.Err? ==> r.error == ZeroDivision
    ensures r.Ok? ==> r.value * (|s.sizes| as real) == Total(s.sizes) as real
  {
    if |s.sizes| == 0 then Err(ZeroDivision)
    else Ok(Total(s.sizes) as real / |s.sizes| as real)
  }

  /** How many folders `gather_metrics` ranks at each end. */
  const FolderRankCount := 5

  /** How many tags `gather_metrics` ranks at each end. */
  const TagRankCount := 25

  /** `gather_metrics(week)`: the walk from the path `['']`, then the averages (tags first,
      so a tree with no tags at all fails there), the number of distinct tags, and the
      largest and smallest folders and tags. */
  function GatherMetrics(week: Folder): Result<Metrics> {
    var m := GatherFolder(week, [""], EmptyMetrics);
    match AverageSize(m.tags.size)
    case Err(e) => Err(e)
    case Ok(tagsAverage) =>
      match AverageSize(m.folders.size)
      case Err(e) => Err(e)
      case Ok(foldersAverage) =>
        var (folderTop, folderBottom) := LargestAndSmallest(FolderSizes.FolderSizes(week), FolderRankCount);
        var (tagTop, tagBottom) := LargestAndSmallest(m.tags.size.sizes, TagRankCount);
        Ok(Metrics(
          m.folders.(size := m.folders.size.(avgSize := foldersAverage, topN := folderTop, bottomN := folderBottom)),
          m.bookmarks,
          m.tags.(
            size := m.tags.size.(avgSize := tagsAverage, topN := tagTop, bottomN := tagBottom),
            uniqueTagsCount := |m.tags.core.items|)))
  }

  /** The folders of the tree, each before its sub-folders, with the paths the walk gives
      them. */
  function TreePlaces(week: Folder): seq<Place> {
    Places(week, [""])
  }

  /** The tag uses of every bookmark in the tree. */
  function TreeTags(week: Folder): seq<string> {
    AllTags(AllBookmarks(TreePlaces(week)))
  }

  lemma KeysEmpty<V>(c: seq<(string, V)>)
    ensures Keys(c) == {} <==> |c| == 0
  {
    if |c| > 0 {
      assert c[0].0 in Keys(c);
    }
  }

  /** The walk's records, before the averages and rankings. */
  lemma GatherWalk(week: Folder)
    ensures var m := GatherFolder(week, [""], EmptyMetrics); var uses := TreeTags(week);
      && m.folders.core.count == |TreePlaces(week)|
      && m.folders.core.items == Ids(TreePlaces(week)) == Keys(m.folders.size.sizes)
      && m.bookmarks.core.count == |AllBookmarks(TreePlaces(week))|
      && m.bookmarks.core.items == CreatedTimes(AllBookmarks(TreePlaces(week)))
      && m.tags.core.count == |uses| == Total(m.tags.size.sizes)
      && m.tags.core.items == Elements(uses) == Keys(m.tags.size.sizes)
      && (forall t :: Count(m.tags.size.sizes, t) == multiset(uses)[t])
  {
    GatherFolderVisitsAll(week, [""], EmptyMetrics);
    VisitAllFolders(TreePlaces(week), EmptyMetrics);
    VisitAllBookmarks(TreePlaces(week), EmptyMetrics);
    VisitAllTags(TreePlaces(week), EmptyMetrics);
    TallyTags(AllBookmarks(TreePlaces(week)), EmptyMetrics.tags);
    forall t ensures Count(GatherFolder(week, [""], EmptyMetrics).tags.size.sizes, t) == multiset(TreeTags(week))[t] {
      TallyTagCount(AllBookmarks(TreePlaces(week)), EmptyMetrics.tags, t);
    }
  }

  /** `gather_metrics` fails, with ZeroDivisionError, exactly when no bookmark of the tree
      has a tag. */
  lemma GatherFailsWithoutTags(week: Folder)
    ensures GatherMetrics(week).Err? <==> |TreeTags(week)| == 0
    ensures GatherMetrics(week).Err? ==> GatherMetrics(week).error == ZeroDivision
  {
    var m := GatherFolder(week, [""], EmptyMetrics);
    GatherWalk(week);
    KeysEmpty(m.tags.size.sizes);
    KeysEmpty(m.folders.size.sizes);
    assert FolderId(TreePlaces(week)[0].path) in Ids(TreePlaces(week));
  }

  /** What `gather_metrics` returns: the walk's records (counts, sets, sizes, bounds and
      depth, which GatherWalk and GatherBounds describe), the average sizes, the number of
      distinct tags used, and the rankings of the folder table (at most 5 names unless
      tied) and of the tag sizes (25). */
  lemma GatherResult(week: Folder)
    requires GatherMetrics(week).Ok?
    ensures var r := GatherMetrics(week).value; var m := GatherFolder(week, [""], EmptyMetrics);
      && r.folders.core == m.folders.core && r.folders.maxDepth == m.folders.maxDepth
      && r.bookmarks == m.bookmarks && r.tags.core == m.tags.core
      && r.folders.size.sizes == m.folders.size.sizes && r.tags.size.sizes == m.tags.size.sizes
      && r.folders.size.minSize == m.folders.size.minSize && r.folders.size.maxSize == m.folders.size.maxSize
      && r.tags.size.minSize == m.tags.size.minSize && r.tags.size.maxSize == m.tags.size.maxSize
      && r.tags.uniqueTagsCount == |Elements(TreeTags(week))|
      && AverageSize(r.tags.size) == Ok(r.tags.size.avgSize) && Total(r.tags.size.sizes) == |TreeTags(week)|
      && AverageSize(r.folders.size) == Ok(r.folders.size.avgSize)
      && (r.folders.size.topN, r.folders.size.bottomN) == LargestAndSmallest(FolderSizes.FolderSizes(week), FolderRankCount)
      && (r.tags.size.topN, r.tags.size.bottomN) == LargestAndSmallest(r.tags.size.sizes, TagRankCount)
  {
    var m := GatherFolder(week, [""], EmptyMetrics);
    var r := GatherMetrics(week).value;
    GatherWalk(week);
    var tagsAverage := AverageSize(m.tags.size);
    var foldersAverage := AverageSize(m.folders.size);
    assert tagsAverage.Ok? && foldersAverage.Ok?;
    assert r.tags.size == m.tags.size.(avgSize := tagsAverage.value, topN := r.tags.size.topN, bottomN := r.tags.size.bottomN);
    assert r.folders.size == m.folders.size.(avgSize := foldersAverage.value, topN := r.folders.size.topN, bottomN := r.folders.size.bottomN);
  }

  /** The walk's bounds: every folder's size lies between the folder record's `min_size`
      and `max_size`, every bookmark's tag count between the tag record's, and
      `max_depth` is the deepest folder's depth (0 if none is deeper). */
  lemma GatherBounds(week: Folder)
    ensures var m := GatherFolder(week, [""], EmptyMetrics); var ps := TreePlaces(week);
      && RunningMax(m.folders.size.maxSize, 0, Sizes(ps))
      && RunningMin(m.folders.size.minSize, MaxSize, Sizes(ps))
      && RunningMax(m.folders.maxDepth, 0, Depths(ps))
      && RunningMax(m.tags.size.maxSize, 0, TagCounts(AllBookmarks(ps)))
      && RunningMin(m.tags.size.minSize, MaxSize, TagCounts(AllBookmarks(ps)))
  {
    GatherFolderVisitsAll(week, [""], EmptyMetrics);
    VisitAllFolderBounds(TreePlaces(week), EmptyMetrics);
    VisitAllTags(TreePlaces(week), EmptyMetrics);
    TallyTagBounds(AllBookmarks(TreePlaces(week)), EmptyMetrics.tags);
  }

  /** The root is recorded under `""` with its own size: every other folder's identifier
      has a `::` after the root's empty name, so no later write replaces it. */
  lemma RootSizeRecorded(week: Folder)
    ensures var m := GatherFolder(week, [""], EmptyMetrics);
      Count(m.folders.size.sizes, "") == |week.content|
  {
    GatherFolderVisitsAll(week, [""], EmptyMetrics);
    var ps := TreePlaces(week);
    var first := VisitFolder(ps[0], EmptyMetrics);
    assert FolderId([""]) == "";
    CountFolderStep(ps[0], EmptyMetrics.folders);
    VisitFolderParts(ps[0], EmptyMetrics);
    assert ps[1..] == SubPlaces(week, 0, [""]);
    SubPlacesBelow(week, 0, [""]);
    RootIdUnique(ps[1..]);
    VisitAllKeepsSize(ps[1..], first, "");
  }

  /** Every folder below the root has a path of more than one part, starting with the
      root's. */
  lemma {:induction false} PlacesBelow(f: Folder, path: seq<string>)
    requires |path| > 0
    ensures forall p :: p in Places(f, path) ==> |p.path| >= |path| && p.path[..|path|] == path
    decreases f, |f.content| + 1
  {
    SubPlacesBelow(f, 0, path);
  }

  lemma {:induction false} SubPlacesBelow(f: Folder, i: nat, path: seq<string>)
    requires i <= |f.content| && |path| > 0
    ensures forall p :: p in SubPlaces(f, i, path) ==> |p.path| > |path| && p.path[..|path|] == path
    decreases f, |f.content| - i
  {
    if i < |f.content| {
      SubPlacesBelow(f, i + 1, path);
      match f.content[i]
      case FolderNode(g) =>
        PlacesBelow(g, path + [g.name]);
        forall p | p in Places(g, path + [g.name]) ensures |p.path| > |path| && p.path[..|path|] == path {
          assert p.path[..|path|] == p.path[..|path| + 1][..|path|];
        }
      case BookmarkNode(_) =>
    }
  }

  /** Identifiers of paths longer than `['']` are not `""`. */
  lemma {:induction false} RootIdUnique(ps: seq<Place>)
    requires forall p :: p in ps ==> |p.path| > 1 && p.path[..1] == [""]
    ensures "" !in Ids(ps)
  {
    if |ps| > 0 {
      RootIdUnique(ps[1..]);
      var path := ps[0].path;
      assert path == [path[0]] + path[1..];
      JoinCons(path[0], path[1..], "::");
    }
  }

  lemma {:induction false} CreatedTimesBound(bs: seq<Bookmark>)
    ensures |CreatedTimes(bs)| <= |bs|
  {
    if |bs| > 0 {
      CreatedTimesBound(bs[1..]);
    }
  }

  lemma {:induction false} IdsBound(ps: seq<Place>)
    ensures |Ids(ps)| <= |ps|
  {
    if |ps| > 0 {
      IdsBound(ps[1..]);
    }
  }

  lemma {:induction false} ElementsBound(s: seq<string>)
    ensures |Elements(s)| <= |s|
  {
    if |s| > 0 {
      ElementsBound(s[1..]);
      assert Elements(s) == {s[0]} + Elements(s[1..]);
    }
  }

  /** Bookmarks created in the same second, folders on the same path and repeated tags
      are one item each: no item set is larger than its count. */
  lemma ItemsWithinCounts(week: Folder)
    ensures var m := GatherFolder(week, [""], EmptyMetrics);
      && |m.bookmarks.core.items| <= m.bookmarks.core.count
      && |m.folders.core.items| <= m.folders.core.count
      && |m.tags.core.items| <= m.tags.core.count
  {
    GatherWalk(week);
    CreatedTimesBound(AllBookmarks(TreePlaces(week)));
    IdsBound(TreePlaces(week));
    ElementsBound(TreeTags(week));
  }

  /** The two identifiers of a folder below a root with no name: the records' starts with
      `::`, the folder table's does not. */
  lemma IdentifierSchemes(names: seq<string>)
    requires |names| > 0 && forall n :: n in names ==> n != ""
    ensures FolderId([""] + names) == "::" + TableId(["", ""] + names)
  {
    JoinCons("", names, "::");
    NonEmptyAll(names);
    assert NonEmpty(["", ""] + names) == NonEmpty(names) by {
      assert (["", ""] + names)[1..] == [""] + names;
      assert ([""] + names)[1..] == names;
    }
  }

  lemma {:induction false} NonEmptyAll(parts: seq<string>)
    requires forall p :: p in parts ==> p != ""
    ensures NonEmpty(parts) == parts
  {
    if |parts| > 0 {
      assert parts[0] in parts;
      assert forall p :: p in parts[1..] ==> p in parts;
      NonEmptyAll(parts[1..]);
      assert parts == [parts[0]] + parts[1..];
    }
  }
}

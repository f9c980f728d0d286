/** The metrics records and their starting values.

    The Python records combine `CoreMetrics` and `SizeMetrics` by multiple inheritance; here
    a folders or tags record holds one of each as a field. Fields declared with
    `compare=False` take no part in a record's `==`, which `SameMetrics` and its parts
    spell out.
 */
module MetricsData {
  import opened Collections
  import opened Bookmarks

  /** `sys.maxsize` on a 64-bit build: the starting minimum, above any size that occurs. */
  const MaxSize: int := 0x7fff_ffff_ffff_ffff

  /** One entry of a `SizeRankedList`: the rank, the size, and the sorted names of that
      size. */
  datatype Ranked = Ranked(rank: nat, size: nat, names: seq<string>)

  /** `CoreMetrics`. Bookmarks are identified by their creation time, folders and tags by
      name, so the identifier type is a parameter. */
  datatype CoreMetrics<T> = CoreMetrics(
    count: int,
    items: set<T>,
    added: set<T>,
    addedCount: int,
    deleted: set<T>,
    deletedCount: int,
    delta: int,
    deltaPct: real)

  /** `SizeMetrics`; `topN` and `bottomN` are left out of `==`. */
  datatype SizeMetrics = SizeMetrics(
    sizes: Counter<string>,
    minSize: int,
    maxSize: int,
    avgSize: real,
    topN: seq<Ranked>,
    bottomN: seq<Ranked>)

  datatype FoldersMetrics = FoldersMetrics(core: CoreMetrics<string>, size: SizeMetrics, maxDepth: int)

  /** `BookmarksMetrics`; the new bookmarks and their grouping by day are left out of `==`.
      A day is the number of whole days since the epoch. */
  datatype BookmarksMetrics = BookmarksMetrics(
    core: CoreMetrics<int>,
    newBookmarks: seq<Bookmark>,
    newBookmarksByDate: map<int, seq<int>>)

  /** `TagsMetrics`; the tag use by day is left out of `==`. */
  datatype TagsMetrics = TagsMetrics(
    core: CoreMetrics<string>,
    size: SizeMetrics,
    uniqueTagsCount: int,
    tagsByDate: map<int, Counter<string>>)

  /** `Metrics`: three independent records. */
  datatype Metrics = Metrics(folders: FoldersMetrics, bookmarks: BookmarksMetrics, tags: TagsMetrics)

  function EmptyCore<T>(): CoreMetrics<T> {
    CoreMetrics(0, {}, {}, 0, {}, 0, 0, 0.0)
  }

  const EmptySize := SizeMetrics([], MaxSize, 0, 0.0, [], [])

  const EmptyMetrics := Metrics(
    FoldersMetrics(EmptyCore(), EmptySize, 0),
    BookmarksMetrics(EmptyCore(), [], map[]),
    TagsMetrics(EmptyCore(), EmptySize, 0, map[]))

  /** `SizeMetrics.__eq__`. */
  ghost predicate SameSize(a: SizeMetrics, b: SizeMetrics) {
    SameCounts(a.sizes, b.sizes) && a.minSize == b.minSize && a.maxSize == b.maxSize && a.avgSize == b.avgSize
  }

  /** `Metrics.__eq__`, through the `__eq__` of each record. */
  ghost predicate SameMetrics(a: Metrics, b: Metrics) {
    && a.folders.core == b.folders.core && SameSize(a.folders.size, b.folders.size)
    && a.folders.maxDepth == b.folders.maxDepth
    && a.bookmarks.core == b.bookmarks.core
    && a.tags.core == b.tags.core && SameSize(a.tags.size, b.tags.size)
    && a.tags.uniqueTagsCount == b.tags.uniqueTagsCount
  }

  /** The rankings, the new bookmarks and the by-day groupings never make two records
      differ. */
  lemma DerivedFieldsIgnored(m: Metrics, folderTop: seq<Ranked>, folderBottom: seq<Ranked>,
                             tagTop: seq<Ranked>, tagBottom: seq<Ranked>, newOnes: seq<Bookmark>,
                             byDate: map<int, seq<int>>, tagsByDate: map<int, Counter<string>>)
    ensures SameMetrics(m, m.(
      folders := m.folders.(size := m.folders.size.(topN := folderTop, bottomN := folderBottom)),
      bookmarks := m.bookmarks.(newBookmarks := newOnes, newBookmarksByDate := byDate),
      tags := m.tags.(size := m.tags.size.(topN := tagTop, bottomN := tagBottom), tagsByDate := tagsByDate)))
  {
  }

  /** A counter compares equal to itself with an extra key counted 0. */
  lemma ZeroCountIgnored(c: Counter<string>, k: string)
    requires k !in Keys(c)
    ensures SameCounts(c, c + [(k, 0)])
  {
    CountAbsent(c, k);
    forall j ensures Count(c, j) == Count(c + [(k, 0)], j) {
      CountAppendAbsent(c, k, 0, j);
    }
  }
}

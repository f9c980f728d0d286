/** The table of folder sizes `gather_metrics` ranks: a breadth-first walk that records,
    for each folder, how many of its entries are not folders, under an identifier made of
    the non-empty names on its path.
 */
module FolderSizes {
  import opened Text
  import opened Collections
  import opened Bookmarks
  import opened Ranking

  /** `[p for p in parts if p]`. */
  function NonEmpty(parts: seq<string>): (r: seq<string>)
    ensures forall p :: p in r <==> p in parts && p != ""
  {
    if |parts| == 0 then []
    else if parts[0] == "" then NonEmpty(parts[1..])
    else [parts[0]] + NonEmpty(parts[1..])
  }

  /** `'::'.join(p for p in parts if p)`: the empty string for a root with no name. */
  function TableId(parts: seq<string>): string {
    Join(NonEmpty(parts), "::")
  }

  /** The inner loop's count: the entries of a folder that are not folders. */
  function NonFolderCount(content: seq<Node>): (n: nat)
    ensures n <= |content|
  {
    if |content| == 0 then 0
    else (if content[0].FolderNode? then 0 else 1) + NonFolderCount(content[1..])
  }

  /** The count from the `k`-th entry on is the number of positions there holding a
      bookmark. */
  lemma {:induction false} NonFolderCountFrom(content: seq<Node>, k: nat)
    requires k <= |content|
    ensures NonFolderCount(content[k..]) == |set i | k <= i < |content| && content[i].BookmarkNode?|
    decreases |content| - k
  {
    var here := set i | k <= i < |content| && content[i].BookmarkNode?;
    if k == |content| {
      assert here == {};
    } else {
      NonFolderCountFrom(content, k + 1);
      var later := set i | k + 1 <= i < |content| && content[i].BookmarkNode?;
      assert content[k..][1..] == content[k + 1..];
      if content[k].BookmarkNode? {
        assert here == {k} + later;
      } else {
        assert here == later;
      }
    }
  }

  /** A folder's size in the table is the number of its entries that are bookmarks. */
  lemma NonFolderCountIsBookmarkEntries(content: seq<Node>)
    ensures NonFolderCount(content) == |set i | 0 <= i < |content| && content[i].BookmarkNode?|
  {
    NonFolderCountFrom(content, 0);
    assert content[0..] == content;
  }

  /** A folder waiting in the queue with the path parts of its parent. */
  type Queued = (Folder, seq<string>)

  /** The inner loop's other effect: the sub-folders among `f.content[i..]`, in order,
      queued with `parts`. */
  function Children(f: Folder, i: nat, parts: seq<string>): (r: seq<Queued>)
    requires i <= |f.content|
    ensures |r| <= |f.content| - i
    ensures forall k :: 0 <= k < |r| ==> r[k].1 == parts && FolderNode(r[k].0) in f.content[i..]
    decreases |f.content| - i
  {
    if i == |f.content| then []
    else if f.content[i].FolderNode? then [(f.content[i].folder, parts)] + Children(f, i + 1, parts)
    else Children(f, i + 1, parts)
  }

  /** A depth-first reference: each folder's identifier and count, the folder before its
      sub-folders. */
  function Entries(f: Folder, path: seq<string>): (r: seq<Item>)
    ensures |r| > 0 && r[0] == (TableId(path + [f.name]), NonFolderCount(f.content))
    decreases f, |f.content| + 1
  {
    var parts := path + [f.name];
    [(TableId(parts), NonFolderCount(f.content))] + ChildEntries(f, 0, parts)
  }

  function ChildEntries(f: Folder, i: nat, parts: seq<string>): seq<Item>
    requires i <= |f.content|
    decreases f, |f.content| - i
  {
    if i == |f.content| then []
    else if f.content[i].FolderNode? then Entries(f.content[i].folder, parts) + ChildEntries(f, i + 1, parts)
    else ChildEntries(f, i + 1, parts)
  }

  /** The entries of every folder in the queue and below. */
  function QueueEntries(queue: seq<Queued>): seq<Item> {
    if |queue| == 0 then [] else Entries(queue[0].0, queue[0].1) + QueueEntries(queue[1..])
  }

  lemma {:induction false} QueueEntriesAppend(a: seq<Queued>, b: seq<Queued>)
    ensures QueueEntries(a + b) == QueueEntries(a) + QueueEntries(b)
  {
    if |a| == 0 {
      assert a + b == b;
    } else {
      assert (a + b)[1..] == a[1..] + b;
      QueueEntriesAppend(a[1..], b);
    }
  }

  /** Queueing a folder's sub-folders queues exactly the entries below it. */
  lemma {:induction false} ChildrenEntries(f: Folder, i: nat, parts: seq<string>)
    requires i <= |f.content|
    ensures QueueEntries(Children(f, i, parts)) == ChildEntries(f, i, parts)
    decreases |f.content| - i
  {
    if i < |f.content| {
      ChildrenEntries(f, i + 1, parts);
      if f.content[i].FolderNode? {
        var q := [(f.content[i].folder, parts)] + Children(f, i + 1, parts);
        assert q[1..] == Children(f, i + 1, parts);
      }
    }
  }

  /** The breadth-first loop: the folder at the front gives its (identifier, count) entry
      and its sub-folders join the back. The entries come out in another order than the
      depth-first reference, but they are the same entries. */
  function BreadthFirst(queue: seq<Queued>): (order: seq<Item>)
    ensures multiset(order) == multiset(QueueEntries(queue))
    decreases |QueueEntries(queue)|
  {
    if |queue| == 0 then []
    else
      var (f, path) := queue[0];
      var parts := path + [f.name];
      var children := Children(f, 0, parts);
      QueueEntriesAppend(queue[1..], children);
      ChildrenEntries(f, 0, parts);
      assert QueueEntries(queue) == Entries(f, path) + QueueEntries(queue[1..]);
      [(TableId(parts), NonFolderCount(f.content))] + BreadthFirst(queue[1..] + children)
  }

  /** `folder_sizes[folder_id] = bookmarks_in_folder`, entry after entry. */
  function Tabulate(entries: seq<Item>): (c: Counter<string>)
    ensures Keys(c) == Keys(entries)
  {
    if |entries| == 0 then []
    else
      var last := entries[|entries| - 1];
      KeysLast(entries);
      Store(Tabulate(entries[..|entries| - 1]), last.0, last.1)
  }

  lemma KeysLast<V>(s: seq<(string, V)>)
    requires |s| > 0
    ensures Keys(s) == Keys(s[..|s| - 1]) + {s[|s| - 1].0}
  {
    KeysAppend(s[..|s| - 1], [s[|s| - 1]]);
    assert s == s[..|s| - 1] + [s[|s| - 1]];
  }

  lemma {:induction false} KeysAppend<V>(a: seq<(string, V)>, b: seq<(string, V)>)
    ensures Keys(a + b) == Keys(a) + Keys(b)
  {
    if |a| == 0 {
      assert a + b == b;
    } else {
      assert (a + b)[1..] == a[1..] + b;
      KeysAppend(a[1..], b);
    }
  }

  /** Lines 293-307: the table for the tree under `week`, whose path starts as `['']`. */
  function FolderSizes(week: Folder): Counter<string> {
    Tabulate(BreadthFirst([(week, [""])]))
  }

  /** Storing entries whose keys are all different keeps every one, in order. */
  lemma {:induction false} TabulateDistinct(entries: seq<Item>)
    requires DistinctKeys(entries)
    ensures Tabulate(entries) == entries
  {
    if |entries| > 0 {
      var init := entries[..|entries| - 1];
      var last := entries[|entries| - 1];
      TabulateDistinct(init);
      KeysIndex(init, last.0);
      assert entries == init + [last];
    }
  }

  /** Every folder of the tree has a row, and only those. */
  lemma TableKeys(week: Folder)
    ensures Keys(FolderSizes(week)) == Keys(Entries(week, [""]))
  {
    var order := BreadthFirst([(week, [""])]);
    assert QueueEntries([(week, [""])]) == Entries(week, [""]) + [];
    KeysPermutation(order, Entries(week, [""]));
  }

  lemma KeysPermutation<V>(a: seq<(string, V)>, b: seq<(string, V)>)
    requires multiset(a) == multiset(b)
    ensures Keys(a) == Keys(b)
  {
    forall k ensures k in Keys(a) <==> k in Keys(b) {
      KeysIndex(a, k);
      KeysIndex(b, k);
      if k in Keys(a) {
        var i :| 0 <= i < |a| && a[i].0 == k;
        assert a[i] in multiset(b);
      }
      if k in Keys(b) {
        var i :| 0 <= i < |b| && b[i].0 == k;
        assert b[i] in multiset(a);
      }
    }
  }

  function KeyIs(k: string): Item -> bool {
    (x: Item) => x.0 == k
  }

  /** How many entries have key `k`. */
  function KeyCount(s: seq<Item>, k: string): nat {
    |Select(s, KeyIs(k), Itself)|
  }

  lemma {:induction false} KeyCountOne(s: seq<Item>, j: nat)
    requires j < |s|
    ensures KeyCount(s, s[j].0) >= 1
  {
    if j > 0 {
      KeyCountOne(s[1..], j - 1);
    }
  }

  lemma {:induction false} KeyCountTwo(s: seq<Item>, i: nat, j: nat)
    requires i < j < |s| && s[i].0 == s[j].0
    ensures KeyCount(s, s[i].0) >= 2
  {
    if i > 0 {
      KeyCountTwo(s[1..], i - 1, j - 1);
    } else {
      KeyCountOne(s[1..], j - 1);
    }
  }

  lemma {:induction false} KeyCountDistinct(s: seq<Item>, k: string)
    requires DistinctKeys(s)
    ensures KeyCount(s, k) <= 1
  {
    if |s| > 0 {
      KeyCountDistinct(s[1..], k);
      if s[0].0 == k {
        forall x | x in s[1..] ensures !KeyIs(k)(x) {
          var j :| 0 <= j < |s[1..]| && s[1..][j] == x;
          assert s[j + 1] == x;
        }
        SelectNone(s[1..], KeyIs(k), Itself);
      }
    }
  }

  /** Reordering entries keeps their keys distinct. */
  lemma DistinctKeysPermutation(a: seq<Item>, b: seq<Item>)
    requires multiset(a) == multiset(b) && DistinctKeys(a)
    ensures DistinctKeys(b)
  {
    forall i, j | 0 <= i < j < |b| ensures b[i].0 != b[j].0 {
      var k := b[i].0;
      SelectPermutation(a, b, KeyIs(k), Itself);
      var sa, sb := Select(a, KeyIs(k), Itself), Select(b, KeyIs(k), Itself);
      assert |multiset(sa)| == |sa| && |multiset(sb)| == |sb|;
      KeyCountDistinct(a, k);
      if b[i].0 == b[j].0 {
        KeyCountTwo(b, i, j);
      }
    }
  }

  /** When no two folders share an identifier, the breadth-first table holds exactly the
      depth-first entries, so the rankings drawn from it are those of the depth-first
      entries. */
  lemma BreadthFirstRanksAsDepthFirst(week: Folder, n: int)
    requires DistinctKeys(Entries(week, [""]))
    ensures multiset(FolderSizes(week)) == multiset(Entries(week, [""]))
    ensures LargestAndSmallest(FolderSizes(week), n) == LargestAndSmallest(Entries(week, [""]), n)
  {
    var order := BreadthFirst([(week, [""])]);
    assert QueueEntries([(week, [""])]) == Entries(week, [""]) + [];
    DistinctKeysPermutation(Entries(week, [""]), order);
    TabulateDistinct(order);
    OrderIndependent(FolderSizes(week), Entries(week, [""]), n);
  }

  /** The root's row comes first; for a root with no name, like the parser's, it is `""`,
      and a folder below it is identified by its names alone, where the identifiers of the
      metrics records start with `::`. */
  lemma RootRowFirst(week: Folder)
    ensures |FolderSizes(week)| > 0
    ensures FolderSizes(week)[0].0 == TableId(["", week.name])
    ensures week.name == "" ==> TableId(["", week.name]) == ""
  {
    var order := BreadthFirst([(week, [""])]);
    assert order[0].0 == TableId(["", week.name]);
    TabulateFirst(order);
    assert NonEmpty(["", ""]) == [];
  }

  lemma {:induction false} TabulateFirst(entries: seq<Item>)
    requires |entries| > 0
    ensures |Tabulate(entries)| > 0 && Tabulate(entries)[0].0 == entries[0].0
  {
    if |entries| > 1 {
      var init := entries[..|entries| - 1];
      TabulateFirst(init);
      var c := Tabulate(init);
      var last := entries[|entries| - 1];
      KeysIndex(c, last.0);
      StoreInPlace(c, last.0, last.1);
    }
  }
}

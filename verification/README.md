# bookmarkos-tools core, modelled in Dafny

bookmarkos-tools reads the weekly Netscape-format bookmark exports of the BookmarkOS
service and turns each one into a tree of folders and bookmarks. It then computes that
week's metrics and compares them with the previous week's.

This project models the parts of that pipeline that compute something, as pure Dafny
functions, and proves what they promise:

- **Fragment** (`parse_fragment`). An `<A ...>` or `<H3 ...>` fragment is split into its
  text and its `KEY="value"` attributes. Both regular expressions are written out by hand.
- **Bookmarks** (`Folder.fill`, `Bookmark.fill`). A node is filled from its fragment.
  Every Python exception the code can raise becomes an `Error` value: a malformed fragment,
  a missing key, or an `int()` that fails.
- **Parser** (`process_dt`, `process_dd`, `process_folder`, `parse_bookmarks`). This is the
  line-by-line reader. The queue of lines becomes a list of lines plus a read position.
  Every `ValueError` and `IndexError` of the code is modelled as an error result. A folder's
  content is sorted by name when its closing line is read.
- **MetricsData**. These are the metrics records, together with the equality the
  dataclasses define, which ignores the derived fields.
- **Ranking** (`get_largest_and_smallest`). Entries are ranked by size, with ties, and the
  top and bottom N groups are taken.
- **Gather** (`_gather_metrics`, `average_size`, `gather_metrics`). This is the recursive
  walk that counts folders, bookmarks and tags.
- **FolderSizes** (the breadth-first table in `gather_metrics`). Each folder is counted by
  its non-folder entries.
- **Listing**. This writes a tree as the lines of a backup, in the layout the tools' test
  helpers build. Reading those lines back gives the tree that was written, with every
  folder's entries in name order.
- **Differ** (`all_bookmarks_sorted`, `new_bookmarks_by_date`, `tags_usage_by_date`,
  `differentiate_metrics`). This is the week-on-week comparison, together with the
  `bisect_left` lookup of the new bookmarks.

Supporting modules:

- **Wrappers**: `Option`, `Result` and the error values.
- **Text**: character classes, string order, split and join, and Python's `int()` on strings.
- **Collections**: `dict` and `Counter` as insertion-ordered entry lists.
- **Sorting**: a stable sort, and the sorted list of a set.

Timestamps are integers, in UNIX seconds. A `Counter` is a sequence of (key, count)
entries, so that the order a ranking reads its items in is part of the model. Floats are
`real`s.

## Model

| member | source | states |
|---|---|---|
| Fragment.ParseFragment | bin/bookmarkos/data/bookmarks.py:88-90 | Every failure of the fragment parser is the ParseError that carries the input it rejected. |
| Fragment.ExtractAssembled | bin/bookmarkos/data/bookmarks.py:9 | An opening tag, whitespace, an attribute text free of `>`, a line of text and a closing tag, put together, are split by the extraction pattern back into exactly that attribute text and text. |
| Fragment.ExtractSound | bin/bookmarkos/data/bookmarks.py:9 | Whatever the extraction pattern accepts is such an assembly of an opening tag, whitespace, attribute text, text and closing tag, with the captured groups in their places. |
| Fragment.ExtractNeedsBrackets | bin/bookmarkos/data/bookmarks.py:9 | Only a string that starts with `<` and ends with `>` is accepted. |
| Fragment.AttributeAt | bin/bookmarkos/data/bookmarks.py:10 | A match of the attribute pattern is a non-empty word key with a quote-free value, and it consumes part of the input. |
| Fragment.FindAttributes | bin/bookmarkos/data/bookmarks.py:10 | Every pair `findall` returns is a well-formed key and value. |
| Fragment.FindRenderedAttributes | bin/bookmarkos/data/bookmarks.py:10 | Well-formed pairs written out as `KEY="value"` with single spaces are found again, all of them and in order. |
| Fragment.ToMapLast | bin/bookmarkos/data/bookmarks.py:97-99 | When a key is repeated, the dictionary keeps the last value written for it. |
| Fragment.ToMapDistinctKeys | bin/bookmarkos/data/bookmarks.py:97-99 | When no key repeats, the order of the attributes does not change the dictionary. |
| Fragment.ParseAssembledFragment | bin/bookmarkos/data/bookmarks.py:82-101 | A well-formed fragment parses to its text and the dictionary of its attributes. |
| Fragment.MalformedFragments | tests/unit/bookmarkos/data/test_bookmarks.py:310-323 | Each of the five malformed fragments the tests list is rejected with a ParseError on that fragment. |
| Text.ParseIntToString | bin/bookmarkos/data/bookmarks.py:72-73 | `int()` reads back every integer written in decimal, negative numbers included. |
| Text.ParseIntSound | bin/bookmarkos/data/bookmarks.py:72-73 | Whatever `int()` accepts is whitespace, an optional sign, digit groups and whitespace, and its value is that of the signed digits. |
| Text.ParseIntAccepts | bin/bookmarkos/data/bookmarks.py:72-73 | Every text of that shape is accepted, with the value of its signed digits. |
| Text.ParseIntPadding | bin/bookmarkos/data/bookmarks.py:72-73 | Whitespace around the text never changes what `int()` makes of it. |
| Text.ParseIntDecimal | bin/bookmarkos/data/bookmarks.py:72-73 | A run of digits reads as its decimal value, unsigned or after `+`, and negated after `-`. |
| Text.ParseIntLeadingZero | bin/bookmarkos/data/bookmarks.py:72-73 | A leading zero does not change the value. |
| Text.ParseIntUnderscore | bin/bookmarkos/data/bookmarks.py:72-73 | A single underscore between two digit groups is accepted and ignored. |
| Text.ParseIntRejects | bin/bookmarkos/data/bookmarks.py:72-73 | Empty or all-blank text, a bare sign, an underscore at either end, a doubled underscore, inner whitespace and a doubled sign are all rejected. |
| Text.Strip | bin/bookmarkos/data/bookmarks.py:72-73 | `int()`'s whitespace trimming cuts out a slice with only whitespace before and after it. The slice starts and ends with non-whitespace, and it is empty only for an all-whitespace string. |
| Text.StripExact | bin/bookmarkos/data/bookmarks.py:72-73 | Whitespace around a text that neither starts nor ends with whitespace is exactly what the trimming removes. |
| Text.StripPadding | bin/bookmarkos/data/bookmarks.py:72-73 | Adding whitespace on either side never changes the trimmed text. |
| Text.JoinSplit | bin/bookmarkos/data/bookmarks.py:77 | Splitting on the separator and joining the parts with it gives back the original string. |
| Text.SplitJoin | bin/bookmarkos/data/bookmarks.py:77 | Tags that do not contain `", "`, joined with it, are split back into exactly those tags. |
| Bookmarks.IntAttribute | bin/bookmarkos/data/bookmarks.py:46-47 | A missing key is a KeyError, and a value `int()` rejects is an invalid-int error. Otherwise the result is the parsed value. |
| Bookmarks.FillFolder | bin/bookmarkos/data/bookmarks.py:39-49 | Empty markup leaves the folder as it is. Otherwise a filled folder takes the fragment's text and its ADD_DATE and LAST_MODIFIED values, and keeps its depth and content. A bad fragment is a ParseError. A missing or unreadable ADD_DATE, then LAST_MODIFIED, is the error for that key. When both read as integers, filling succeeds. |
| Bookmarks.FillBookmark | bin/bookmarkos/data/bookmarks.py:65-79 | A filled bookmark takes its name, HREF and dates from the fragment. LAST_VISIT is taken only when present. The split TAGS are appended to the tags already held, and the notes are kept. The errors come in the code's order: a bad fragment, a missing HREF, then ADD_DATE, LAST_MODIFIED and a present LAST_VISIT that do not read as integers. With all of those in order, filling succeeds. |
| Bookmarks.FillFolderFromMarkup | bin/bookmarkos/data/bookmarks.py:39-49 | Filling from the markup a folder is written as gives back that folder's name and dates. |
| Bookmarks.FillBookmarkFromMarkup | bin/bookmarkos/data/bookmarks.py:65-79 | Filling from the markup a bookmark is written as gives back its name, URL, dates, last visit and tags. With no TAGS attribute, it gets the single empty tag `''.split(', ')` gives. |
| Bookmarks.FillBookmarkFromAttributes | bin/bookmarkos/data/bookmarks.py:68-77 | When the attributes hold those values, filling sets exactly the fields the code sets, and nothing else. |
| Bookmarks.ReadBookmarkAttributes | bin/bookmarkos/data/bookmarks.py:72-77 | Written attribute values read back as the integers and tag list they were written from. |
| Parser.MatchDT | bin/bookmarkos/parser.py:93-96 | A match is a line of indentation, `<DT>` and then the markup it yields. The markup is an `<A` or an `<H3` tag, and the second component says which. |
| Parser.MatchDTExact | bin/bookmarkos/parser.py:93-96 | Conversely, every line of indentation, `<DT>` and markup matches exactly when the markup has the entry shape, and the match yields that markup. |
| Parser.MatchDD | bin/bookmarkos/parser.py:117-118 | A match is a line of indentation, `<DD>` and then the notes it yields, which hold no newline. |
| Parser.MatchDDExact | bin/bookmarkos/parser.py:117-118 | Conversely, every line of indentation, `<DD>` and notes matches exactly when the notes hold no newline, and the match yields those notes. |
| Parser.EndMarker | bin/bookmarkos/parser.py:134-135 | The closing line at depth d is four spaces per level followed by `</DL><p>`. |
| Parser.MarkerHasNoEntryTag | bin/bookmarkos/parser.py:140-148 | A closing line never contains `<DT>` or `<DD>`, so testing for it first does not hide an entry. |
| Parser.Close | bin/bookmarkos/parser.py:157 | The sort on close orders the entries by name, keeps the same entries, and keeps entries with equal names in the order they were read. |
| Parser.AddBookmark | bin/bookmarkos/parser.py:98-99 | An `<A>` entry succeeds exactly when its fragment fills a bookmark, and that bookmark is appended. |
| Parser.ProcessDT | bin/bookmarkos/parser.py:90-111 | A successful `<DT>` line appends exactly one entry, chosen by the markup's tag. For `<A`, it is the bookmark the markup fills, and reading stays at the next line. For `<H3`, it is the folder read from the following lines one level deeper, and reading moves past that folder's closing line. A line that does not match is an unrecognised-line error. |
| Parser.AddFolder | bin/bookmarkos/parser.py:100-109 | An `<H3>` entry needs an opening `<DL><p>` line next. Running out of lines is an IndexError, and any other line is a missing-opening error. Otherwise the appended entry is the folder read one level deeper, and that read's error is the result's error. |
| Parser.AddFolderClosed | bin/bookmarkos/parser.py:100-105 | When a folder is added before the end of the input, its opening line was `<DL><p>`. The read one level deeper succeeded and ended where the addition ended, just after that level's closing line. |
| Parser.ProcessDD | bin/bookmarkos/parser.py:114-125 | A `<DD>` line sets the notes of the last entry and changes nothing else. A non-`<DD>` line is an error, an empty folder is an IndexError, and a folder as the last entry is an out-of-place error. |
| Parser.ProcessFolder | bin/bookmarkos/parser.py:128-158 | A folder that is read ends just after its closing line and is sorted all the way down. With its content removed, it is the folder its markup fills. |
| Parser.ReadFolder | bin/bookmarkos/parser.py:138-155 | Running out of lines before the closing line is the "closing not found" error, unless the last line read was blank. |
| Parser.WrongIndentationRejected | bin/bookmarkos/parser.py:140-150 | A closing line for another depth is not this folder's end: it is unknown content. |
| Parser.BlankTail | bin/bookmarkos/parser.py:138-157 | When only blank lines remain, the folder is closed as it stands. |
| Parser.NoClosingLine | bin/bookmarkos/parser.py:154-155 | A folder with no lines left to read fails with its name in the error. |
| Parser.ProcessFolderReadsNoFurther | bin/bookmarkos/parser.py:138-141 | The result of reading a folder depends only on the lines up to its closing line. |
| Parser.ParseLines | bin/bookmarkos/parser.py:180-188 | At most four lines is an IndexError. A fifth line other than `<DL><p>` is the missing-root error. A parsed root is sorted and has an empty name and zero dates. |
| Parser.TrailingLinesIgnored | bin/bookmarkos/parser.py:185-188 | Lines after the root's closing line do not change the result. |
| Parser.UnclosedBlankRoot | bin/bookmarkos/parser.py:138-143 | A root followed only by blank lines parses to an empty folder. |
| Listing.NotesLineHasNoDT | bin/bookmarkos/parser.py:145-148 | A written notes line holds no `<DT>` when the notes hold none, so the parser's first test does not read it as an entry. |
| Listing.ReadBookmarkEntry | bin/bookmarkos/parser.py:138-148 | Reading a written bookmark's lines appends that bookmark, notes included, and moves past them. |
| Listing.ReadFolderEntry | bin/bookmarkos/parser.py:98-109 | Reading a written folder's header and opening line appends the folder its inner lines read to, and moves past its closing line. |
| Listing.ReadWrittenContent | bin/bookmarkos/parser.py:128-158 | Reading a folder's written entries and end marker gives those entries read back, after the ones already held, in name order. Reading stops just past the end marker. |
| Listing.ReadWrittenFolder | bin/bookmarkos/parser.py:128-158 | Reading a written folder from its header gives back that folder, with every folder's entries in name order, and ends just past its end marker. |
| Listing.ParseWrittenBackup | bin/bookmarkos/parser.py:167-188 | A backup of four header lines, the root's opening line and a written root tree parses to that tree read back, with an empty name and zero dates. Any lines after it are ignored. |
| MetricsData.DerivedFieldsIgnored | bin/bookmarkos/data/metrics.py:50-57 | Metrics that differ only in top/bottom lists, new bookmarks or the by-day tables compare equal. |
| MetricsData.ZeroCountIgnored | bin/bookmarkos/data/metrics.py:38-42 | `sizes` is a `Counter`, and `Counter` equality (Python 3.10 and later) treats a missing key as counted 0: a key counted zero compares equal to a key that is absent. |
| Ranking.GroupBySize | bin/bookmarkos/metrics.py:28-30 | `groupby` cuts the sorted entries into runs of equal size that together give back the input. |
| Ranking.GroupsDecrease | bin/bookmarkos/metrics.py:24-30 | Over entries sorted largest first, the group sizes strictly decrease. |
| Ranking.SortedNames | bin/bookmarkos/metrics.py:36 | A group's names are sorted and are exactly its entries' names. |
| Ranking.RankedWithTiesRanks | bin/bookmarkos/metrics.py:32-38 | Groups come largest size first, one for each size present. Each group holds the sorted names of that size, and its rank is one more than the number of entries of a larger size. |
| Ranking.RanksUnique | bin/bookmarkos/metrics.py:32-38 | There is only one such ranking. |
| Ranking.OrderIndependent | bin/bookmarkos/metrics.py:13-58 | The ranking and both lists do not depend on the order of the counter's items. |
| Ranking.RankedCountsAll | bin/bookmarkos/metrics.py:32-38 | Every entry is named in exactly one group. |
| Ranking.TakeGroups | bin/bookmarkos/metrics.py:41-49 | The top list is a prefix of the ranking. Every group in it was taken while fewer than N names were held, and it stops only once N are held. |
| Ranking.TakeGroupsFromEnd | bin/bookmarkos/metrics.py:50-58 | The bottom list is a suffix of the ranking, taken by the same rule from the small end. |
| Ranking.LargestAndSmallest | bin/bookmarkos/metrics.py:13-58 | The result is the top prefix and the bottom suffix of the ranking, each stopping at the first group that brings it to N names. |
| Ranking.EmptyCounter | bin/bookmarkos/metrics.py:13-58 | An empty counter gives two empty lists. |
| Ranking.EverythingWhenNIsLarge | bin/bookmarkos/metrics.py:41-58 | When N is at least the number of entries, both lists are the whole ranking. |
| FolderSizes.NonFolderCountIsBookmarkEntries | bin/bookmarkos/metrics.py:301-306 | A folder's size in the table is the number of positions in its content that hold a bookmark. |
| FolderSizes.Children | bin/bookmarkos/metrics.py:302-304 | The queued folders are sub-folders of this folder, queued with its path. |
| FolderSizes.BreadthFirst | bin/bookmarkos/metrics.py:296-307 | The breadth-first walk yields the same (identifier, size) entries as a depth-first walk of the tree. |
| FolderSizes.TableKeys | bin/bookmarkos/metrics.py:293-307 | The table has a row for every folder of the tree, and no other rows. |
| FolderSizes.TabulateDistinct | bin/bookmarkos/metrics.py:307 | Storing entries whose identifiers are all different keeps every entry, in order. |
| FolderSizes.BreadthFirstRanksAsDepthFirst | bin/bookmarkos/metrics.py:293-311 | When folder identifiers are distinct, the table is a reordering of the depth-first entries, so it ranks the same. |
| FolderSizes.RootRowFirst | bin/bookmarkos/metrics.py:296-300 | The root's row comes first, and for a root with no name its identifier is empty. |
| Gather.TagBookmarkStep | bin/bookmarkos/metrics.py:88-95 | One bookmark adds its tag count to the tag total, its tags to the tag set and the counter, and moves the tag-size extremes. |
| Gather.CountFolderStep | bin/bookmarkos/metrics.py:66-81 | One folder adds one to the count, its path identifier to the set, its size under that identifier, and moves the size and depth extremes. |
| Gather.GatherFolderVisitsAll | bin/bookmarkos/metrics.py:61-102 | The recursion visits exactly the folders of a pre-order walk, each with its path. |
| Gather.VisitAllFolders | bin/bookmarkos/metrics.py:77-79 | The folder count grows by the number of folders visited, and both the folder set and the sizes' keys grow by their identifiers. |
| Gather.VisitAllKeepsSize | bin/bookmarkos/metrics.py:79 | The size stored under an identifier that no visited folder has is left alone. |
| Gather.VisitAllBookmarks | bin/bookmarkos/metrics.py:84-86 | The bookmark count grows by the number of bookmarks visited, and the set grows by their creation times. |
| Gather.VisitAllTags | bin/bookmarkos/metrics.py:85-95 | The tag metrics are those of tallying every visited bookmark in order. |
| Gather.TallyTags | bin/bookmarkos/metrics.py:88-95 | The tag total grows by the number of tag uses. The tag set and the counter's keys grow by the tags used, and the counter's total by the uses. |
| Gather.TallyTagCount | bin/bookmarkos/metrics.py:93-95 | Each tag's count grows by the number of times it is used. |
| Gather.AverageSize | bin/bookmarkos/metrics.py:105-112 | The average times the number of entries is the sum of the sizes. An empty counter is a ZeroDivision error. |
| Gather.GatherWalk | bin/bookmarkos/metrics.py:275-282 | Over the whole tree: the folder count and identifiers, the bookmark count and creation times, and the tag count, set and per-tag counts are those of all the folders, bookmarks and tag uses. |
| Gather.GatherBounds | bin/bookmarkos/metrics.py:69-91 | The recorded max and min sizes and the max depth are the running extremes over all folders and bookmarks, starting from 0 and the largest integer. |
| Gather.ItemsWithinCounts | bin/bookmarkos/metrics.py:77-95 | No identifier set is larger than its count: repeated times, paths and tags are one item each. |
| Gather.GatherFailsWithoutTags | bin/bookmarkos/metrics.py:284-285 | `gather_metrics` fails with ZeroDivision exactly when the tree has no tag uses. |
| Gather.GatherResult | bin/bookmarkos/metrics.py:275-317 | The result holds the walk's counts and sets, its minimum and maximum sizes, both averages, the unique-tag count, the top/bottom 5 of the folder table and the top/bottom 25 of the tag counter. |
| Gather.FirstSizeTaken | bin/bookmarkos/metrics.py:66-95 | Starting from an empty metrics record, the first folder's size is the max folder size, and also the min size unless it exceeds `sys.maxsize`. The same holds for the first bookmark's tag count. |
| Gather.NonFolderCountIsBookmarks | bin/bookmarkos/metrics.py:301-306 | The folder table's size for a folder is the number of bookmarks among its entries. |
| Gather.RootSizeRecorded | bin/bookmarkos/metrics.py:66-79 | The root's size is stored under the empty identifier, and no other folder overwrites it. |
| Gather.IdentifierSchemes | bin/bookmarkos/metrics.py:66 | When the root has no name (as ParseLines gives it) and no folder name is empty, a folder below the root is identified in the metrics as `::` followed by its identifier in the folder table, so the two schemes name the same folder differently. |
| Differ.Collect | bin/bookmarkos/metrics.py:163-172 | The breadth-first queue walk collects exactly the bookmarks of the tree, as a multiset. |
| Differ.AllBookmarksSorted | bin/bookmarkos/metrics.py:159-175 | The result is sorted by creation time and holds every bookmark of the tree. Bookmarks with the same time keep the walk's order. |
| Differ.PlacesBookmarks | bin/bookmarkos/metrics.py:73-97 | The recursive walk of `gather_metrics` sees the same bookmarks, as many times each, as the depth-first reference TreeBookmarks. Differ.AllBookmarksSorted ties the queue walk to the same reference. |
| Differ.BisectLeft | bin/bookmarkos/metrics.py:265-267 | On a sorted list, the position found has every earlier bookmark created before the id and every later one at or after it. |
| Differ.BisectIsLinearScan | bin/bookmarkos/metrics.py:265-267 | On a sorted list, the bisection equals a linear scan for the first bookmark not created before the id. |
| Differ.BisectEarliest | bin/bookmarkos/metrics.py:265-268 | The position is in range exactly when some bookmark is created at or after the id, and it then holds the earliest such bookmark. |
| Differ.NewBookmarks | bin/bookmarkos/metrics.py:262-268 | The lookup finds one bookmark of the list for each id, or fails with IndexError. |
| Differ.NewBookmarksFound | bin/bookmarkos/metrics.py:262-268 | The lookup succeeds exactly when every id has a bookmark at or after it, and each found bookmark is the earliest such. |
| Differ.LookupExact | bin/bookmarkos/metrics.py:262-268 | When every id is some bookmark's creation time, the found bookmarks are created at exactly those ids. |
| Differ.Day | bin/bookmarkos/metrics.py:125-126 | A timestamp's day number is the one whose 86400-second span contains it. |
| Differ.DayIsUnique | bin/bookmarkos/metrics.py:125-126 | That day is the only such span. |
| Differ.IdsOnDay | bin/bookmarkos/metrics.py:121-130 | A day's bucket holds exactly the ids that fall on that day. |
| Differ.IdsOnDaySorted | bin/bookmarkos/metrics.py:121 | From sorted ids, each bucket is sorted. |
| Differ.GroupIdsDay | bin/bookmarkos/metrics.py:128-130 | Grouping creates a day's list only for a day that has an id, and appends that day's ids in order to what was already there. |
| Differ.NewBookmarksByDateGroups | bin/bookmarkos/metrics.py:115-132 | The days present are exactly those of some added id. Each day lists exactly its ids, in increasing order. |
| Differ.OnDay | bin/bookmarkos/metrics.py:143-151 | The bookmarks that fall on a day are exactly those created on it. |
| Differ.TagDaysDay | bin/bookmarkos/metrics.py:150-154 | A day's counter is created for every new bookmark's day, and each tag's count on it grows by its uses among that day's bookmarks. |
| Differ.TagsUsageByDateCounts | bin/bookmarkos/metrics.py:135-156 | A day is present exactly when a new bookmark falls on it, even one without tags. Each tag's count is its uses on that day, and the counter's keys are exactly the tags used. |
| Differ.Changes | bin/bookmarkos/metrics.py:195-198 | What remains of the old set after the deletions, plus the additions, is the new set. Additions are new, deletions are gone, and the counts differ by the change in size. |
| Differ.NetChange | bin/bookmarkos/metrics.py:223-226 | The added count minus the deleted count is the change in the number of items. |
| Differ.Pct | bin/bookmarkos/metrics.py:191-194 | The percentage times a non-zero basis is the delta. A zero basis gives the fixed value the code uses. |
| Differ.ChangeIsNet | bin/bookmarkos/metrics.py:190-226 | The tags' delta is the added count minus the deleted count. The same holds for bookmarks and folders whenever their counts equal the sizes of their sets. |
| Differ.TagStartIsChangeFromNothing | bin/bookmarkos/metrics.py:249-257 | The initial tag record is the change against an empty previous week. |
| Differ.CountedStartAgainstNothing | bin/bookmarkos/metrics.py:231-247 | The initial bookmark and folder records are the change against an empty week, except for two fields. The added count is the count rather than the set's size. The percentage is 0.0 rather than 1.0 for an empty week. |
| Differ.DifferentiateMetrics | bin/bookmarkos/metrics.py:178-272 | The counts and sets of all three records are the differences with the previous week. There is one new bookmark per added id, each a bookmark of the week. The only failure is the lookup's IndexError. The by-day table of ids is built from the added ids in increasing order, and the by-day tag table from the new bookmarks. |
| Differ.DifferentiateByDate | bin/bookmarkos/metrics.py:115-132 | In a successful comparison, a day is in the new-bookmarks table exactly when some added id falls on it, and that day lists exactly its added ids, in increasing order. |
| Differ.DifferentiateTagsByDate | bin/bookmarkos/metrics.py:135-156 | In a successful comparison, a day has a tag counter exactly when a new bookmark was created on it, and each tag is counted once per use on that day's new bookmarks. |
| Differ.DiffRoundTrip | bin/bookmarkos/metrics.py:187-257 | For bookmarks, folders and tags, the previous items minus the deleted plus the added give this week's items. The added ids are among this week's. |
| Differ.DifferentiateExact | bin/bookmarkos/metrics.py:259-272 | When every added id is a creation time in the week, the comparison succeeds. Its new bookmarks are then created at exactly the added ids, in increasing order. |
| Differ.GatheredIdsExist | bin/bookmarkos/metrics.py:84-86 | Every added id recorded from a gathered week is the creation time of some bookmark of that week. |
| Differ.DifferentiateGathered | bin/bookmarkos/metrics.py:178-317 | For metrics gathered from the same tree, comparing never fails. The new bookmarks are created at exactly the added ids, in increasing order. |
| Sorting.SortBy | bin/bookmarkos/metrics.py:174 | The stable sort orders its input, keeps the same elements, and keeps equal keys in their original order. |
| Sorting.SortedSet | bin/bookmarkos/metrics.py:121 | `sorted(set)` lists every element once, in increasing order. |
| Collections.IncrementAllCount | bin/bookmarkos/metrics.py:153-154 | Incrementing for each listed key raises each key's count by the number of times it is listed. |
| Collections.Store | bin/bookmarkos/metrics.py:307 | Storing a value under a key changes only that key's count. A new key is appended at the end, and an existing key keeps its place. |

## Left out

- File and stream input (parser.py:171-178) is not modelled: `ParseLines` takes the file's lines, already split on `\n`. JSON input and output (bin/bookmarkos/json_io.py) is not part of this model.
- `datestring` (parser.py:161-164) is not modelled. Timestamps are the integers `bookmarks.py` stores.
- The regular expressions are written out by hand. `\w` is the ASCII letters, digits and `_`, and `\s` is the six ASCII whitespace characters; Python's Unicode classes are wider. The same six serve as `str.isspace` for `int()` and `strip()`, which also treat U+001C to U+001F as whitespace.
- `int()` accepts surrounding whitespace, a sign, and ASCII digits with single underscores between them. Unicode digits are not modelled.
- parser.py's own copies of the node classes and of `parse_fragment` are replaced by those of data/bookmarks.py. The parser never sets a folder's `depth`, and neither does the model: every parsed folder has depth 0, so the gathered max depth is 0.
- Floats are `real`s. Rounding is not modelled.
- `sys.maxsize` is the named constant `MaxSize`, the 64-bit value.
- Dates are day numbers (`created / 86400`, flooring) rather than `YYYY-MM-DD` strings. Both `datetime` conversions give the UTC day, and the one-to-one formatting of a day is not modelled. Timestamps outside `datetime`'s range are not rejected.
- `differentiate_metrics` updates `these` in place. The model returns the updated record instead. If the lookup fails, the model returns the error and does not show the partly updated record Python would leave behind.
- Differ.DifferentiateMetrics: the model states only that the looked-up bookmarks belong to the week. Which bookmark each id finds is stated separately, by Differ.NewBookmarksFound and Differ.DifferentiateExact.
- Gather.IdentifierSchemes: the link between the two identifiers is proved only for a root with no name and non-empty folder names. An empty-named sub-folder adds an extra `::` to the metrics identifier only, and a named root appears in the table identifier only.
- FolderSizes.BreadthFirstRanksAsDepthFirst: equality with the depth-first ranking is proved only when no two folders share an identifier. When two folders share one, the later row in breadth-first order wins.
- Parser.ReadFolder: its own contract states the failure case and the "reads no further" structure. What it reads from written lines is stated by Listing.ReadWrittenContent, for written trees only.
- Parser.ProcessFolder: its own contract states where reading stops, sortedness and the folder's own fields. Which entries it holds is stated by Listing.ReadWrittenFolder, for written trees.
- Parser.ParseLines: likewise, the root's entries are stated by Listing.ParseWrittenBackup, for written trees.
- Listing.ReadWrittenFolder: the round trip is proved only for writable trees. Names and URLs hold no newline, and URLs no quote or `>`. Every bookmark has at least one tag, with no quote, `>`, newline or `, ` in a tag. Notes hold no newline and no `<DT>`. A tree read back has every folder at depth 0 and in name order, so it equals the written tree only when that tree was sorted and at depth 0.
- Listing: the writer puts every entry on its own line, each one level deeper than its end marker. Other layouts the parser also reads, such as blank lines between entries or other indentation of entry lines, are not covered by the round trip.
- The initial bookmark and folder records set the added count to `count` rather than the size of the added set, as the code does (metrics.py:236, 245). Two bookmarks created in the same second therefore make the two differ. Differ.CountedStartAgainstNothing states this difference.
- The parser's tests that call a newer parser signature are not modelled.
- Python's dynamic typing is not modelled: `process_dt` and `process_dd` are typed, and a `None` returned by a failed regex match becomes an error value.

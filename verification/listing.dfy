/** The lines of a bookmarks backup in the layout the tools' test helpers write: a folder
    header `<DT><H3 ...>name</H3>`, the folder's opening `<DL><p>`, one `<DT><A ...>` line per
    bookmark followed by a `<DD>` line when it has notes, and the folder's end marker, with a
    folder's entries indented one level deeper than its end marker.

    Reading such lines back gives the tree they were written from, with every folder's
    entries in name order: the parser's content, stated for whole trees.
 */
module Listing {
  import opened Wrappers
  import opened Text
  import opened Fragment
  import opened Bookmarks
  import opened Parser

  // ---------------------------------------------------------------------------------------
  // The writer.

  /** The entries of a folder whose end marker is at `depth` sit four spaces deeper. */
  function EntryIndent(depth: nat): (s: string)
    ensures |s| > 0 && All(s, IsSpace)
  {
    Spaces(4 * depth + 4)
  }

  /** The `<A ...>name</A>` tag of a bookmark, tags always written. */
  function BookmarkEntry(b: Bookmark): string {
    BookmarkMarkup(b.name, b.url, b.created, b.updated, b.visited, Some(b.tags))
  }

  /** The `<H3 ...>name</H3>` header of a folder. */
  function FolderEntry(g: Folder): string {
    FolderMarkup(g.name, g.created, g.updated)
  }

  /** A bookmark's `<DT>` line, then its `<DD>` line when it has notes. */
  function BookmarkLines(b: Bookmark, depth: nat): seq<string> {
    [EntryIndent(depth) + "<DT>" + BookmarkEntry(b)]
    + (if b.notes.Some? then [EntryIndent(depth) + "<DD>" + b.notes.value] else [])
  }

  /** The lines of a folder's entries from the `i`-th on. */
  function ContentLines(f: Folder, i: nat, depth: nat): seq<string>
    requires i <= |f.content|
    decreases f, |f.content| - i
  {
    if i == |f.content| then []
    else
      match f.content[i]
      case BookmarkNode(b) => BookmarkLines(b, depth) + ContentLines(f, i + 1, depth)
      case FolderNode(g) =>
        [EntryIndent(depth) + "<DT>" + FolderEntry(g), EntryIndent(depth) + "<DL><p>"]
        + FolderLines(g, depth + 1) + ContentLines(f, i + 1, depth)
  }

  /** A folder's entries and its end marker: the lines after its opening `<DL><p>`. */
  function FolderLines(f: Folder, depth: nat): seq<string>
    decreases f, |f.content| + 1
  {
    ContentLines(f, 0, depth) + [EndMarker(depth)]
  }

  /** What can be written and read back: no newline in a folder's name or a bookmark's name
      and URL, no quote or `>` in a URL, at least one tag and every tag writable, notes on
      one line and without a `<DT>` that would make their line an entry. The root's own
      name is never written. */
  ghost predicate Writable(f: Folder)
    decreases f
  {
    forall i :: 0 <= i < |f.content| ==> WritableNode(f.content[i])
  }

  ghost predicate WritableNode(n: Node)
    decreases n
  {
    match n
    case FolderNode(g) => '\n' !in g.name && Writable(g)
    case BookmarkNode(b) => WritableBookmark(b)
  }

  ghost predicate WritableBookmark(b: Bookmark) {
    && '\n' !in b.name && '"' !in b.url && '>' !in b.url && '\n' !in b.url
    && |b.tags| > 0 && (forall i :: 0 <= i < |b.tags| ==> WritableTag(b.tags[i]))
    && (b.notes.Some? ==> '\n' !in b.notes.value && !Contains(b.notes.value, "<DT>"))
  }

  // ---------------------------------------------------------------------------------------
  // What reading gives back.

  /** The tree the parser builds from a written folder: the same names, timestamps, URLs,
      tags and notes, every folder at depth 0 (the parser never sets a depth) and every
      folder's entries in name order. */
  function Reread(f: Folder): Folder
    decreases f, |f.content| + 1
  {
    Close(f.(depth := 0, content := RereadContent(f, 0)))
  }

  function RereadContent(f: Folder, i: nat): (r: seq<Node>)
    requires i <= |f.content|
    ensures |r| == |f.content| - i
    decreases f, |f.content| - i
  {
    if i == |f.content| then []
    else
      match f.content[i]
      case BookmarkNode(b) => [BookmarkNode(b)] + RereadContent(f, i + 1)
      case FolderNode(g) => [FolderNode(Reread(g))] + RereadContent(f, i + 1)
  }

  // ---------------------------------------------------------------------------------------
  // The written lines, one at a time.

  /** `lines` holds `w` from `pos` on. */
  ghost predicate At(lines: seq<string>, pos: nat, w: seq<string>) {
    pos + |w| <= |lines| && lines[pos..pos + |w|] == w
  }

  lemma AtSplit(lines: seq<string>, pos: nat, a: seq<string>, b: seq<string>)
    requires At(lines, pos, a + b)
    ensures At(lines, pos, a) && At(lines, pos + |a|, b)
  {
    var w := lines[pos..pos + |a + b|];
    assert lines[pos..pos + |a|] == w[..|a|];
    assert lines[pos + |a|..pos + |a| + |b|] == w[|a|..];
  }

  lemma AtMiddle(pre: seq<string>, w: seq<string>, more: seq<string>)
    ensures At(pre + w + more, |pre|, w)
  {
    assert (pre + w + more)[|pre|..|pre| + |w|] == w;
  }

  lemma AtHead(lines: seq<string>, pos: nat, w: seq<string>)
    requires At(lines, pos, w) && |w| > 0
    ensures lines[pos] == w[0]
  {
    assert lines[pos..pos + |w|][0] == lines[pos];
  }

  /** An `<A>` or `<H3>` tag with the attributes and text on one line has the entry shape;
      the `A` alternative matches exactly the bookmark tag. */
  lemma EntryMarkupAssembled(open: string, attrs: string, text: string)
    requires open == "A" || open == "H3"
    requires '\n' !in attrs && '\n' !in text
    ensures var m := Assemble(open, " ", attrs, text, open);
      IsEntryMarkup(m) && (m[1] == 'A' <==> open == "A")
  {
    var m := Assemble(open, " ", attrs, text, open);
    assert m == "<" + open + " " + attrs + ">" + text + "</" + open + ">";
    assert m[0] == '<' && m[1] == open[0] && m[|m| - 1] == '>';
    if open == "H3" {
      assert m[1..3] == "H3";
    }
  }

  lemma BookmarkEntryShape(b: Bookmark)
    requires WritableBookmark(b)
    ensures IsEntryMarkup(BookmarkEntry(b)) && BookmarkEntry(b)[1] == 'A'
  {
    var pairs := BookmarkAttributes(b.url, b.created, b.updated, b.visited, Some(b.tags));
    BookmarkAttributesRenderable(b.url, b.created, b.updated, b.visited, Some(b.tags));
    RenderedAttributesShape(pairs);
    EntryMarkupAssembled("A", RenderAttributes(pairs), b.name);
  }

  lemma FolderEntryShape(g: Folder)
    requires '\n' !in g.name
    ensures IsEntryMarkup(FolderEntry(g)) && FolderEntry(g)[1] != 'A'
  {
    var pairs := FolderAttributes(g.created, g.updated);
    AttributeNamesAreWords();
    IntAttributeRenderable("ADD_DATE", g.created);
    IntAttributeRenderable("LAST_MODIFIED", g.updated);
    RenderableAppend([("ADD_DATE", IntToString(g.created))], [("LAST_MODIFIED", IntToString(g.updated))]);
    RenderedAttributesShape(pairs);
    EntryMarkupAssembled("H3", RenderAttributes(pairs), g.name);
  }

  /** A written entry line is neither an end marker nor blank, and holds its tag. */
  lemma EntryLine(depth: nat, tag: string, rest: string, d: nat)
    requires tag == "<DT>" || tag == "<DD>"
    ensures var line := EntryIndent(depth) + tag + rest;
      line != EndMarker(d) && line != "" && Contains(line, tag)
  {
    var pad := EntryIndent(depth);
    var line := pad + tag + rest;
    IndentedOver(pad, tag, rest);
    assert OccursAt(line, tag, |pad|);
    MarkerHasNoEntryTag(d, tag);
  }

  /** A notes line holds a `<DT>` only where the notes do. */
  lemma NotesLineHasNoDT(depth: nat, notes: string)
    requires !Contains(notes, "<DT>")
    ensures !Contains(EntryIndent(depth) + "<DD>" + notes, "<DT>")
  {
    var pad := EntryIndent(depth);
    var s := pad + "<DD>" + notes;
    forall i | 0 <= i <= |s| ensures !OccursAt(s, "<DT>", i) {
      if i + 4 <= |s| {
        assert s[i..i + 4][0] == s[i] && s[i..i + 4][2] == s[i + 2];
        if i < |pad| {
          assert s[i] == pad[i];
        } else if i < |pad| + 4 {
          assert s[i] == "<DD>"[i - |pad|];
          if i == |pad| {
            assert s[i + 2] == 'D';
          }
        } else {
          assert s[i..i + 4] == notes[i - |pad| - 4..i - |pad|];
          assert !OccursAt(notes, "<DT>", i - |pad| - 4);
        }
      }
    }
  }

  /** The loop's step at an entry line: the entry's change, then on from where it left
      the cursor. */
  lemma ReadAtDT(lines: seq<string>, pos: nat, acc: Folder, depth: nat, next: Folder, q: nat)
    requires pos < |lines| && SortedChildren(acc)
    requires lines[pos] != EndMarker(depth) && lines[pos] != "" && Contains(lines[pos], "<DT>")
    requires ProcessDT(lines, pos + 1, lines[pos], acc, depth) == Ok((next, q))
    ensures q <= |lines| && SortedChildren(next)
    ensures ReadFolder(lines, pos, acc, depth, false) == ReadFolder(lines, q, next, depth, false)
  {
  }

  /** The loop's step at a notes line. */
  lemma ReadAtDD(lines: seq<string>, pos: nat, acc: Folder, depth: nat, next: Folder)
    requires pos < |lines| && SortedChildren(acc)
    requires lines[pos] != EndMarker(depth) && lines[pos] != ""
    requires !Contains(lines[pos], "<DT>") && Contains(lines[pos], "<DD>")
    requires ProcessDD(lines[pos], acc) == Ok(next)
    ensures SortedChildren(next)
    ensures ReadFolder(lines, pos, acc, depth, false) == ReadFolder(lines, pos + 1, next, depth, false)
  {
  }

  /** A bookmark's `<DT>` line adds the bookmark without its notes. */
  lemma BookmarkLineAdds(lines: seq<string>, pos: nat, b: Bookmark, depth: nat, acc: Folder)
    requires WritableBookmark(b) && SortedChildren(acc) && pos < |lines|
    requires lines[pos] == EntryIndent(depth) + "<DT>" + BookmarkEntry(b)
    ensures lines[pos] != EndMarker(depth) && lines[pos] != "" && Contains(lines[pos], "<DT>")
    ensures ProcessDT(lines, pos + 1, lines[pos], acc, depth) == Ok((Append(acc, BookmarkNode(b.(notes := None))), pos + 1))
  {
    var pad := EntryIndent(depth);
    var m := BookmarkEntry(b);
    EntryLine(depth, "<DT>", m, depth);
    BookmarkEntryShape(b);
    MatchDTExact(pad, m);
    FillBookmarkFromMarkup(NewBookmark, b.name, b.url, b.created, b.updated, b.visited, Some(b.tags));
    assert [] + b.tags == b.tags;
    assert FillBookmark(NewBookmark, m) == Ok(b.(notes := None));
  }

  /** A `<DD>` line right after a bookmark's `<DT>` line gives that bookmark its notes. */
  lemma NotesLineAdds(lines: seq<string>, pos: nat, b: Bookmark, depth: nat, acc: Folder)
    requires WritableBookmark(b) && b.notes.Some? && pos < |lines|
    requires SortedChildren(Append(acc, BookmarkNode(b.(notes := None))))
    requires lines[pos] == EntryIndent(depth) + "<DD>" + b.notes.value
    ensures lines[pos] != EndMarker(depth) && lines[pos] != ""
    ensures !Contains(lines[pos], "<DT>") && Contains(lines[pos], "<DD>")
    ensures ProcessDD(lines[pos], Append(acc, BookmarkNode(b.(notes := None)))) == Ok(Append(acc, BookmarkNode(b)))
  {
    var notes := b.notes.value;
    var acc1 := Append(acc, BookmarkNode(b.(notes := None)));
    EntryLine(depth, "<DD>", notes, depth);
    NotesLineHasNoDT(depth, notes);
    MatchDDExact(EntryIndent(depth), notes);
    var n := |acc1.content|;
    assert acc1.content[n - 1] == BookmarkNode(b.(notes := None));
    assert acc1.content[..n - 1] == acc.content;
    assert b.(notes := None).(notes := Some(notes)) == b;
  }

  /** A bookmark's written lines add that bookmark, notes included, and nothing else. */
  lemma ReadBookmarkEntry(lines: seq<string>, pos: nat, b: Bookmark, depth: nat, acc: Folder, next: nat)
    requires WritableBookmark(b) && SortedChildren(acc)
    requires At(lines, pos, BookmarkLines(b, depth)) && next == pos + |BookmarkLines(b, depth)| < |lines|
    ensures SortedChildren(Append(acc, BookmarkNode(b)))
    ensures ReadFolder(lines, pos, acc, depth, false) == ReadFolder(lines, next, Append(acc, BookmarkNode(b)), depth, false)
  {
    var w := BookmarkLines(b, depth);
    AtHead(lines, pos, w);
    BookmarkLineAdds(lines, pos, b, depth, acc);
    var acc1 := Append(acc, BookmarkNode(b.(notes := None)));
    ReadAtDT(lines, pos, acc, depth, acc1, pos + 1);
    AppendSorted(acc, BookmarkNode(b));
    AppendSorted(acc, BookmarkNode(b.(notes := None)));
    if b.notes.Some? {
      assert lines[pos..pos + 2][1] == lines[pos + 1];
      NotesLineAdds(lines, pos + 1, b, depth, acc);
      ReadAtDD(lines, pos + 1, acc1, depth, Append(acc, BookmarkNode(b)));
    } else {
      assert b.(notes := None) == b;
    }
  }

  /** The folder every sub-folder read starts from: its header filled in, no entries yet. */
  function Heading(g: Folder): Folder {
    NewFolder.(name := g.name, created := g.created, updated := g.updated)
  }

  /** A folder's header and opening line, followed by lines that read back as `Reread(g)`,
      add that folder and nothing else. */
  lemma ReadFolderEntry(lines: seq<string>, pos: nat, g: Folder, depth: nat, deeper: nat, acc: Folder, start: nat, q: nat)
    requires '\n' !in g.name && SortedChildren(acc)
    requires deeper == depth + 1 && start == pos + 2 <= q <= |lines|
    requires lines[pos] == EntryIndent(depth) + "<DT>" + FolderEntry(g)
    requires lines[pos + 1] == EntryIndent(depth) + "<DL><p>"
    requires Returns(ReadFolder(lines, start, Heading(g), deeper, false), Reread(g), q)
    ensures SortedChildren(Append(acc, FolderNode(Reread(g))))
    ensures ReadFolder(lines, pos, acc, depth, false)
         == ReadFolder(lines, q, Append(acc, FolderNode(Reread(g))), depth, false)
  {
    var pad := EntryIndent(depth);
    var fm := FolderEntry(g);
    var h := pad + "<DT>" + fm;
    EntryLine(depth, "<DT>", fm, depth);
    FolderEntryShape(g);
    MatchDTExact(pad, fm);
    IndentedOver(pad, "<DL><p>", "");
    assert pad + "<DL><p>" + "" == lines[pos + 1];
    assert IsOpeningDL(lines[pos + 1]);
    FillFolderFromMarkup(NewFolder, g.name, g.created, g.updated);
    assert ProcessFolder(lines, pos + 2, fm, depth + 1) == Ok((Reread(g), q));
    var acc1 := Append(acc, FolderNode(Reread(g)));
    AppendSorted(acc, FolderNode(Reread(g)));
    assert AddFolder(lines, pos + 1, fm, acc, depth) == Ok((acc1, q));
    assert ProcessDT(lines, pos + 1, h, acc, depth) == Ok((acc1, q));
  }

  // ---------------------------------------------------------------------------------------
  // The round trip.

  /** `acc` with `more` entries after its own. */
  function Extended(acc: Folder, more: seq<Node>): Folder {
    acc.(content := acc.content + more)
  }

  lemma ExtendedAppend(acc: Folder, n: Node, more: seq<Node>)
    ensures Extended(Append(acc, n), more) == Extended(acc, [n] + more)
  {
    assert (acc.content + [n]) + more == acc.content + ([n] + more);
  }

  /** The lines of a bookmark entry, then the lines of the entries after it. */
  lemma BookmarkCase(lines: seq<string>, pos: nat, f: Folder, i: nat, depth: nat, acc: Folder, b: Bookmark, next: nat)
    requires i < |f.content| && f.content[i] == BookmarkNode(b) && WritableBookmark(b) && SortedChildren(acc)
    requires At(lines, pos, ContentLines(f, i, depth) + [EndMarker(depth)])
    requires next == pos + |BookmarkLines(b, depth)|
    ensures At(lines, next, ContentLines(f, i + 1, depth) + [EndMarker(depth)])
    ensures pos + |ContentLines(f, i, depth)| == next + |ContentLines(f, i + 1, depth)|
    ensures RereadContent(f, i) == [BookmarkNode(b)] + RereadContent(f, i + 1)
    ensures SortedChildren(Append(acc, BookmarkNode(b)))
    ensures ReadFolder(lines, pos, acc, depth, false) == ReadFolder(lines, next, Append(acc, BookmarkNode(b)), depth, false)
    ensures Extended(Append(acc, BookmarkNode(b)), RereadContent(f, i + 1)) == Extended(acc, RereadContent(f, i))
  {
    var end := [EndMarker(depth)];
    var bl := BookmarkLines(b, depth);
    var rest := ContentLines(f, i + 1, depth);
    assert ContentLines(f, i, depth) == bl + rest;
    AtPair(lines, pos, bl, rest, end);
    ReadBookmarkEntry(lines, pos, b, depth, acc, next);
    ExtendedAppend(acc, BookmarkNode(b), RereadContent(f, i + 1));
  }

  /** The lines of a folder entry: its header, its opening line, its own lines, then the
      lines of the entries after it. */
  lemma FolderCase(lines: seq<string>, pos: nat, f: Folder, i: nat, depth: nat, deeper: nat, g: Folder, start: nat, inner: nat)
    requires i < |f.content| && f.content[i] == FolderNode(g)
    requires At(lines, pos, ContentLines(f, i, depth) + [EndMarker(depth)])
    requires deeper == depth + 1 && start == pos + 2 && inner == start + |FolderLines(g, deeper)|
    ensures start <= inner <= |lines|
    ensures lines[pos] == EntryIndent(depth) + "<DT>" + FolderEntry(g)
    ensures lines[pos + 1] == EntryIndent(depth) + "<DL><p>"
    ensures At(lines, start, ContentLines(g, 0, deeper) + [EndMarker(deeper)])
    ensures inner == start + |ContentLines(g, 0, deeper)| + 1
    ensures At(lines, inner, ContentLines(f, i + 1, depth) + [EndMarker(depth)])
    ensures pos + |ContentLines(f, i, depth)| == inner + |ContentLines(f, i + 1, depth)|
  {
    var end := [EndMarker(depth)];
    var head := [EntryIndent(depth) + "<DT>" + FolderEntry(g), EntryIndent(depth) + "<DL><p>"];
    var own := FolderLines(g, deeper);
    var rest := ContentLines(f, i + 1, depth);
    FolderEntryLines(f, i, depth, deeper, g);
    AtEntry(lines, pos, head, own, rest, end);
  }

  /** How a folder entry is written, with the depth one level down named. */
  lemma FolderEntryLines(f: Folder, i: nat, depth: nat, deeper: nat, g: Folder)
    requires i < |f.content| && f.content[i] == FolderNode(g) && deeper == depth + 1
    ensures ContentLines(f, i, depth)
         == [EntryIndent(depth) + "<DT>" + FolderEntry(g), EntryIndent(depth) + "<DL><p>"]
            + FolderLines(g, deeper) + ContentLines(f, i + 1, depth)
  {
  }

  /** Lines holding an entry's lines, the lines after it and an end. */
  lemma AtPair(lines: seq<string>, pos: nat, own: seq<string>, rest: seq<string>, end: seq<string>)
    requires At(lines, pos, own + rest + end)
    ensures At(lines, pos, own) && At(lines, pos + |own|, rest + end)
  {
    assert own + rest + end == own + (rest + end);
    AtSplit(lines, pos, own, rest + end);
  }

  /** Lines holding two header lines, an entry's own lines, the lines after it and an end. */
  lemma AtEntry(lines: seq<string>, pos: nat, head: seq<string>, own: seq<string>, rest: seq<string>, end: seq<string>)
    requires |head| == 2 && At(lines, pos, head + own + rest + end)
    ensures lines[pos] == head[0] && lines[pos + 1] == head[1]
    ensures At(lines, pos + 2, own) && At(lines, pos + 2 + |own|, rest + end)
  {
    assert head + own + rest + end == head + (own + (rest + end));
    AtSplit(lines, pos, head, own + (rest + end));
    AtSplit(lines, pos + 2, own, rest + end);
    assert lines[pos..pos + 2] == head;
    assert lines[pos] == head[0] && lines[pos + 1] == head[1];
  }

  /** A folder entry reads back as its sub-folder read back. */
  lemma FolderContent(f: Folder, i: nat, acc: Folder, g: Folder)
    requires i < |f.content| && f.content[i] == FolderNode(g)
    ensures Extended(Append(acc, FolderNode(Reread(g))), RereadContent(f, i + 1)) == Extended(acc, RereadContent(f, i))
  {
    assert RereadContent(f, i) == [FolderNode(Reread(g))] + RereadContent(f, i + 1);
    ExtendedAppend(acc, FolderNode(Reread(g)), RereadContent(f, i + 1));
  }

  /** `r` is a successful read that gives `folder` and goes on at line `next`. */
  predicate Returns(r: Result<(Folder, nat)>, folder: Folder, next: nat) {
    r.Ok? && r.value.0 == folder && r.value.1 == next
  }

  /** Reading the written entries of `f` from the `i`-th on, into a folder that already
      holds `acc`'s entries, appends what they read back as, stops just after the end
      marker and sorts. */
  lemma {:induction false} ReadWrittenContent(lines: seq<string>, pos: nat, f: Folder, i: nat, depth: nat, acc: Folder)
    requires i <= |f.content| && Writable(f) && SortedChildren(acc)
    requires At(lines, pos, ContentLines(f, i, depth) + [EndMarker(depth)])
    ensures Returns(ReadFolder(lines, pos, acc, depth, false),
                    Close(Extended(acc, RereadContent(f, i))), pos + |ContentLines(f, i, depth)| + 1)
  {
    ReadWrittenTo(lines, pos, f, i, depth, acc, Extended(acc, RereadContent(f, i)), pos + |ContentLines(f, i, depth)| + 1);
  }

  /** `ReadWrittenContent` with the folder read `e` and the line after the end marker `q`
      named, so that each step hands its result on unchanged. */
  lemma {:induction false} ReadWrittenTo(lines: seq<string>, pos: nat, f: Folder, i: nat, depth: nat, acc: Folder, e: Folder, q: nat)
    requires i <= |f.content| && Writable(f) && SortedChildren(acc)
    requires At(lines, pos, ContentLines(f, i, depth) + [EndMarker(depth)])
    requires e == Extended(acc, RereadContent(f, i)) && q == pos + |ContentLines(f, i, depth)| + 1
    ensures Returns(ReadFolder(lines, pos, acc, depth, false), Close(e), q)
    decreases f, |f.content| - i, 1
  {
    if i == |f.content| {
      AtHead(lines, pos, ContentLines(f, i, depth) + [EndMarker(depth)]);
      assert e == acc;
    } else {
      assert WritableNode(f.content[i]);
      match f.content[i]
      case BookmarkNode(b) => ReadWrittenBookmark(lines, pos, f, i, depth, acc, b, e, q);
      case FolderNode(g) => ReadWrittenSubFolder(lines, pos, f, i, depth, acc, g, e, q);
    }
  }

  /** The step of `ReadWrittenTo` at a bookmark entry. */
  lemma {:induction false} ReadWrittenBookmark(lines: seq<string>, pos: nat, f: Folder, i: nat, depth: nat, acc: Folder, b: Bookmark, e: Folder, q: nat)
    requires i < |f.content| && f.content[i] == BookmarkNode(b) && Writable(f) && WritableBookmark(b)
    requires SortedChildren(acc) && At(lines, pos, ContentLines(f, i, depth) + [EndMarker(depth)])
    requires e == Extended(acc, RereadContent(f, i)) && q == pos + |ContentLines(f, i, depth)| + 1
    ensures Returns(ReadFolder(lines, pos, acc, depth, false), Close(e), q)
    decreases f, |f.content| - i, 0
  {
    var next := pos + |BookmarkLines(b, depth)|;
    BookmarkCase(lines, pos, f, i, depth, acc, b, next);
    ReadWrittenTo(lines, next, f, i + 1, depth, Append(acc, BookmarkNode(b)), e, q);
  }

  /** The step of `ReadWrittenTo` at a sub-folder entry: the sub-folder's own lines are
      read one level deeper, then reading goes on after its end marker. */
  lemma {:induction false} ReadWrittenSubFolder(lines: seq<string>, pos: nat, f: Folder, i: nat, depth: nat, acc: Folder, g: Folder, e: Folder, q: nat)
    requires i < |f.content| && f.content[i] == FolderNode(g) && Writable(f) && '\n' !in g.name && Writable(g)
    requires SortedChildren(acc) && At(lines, pos, ContentLines(f, i, depth) + [EndMarker(depth)])
    requires e == Extended(acc, RereadContent(f, i)) && q == pos + |ContentLines(f, i, depth)| + 1
    ensures Returns(ReadFolder(lines, pos, acc, depth, false), Close(e), q)
    decreases f, |f.content| - i, 0
  {
    var start := pos + 2;
    var deeper := depth + 1;
    var inner := start + |FolderLines(g, deeper)|;
    FolderCase(lines, pos, f, i, depth, deeper, g, start, inner);
    FolderContent(f, i, acc, g);
    ReadWrittenInner(lines, start, g, deeper, inner);
    ReadFolderEntry(lines, pos, g, depth, deeper, acc, start, inner);
    ReadWrittenTo(lines, inner, f, i + 1, depth, Append(acc, FolderNode(Reread(g))), e, q);
  }

  /** The lines of a sub-folder, read with the header it was written with, give it back
      as `Reread(g)`. */
  lemma {:induction false} ReadWrittenInner(lines: seq<string>, start: nat, g: Folder, depth: nat, inner: nat)
    requires Writable(g)
    requires At(lines, start, ContentLines(g, 0, depth) + [EndMarker(depth)])
    requires inner == start + |ContentLines(g, 0, depth)| + 1
    ensures Returns(ReadFolder(lines, start, Heading(g), depth, false), Reread(g), inner)
    decreases g, |g.content| + 1, 0
  {
    var read := g.(depth := 0, content := RereadContent(g, 0));
    assert Extended(Heading(g), RereadContent(g, 0)) == read;
    ReadWrittenTo(lines, start, g, 0, depth, Heading(g), read, inner);
  }

  /** A written folder, read from the line after its opening `<DL><p>` with the header it
      was written with, comes back as `Reread(f)` and consumes exactly its own lines. */
  lemma {:induction false} ReadWrittenFolder(lines: seq<string>, pos: nat, f: Folder, depth: nat)
    requires '\n' !in f.name && Writable(f)
    requires At(lines, pos, FolderLines(f, depth))
    ensures Returns(ProcessFolder(lines, pos, FolderEntry(f), depth), Reread(f), pos + |FolderLines(f, depth)|)
  {
    FillFolderFromMarkup(NewFolder, f.name, f.created, f.updated);
    ReadWrittenInner(lines, pos, f, depth, pos + |FolderLines(f, depth)|);
  }

  /** A whole backup, four header lines, the root's opening line, the root's lines and
      anything after them, parses to the root read back; the root has no header, so its
      name is empty and its timestamps 0. */
  lemma ParseWrittenBackup(header: seq<string>, root: Folder, more: seq<string>)
    requires |header| == 4 && Writable(root)
    ensures ParseLines(header + ["<DL><p>"] + FolderLines(root, 0) + more)
         == Ok(Reread(root).(name := "", created := 0, updated := 0))
  {
    var pre := header + ["<DL><p>"];
    var w := FolderLines(root, 0);
    var data := pre + w + more;
    assert data[4] == "<DL><p>";
    AtMiddle(pre, w, more);
    ReadWrittenContent(data, 5, root, 0, 0, NewFolder);
    var g := root.(depth := 0, content := RereadContent(root, 0));
    assert Extended(NewFolder, RereadContent(root, 0)) == g.(name := "", created := 0, updated := 0);
    CloseRenamed(g);
  }

  /** Sorting on close looks at the content only, so it commutes with renaming. */
  lemma CloseRenamed(g: Folder)
    ensures Close(g.(name := "", created := 0, updated := 0)) == Close(g).(name := "", created := 0, updated := 0)
  {
  }
}

/** The line-oriented tree builder: a folder's lines, one per entry, up to an end marker
    indented to the folder's depth.

    The source keeps one queue of lines shared by every call frame; here the lines are a
    sequence and each call receives the index of the next unread line and returns the index
    after the last line it consumed.
 */
module Parser {
  import opened Wrappers
  import opened Text
  import opened Sorting
  import opened Bookmarks

  /** `"    " * depth + "</DL><p>"`: the line that closes a folder at `depth`. */
  function EndMarker(depth: nat): (s: string)
    ensures |s| == 4 * depth + 8
    ensures (forall i :: 0 <= i < 4 * depth ==> s[i] == ' ') && s[4 * depth..] == "</DL><p>"
  {
    Spaces(4 * depth) + "</DL><p>"
  }

  /** The leading `\s+` of a line: the index just after it, when there is at least one. */
  function Indented(line: string): (k: nat)
    ensures k <= |line|
  {
    RunEnd(line, 0, IsSpace)
  }

  /** The `<(A|H3).*>` group: `<`, the tag name `A` or `H3`, then anything without a
      newline up to a final `>`. */
  predicate IsEntryMarkup(markup: string) {
    && |markup| >= 3 && markup[0] == '<' && markup[|markup| - 1] == '>' && '\n' !in markup
    && (markup[1] == 'A' || (|markup| >= 4 && markup[1..3] == "H3"))
  }

  /** `re.fullmatch(r'^\s+<DT>(<(A|H3).*>)$', line)`: the markup after `<DT>` and whether
      the `A` alternative (tried first) matched, so that the entry is a bookmark. */
  function MatchDT(line: string): (r: Option<(string, bool)>)
    ensures r.Some? ==> var markup := r.value.0;
      && IsEntryMarkup(markup) && (r.value.1 <==> markup[1] == 'A')
      && (exists k :: 0 < k <= |line| && All(line[..k], IsSpace) && line[k..] == "<DT>" + markup)
      && EndsWith(line, markup)
  {
    var k := Indented(line);
    RunEndCovers(line, 0, IsSpace);
    if k == 0 || k + 4 > |line| || line[k..k + 4] != "<DT>" then None
    else
      var markup := line[k + 4..];
      assert line[k..] == "<DT>" + markup;
      if |markup| < 3 || markup[0] != '<' || markup[|markup| - 1] != '>' || '\n' in markup then None
      else if markup[1] == 'A' then Some((markup, true))
      else if |markup| >= 4 && markup[1..3] == "H3" then Some((markup, false))
      else None
  }

  /** `re.fullmatch(r'^\s+<DD>(.*)$', line)`: the notes after `<DD>`. */
  function MatchDD(line: string): (r: Option<string>)
    ensures r.Some? ==> '\n' !in r.value && EndsWith(line, r.value)
    ensures r.Some? ==> exists k :: 0 < k <= |line| && All(line[..k], IsSpace) && line[k..] == "<DD>" + r.value
  {
    var k := Indented(line);
    RunEndCovers(line, 0, IsSpace);
    if k == 0 || k + 4 > |line| || line[k..k + 4] != "<DD>" || '\n' in line[k + 4..] then None
    else
      assert line[k..] == "<DD>" + line[k + 4..];
      Some(line[k + 4..])
  }

  /** The indentation of a line made of whitespace, a tag and the rest is that whitespace. */
  lemma IndentedOver(ws: string, tag: string, rest: string)
    requires |ws| > 0 && All(ws, IsSpace) && |tag| > 0 && tag[0] == '<'
    ensures Indented(ws + tag + rest) == |ws|
    ensures (ws + tag + rest)[|ws|..|ws| + |tag|] == tag && (ws + tag + rest)[|ws| + |tag|..] == rest
  {
    RunEndOver("", ws, tag + rest, IsSpace);
    assert "" + ws + (tag + rest) == ws + tag + rest;
  }

  /** Every line of whitespace, `<DT>` and markup is matched, exactly when the markup has
      the entry shape, and the markup is what the match returns. */
  lemma MatchDTExact(ws: string, markup: string)
    requires |ws| > 0 && All(ws, IsSpace)
    ensures MatchDT(ws + "<DT>" + markup)
         == if IsEntryMarkup(markup) then Some((markup, markup[1] == 'A')) else None
  {
    IndentedOver(ws, "<DT>", markup);
  }

  /** Every line of whitespace, `<DD>` and notes is matched, exactly when the notes hold no
      newline. */
  lemma MatchDDExact(ws: string, notes: string)
    requires |ws| > 0 && All(ws, IsSpace)
    ensures MatchDD(ws + "<DD>" + notes) == if '\n' in notes then None else Some(notes)
  {
    IndentedOver(ws, "<DD>", notes);
  }

  /** `re.fullmatch(r'^\s+<DL><p>$', line)`: a folder's opening line, at any indentation. */
  predicate IsOpeningDL(line: string) {
    var k := Indented(line);
    k > 0 && line[k..] == "<DL><p>"
  }

  /** Children are ordered by name, as `attrgetter("name")` orders them. */
  predicate NameOrder(a: Node, b: Node) {
    LessEq(a.Name(), b.Name())
  }

  lemma NameOrderIsTotalPreorder()
    ensures TotalPreorder(NameOrder)
  {
    LessEqTotalPreorder();
  }

  /** `folder.content.sort(key=attrgetter("name"))`. */
  function Close(folder: Folder): (r: Folder)
    ensures SortedBy(r.content, NameOrder)
    ensures multiset(r.content) == multiset(folder.content)
    ensures forall x :: Ties(r.content, x, NameOrder) == Ties(folder.content, x, NameOrder)
    ensures r == folder.(content := r.content)
    ensures SortedChildren(folder) ==> Sorted(r)
  {
    NameOrderIsTotalPreorder();
    var r := folder.(content := SortBy(folder.content, NameOrder));
    SameElementsSorted(folder.content, r.content);
    r
  }

  /** Reordering the entries keeps every sub-folder sorted. */
  lemma SameElementsSorted(s: seq<Node>, t: seq<Node>)
    requires multiset(s) == multiset(t)
    ensures (forall i :: 0 <= i < |s| ==> SortedNode(s[i])) ==> forall i :: 0 <= i < |t| ==> SortedNode(t[i])
  {
    forall i | 0 <= i < |t| && (forall i :: 0 <= i < |s| ==> SortedNode(s[i])) ensures SortedNode(t[i]) {
      assert t[i] in multiset(s);
      var j :| 0 <= j < |s| && s[j] == t[i];
    }
  }

  /** The last line the call consumed closed the folder at `depth`: it is the end marker, or
      it is the last line of all and blank. */
  ghost predicate ClosedAt(lines: seq<string>, q: nat, depth: nat) {
    0 < q <= |lines| && (lines[q - 1] == EndMarker(depth) || (q == |lines| && lines[q - 1] == ""))
  }

  /** Every folder of the tree has its content in name order. */
  ghost predicate Sorted(f: Folder)
    decreases f
  {
    && SortedBy(f.content, NameOrder)
    && forall i :: 0 <= i < |f.content| ==> SortedNode(f.content[i])
  }

  ghost predicate SortedNode(n: Node)
    decreases n
  {
    n.FolderNode? ==> Sorted(n.folder)
  }

  /** Every sub-folder of the tree, at any depth, is sorted: `Sorted` apart from the top. */
  ghost predicate SortedChildren(f: Folder) {
    forall i :: 0 <= i < |f.content| ==> SortedNode(f.content[i])
  }

  /** `process_folder`: fill a new folder from the header markup (empty for the root), then
      read its entries. */
  function ProcessFolder(lines: seq<string>, pos: nat, markup: string, depth: nat): (r: Result<(Folder, nat)>)
    requires pos <= |lines|
    ensures r.Ok? ==> pos < r.value.1 && ClosedAt(lines, r.value.1, depth)
    ensures r.Ok? ==> Sorted(r.value.0)
    ensures r.Ok? ==> FillFolder(NewFolder, markup) == Ok(r.value.0.(content := []))
    decreases |lines| - pos, 2
  {
    var folder :- FillFolder(NewFolder, markup);
    ReadFolder(lines, pos, folder, depth, false)
  }

  /** What a successful read of `folder`'s entries from `pos` guarantees: it stopped at the
      folder's closing line, every folder in the result is sorted, and only the content
      changed. */
  ghost predicate ReadsFolder(lines: seq<string>, pos: nat, folder: Folder, depth: nat, r: Result<(Folder, nat)>) {
    r.Ok? ==>
      && pos <= r.value.1 && ClosedAt(lines, r.value.1, depth)
      && Sorted(r.value.0)
      && r.value.0 == folder.(content := r.value.0.content)
  }

  /** The `while` loop of `process_folder`. `blank` says whether the last line taken was an
      empty one: the source's `line` is then `""` rather than `None`, so running out of lines
      right after it is not an error. */
  function ReadFolder(lines: seq<string>, pos: nat, folder: Folder, depth: nat, blank: bool): (r: Result<(Folder, nat)>)
    requires pos <= |lines| && (blank ==> 0 < pos && lines[pos - 1] == "")
    requires SortedChildren(folder)
    ensures ReadsFolder(lines, pos, folder, depth, r)
    ensures r.Ok? && (!blank || pos < |lines|) ==> pos < r.value.1
    ensures r.Err? && pos == |lines| ==> blank == false && r.error == ClosingNotFound(folder.name)
    decreases |lines| - pos, 1
  {
    if pos == |lines| then
      if blank then Ok((Close(folder), pos)) else Err(ClosingNotFound(folder.name))
    else
      var line := lines[pos];
      if line == EndMarker(depth) then Ok((Close(folder), pos + 1))
      else if line == "" then ReadFolder(lines, pos + 1, folder, depth, true)
      else if Contains(line, "<DT>") then ReadAfterDT(lines, pos, folder, depth)
      else if Contains(line, "<DD>") then ReadAfterDD(lines, pos, folder, depth)
      else Err(UnknownContent(line))
  }

  /** A `<DT>` line at `pos`: add its entry, then go on reading. */
  function ReadAfterDT(lines: seq<string>, pos: nat, folder: Folder, depth: nat): (r: Result<(Folder, nat)>)
    requires pos < |lines| && SortedChildren(folder)
    ensures ReadsFolder(lines, pos, folder, depth, r)
    ensures r.Ok? ==> pos < r.value.1
    decreases |lines| - pos, 0
  {
    var step :- ProcessDT(lines, pos + 1, lines[pos], folder, depth);
    ReadFolder(lines, step.1, step.0, depth, false)
  }

  /** A `<DD>` line at `pos`: attach the notes, then go on reading. */
  function ReadAfterDD(lines: seq<string>, pos: nat, folder: Folder, depth: nat): (r: Result<(Folder, nat)>)
    requires pos < |lines| && SortedChildren(folder)
    ensures ReadsFolder(lines, pos, folder, depth, r)
    ensures r.Ok? ==> pos < r.value.1
    decreases |lines| - pos, 0
  {
    var next :- ProcessDD(lines[pos], folder);
    ReadFolder(lines, pos + 1, next, depth, false)
  }

  /** `folder.content.append(node)`. */
  function Append(folder: Folder, node: Node): Folder {
    folder.(content := folder.content + [node])
  }

  /** `f` is `folder` with one more entry at the end. */
  ghost predicate AppendsOne(folder: Folder, f: Folder) {
    |f.content| == |folder.content| + 1 && f == Append(folder, f.content[|folder.content|])
  }

  lemma AppendSorted(folder: Folder, node: Node)
    requires SortedChildren(folder) && SortedNode(node)
    ensures SortedChildren(Append(folder, node))
  {
  }

  /** The bookmark branch of `process_dt`: fill a new bookmark from the markup and append
      it; the cursor stays where it is. */
  function AddBookmark(folder: Folder, markup: string, pos: nat): (r: Result<(Folder, nat)>)
    requires SortedChildren(folder)
    ensures r.Ok? ==> r.value.1 == pos && SortedChildren(r.value.0) && AppendsOne(folder, r.value.0)
    ensures r.Ok? <==> FillBookmark(NewBookmark, markup).Ok?
    ensures r.Ok? ==> r.value.0.content[|folder.content|] == BookmarkNode(FillBookmark(NewBookmark, markup).value)
    ensures r.Err? ==> r.error == FillBookmark(NewBookmark, markup).error
  {
    var b :- FillBookmark(NewBookmark, markup);
    AppendSorted(folder, BookmarkNode(b));
    Ok((Append(folder, BookmarkNode(b)), pos))
  }

  /** `process_dt`: a bookmark line adds one bookmark; a folder header takes the next line,
      which must open the folder, and reads the sub-folder from the lines after it. */
  function ProcessDT(lines: seq<string>, pos: nat, line: string, folder: Folder, depth: nat)
    : (r: Result<(Folder, nat)>)
    requires pos <= |lines| && SortedChildren(folder)
    ensures r.Ok? ==> pos <= r.value.1 <= |lines| && SortedChildren(r.value.0)
    ensures r.Ok? ==> MatchDT(line).Some? && AppendsOne(folder, r.value.0)
    ensures r.Ok? && MatchDT(line).value.1 ==> r.value.1 == pos
    ensures r.Ok? && !MatchDT(line).value.1 ==>
      pos < r.value.1 && IsOpeningDL(lines[pos]) && ClosedAt(lines, r.value.1, depth + 1)
    ensures MatchDT(line).None? ==> r == Err(UnrecognizedLine(line))
    ensures MatchDT(line).Some? && MatchDT(line).value.1 ==> r == AddBookmark(folder, MatchDT(line).value.0, pos)
    ensures MatchDT(line).Some? && !MatchDT(line).value.1 ==> r == AddFolder(lines, pos, MatchDT(line).value.0, folder, depth)
    ensures r.Ok? && MatchDT(line).value.1 ==>
      r.value.0.content[|folder.content|] == BookmarkNode(FillBookmark(NewBookmark, MatchDT(line).value.0).value)
    ensures r.Ok? && !MatchDT(line).value.1 ==>
      && pos < |lines|
      && r.value.0.content[|folder.content|] == FolderNode(ProcessFolder(lines, pos + 1, MatchDT(line).value.0, depth + 1).value.0)
    decreases |lines| - pos, 1
  {
    match MatchDT(line)
    case None => Err(UnrecognizedLine(line))
    case Some((markup, isBookmark)) =>
      if isBookmark then AddBookmark(folder, markup, pos)
      else AddFolder(lines, pos, markup, folder, depth)
  }

  /** The folder branch of `process_dt`: the line at `pos` must open the folder; its entries
      follow, one level deeper. */
  function AddFolder(lines: seq<string>, pos: nat, markup: string, folder: Folder, depth: nat)
    : (r: Result<(Folder, nat)>)
    requires pos <= |lines| && SortedChildren(folder)
    ensures r.Ok? ==> pos < r.value.1 <= |lines| && SortedChildren(r.value.0) && AppendsOne(folder, r.value.0)
    ensures r.Ok? ==> IsOpeningDL(lines[pos]) && ClosedAt(lines, r.value.1, depth + 1)
    ensures pos == |lines| ==> r == Err(IndexError)
    ensures pos < |lines| && !IsOpeningDL(lines[pos]) ==> r == Err(MissingOpeningDL(markup))
    ensures r.Ok? ==>
      && pos < |lines| && ProcessFolder(lines, pos + 1, markup, depth + 1).Ok?
      && r.value.0.content[|folder.content|] == FolderNode(ProcessFolder(lines, pos + 1, markup, depth + 1).value.0)
      && r.value.1 == ProcessFolder(lines, pos + 1, markup, depth + 1).value.1
    ensures pos < |lines| && IsOpeningDL(lines[pos]) && ProcessFolder(lines, pos + 1, markup, depth + 1).Err?
            ==> r == Err(ProcessFolder(lines, pos + 1, markup, depth + 1).error)
    decreases |lines| - pos, 0
  {
    if pos == |lines| then Err(IndexError)
    else if !IsOpeningDL(lines[pos]) then Err(MissingOpeningDL(markup))
    else
      var sub :- ProcessFolder(lines, pos + 1, markup, depth + 1);
      AppendSorted(folder, FolderNode(sub.0));
      Ok((Append(folder, FolderNode(sub.0)), sub.1))
  }

  /** `process_dd`: the notes go to the last entry, which must be a bookmark; nothing else
      changes. */
  function ProcessDD(line: string, folder: Folder): (r: Result<Folder>)
    requires SortedChildren(folder)
    ensures r.Ok? ==> SortedChildren(r.value)
    ensures r.Ok? ==> var n := |folder.content|;
      && MatchDD(line).Some? && n > 0 && folder.content[n - 1].BookmarkNode?
      && r.value == folder.(content := r.value.content)
      && |r.value.content| == n && r.value.content[..n - 1] == folder.content[..n - 1]
      && r.value.content[n - 1]
         == BookmarkNode(folder.content[n - 1].bookmark.(notes := MatchDD(line)))
    ensures MatchDD(line).None? ==> r == Err(NotADDLine(line))
    ensures MatchDD(line).Some? && |folder.content| == 0 ==> r == Err(IndexError)
    ensures MatchDD(line).Some? && |folder.content| > 0 && folder.content[|folder.content| - 1].FolderNode?
            ==> r == Err(DDOutOfPlace)
  {
    match MatchDD(line)
    case None => Err(NotADDLine(line))
    case Some(notes) =>
      var n := |folder.content|;
      if n == 0 then Err(IndexError)
      else
        match folder.content[n - 1]
        case FolderNode(_) => Err(DDOutOfPlace)
        case BookmarkNode(b) =>
          Ok(folder.(content := folder.content[..n - 1] + [BookmarkNode(b.(notes := Some(notes)))]))
  }

  /** The line-level part of `parse_bookmarks`: skip the four header lines, expect the root's
      opening `<DL><p>`, and read the root folder (empty markup, depth 0) from the rest. */
  function ParseLines(data: seq<string>): (r: Result<Folder>)
    ensures |data| <= 4 ==> r == Err(IndexError)
    ensures |data| > 4 && data[4] != "<DL><p>" ==> r == Err(MissingRootDL)
    ensures r.Ok? ==> |data| > 5 && data[4] == "<DL><p>" && Sorted(r.value)
    ensures r.Ok? ==> r.value.name == "" && r.value.created == 0 && r.value.updated == 0
  {
    if |data| <= 4 then Err(IndexError)
    else if data[4] != "<DL><p>" then Err(MissingRootDL)
    else
      var root :- ProcessFolder(data, 5, "", 0);
      Ok(root.0)
  }

  /** An end marker holds no `<DT>` and no `<DD>`: its only `<` are those of `</DL>` and
      `<p>`. */
  lemma MarkerHasNoEntryTag(d: nat, tag: string)
    requires tag == "<DT>" || tag == "<DD>"
    ensures !Contains(EndMarker(d), tag)
  {
    var m := EndMarker(d);
    forall i | 0 <= i <= |m| ensures !OccursAt(m, tag, i) {
      if i + 4 <= |m| {
        if i < 4 * d {
          assert m[i] == ' ';
        } else {
          assert m[i] == "</DL><p>"[i - 4 * d];
          assert m[i + 1] == "</DL><p>"[i + 1 - 4 * d];
        }
        assert m[i..i + 4][0] == m[i] && m[i..i + 4][1] == m[i + 1];
      }
    }
  }

  /** A closing line indented for another depth is neither this folder's marker, nor blank,
      nor an entry: the folder rejects it as unknown content. */
  lemma WrongIndentationRejected(lines: seq<string>, pos: nat, folder: Folder, depth: nat, blank: bool, d: nat)
    requires pos < |lines| && (blank ==> 0 < pos && lines[pos - 1] == "") && SortedChildren(folder)
    requires lines[pos] == EndMarker(d) && d != depth
    ensures ReadFolder(lines, pos, folder, depth, blank) == Err(UnknownContent(EndMarker(d)))
  {
    assert |EndMarker(d)| != |EndMarker(depth)|;
    MarkerHasNoEntryTag(d, "<DT>");
    MarkerHasNoEntryTag(d, "<DD>");
  }

  /** Blank lines are skipped, and running out of lines right after one closes the folder as
      if its marker had been read. */
  lemma {:induction false} BlankTail(lines: seq<string>, pos: nat, folder: Folder, depth: nat, blank: bool)
    requires pos <= |lines| && (blank ==> 0 < pos && lines[pos - 1] == "") && SortedChildren(folder)
    requires blank || pos < |lines|
    requires forall i :: pos <= i < |lines| ==> lines[i] == ""
    ensures ReadFolder(lines, pos, folder, depth, blank) == Ok((Close(folder), |lines|))
    decreases |lines| - pos
  {
    if pos < |lines| {
      assert |EndMarker(depth)| > 0;
      BlankTail(lines, pos + 1, folder, depth, true);
    }
  }

  /** The input lines agree with `lines` up to `q`. */
  ghost predicate SamePrefix(lines: seq<string>, other: seq<string>, q: nat) {
    q <= |lines| && q <= |other| && forall i :: 0 <= i < q ==> other[i] == lines[i]
  }

  /** `r` closed its folder with the end marker for `depth`, and `other` agrees with `lines`
      on every line up to that marker. */
  ghost predicate ClosedByMarker(lines: seq<string>, other: seq<string>, r: Result<(Folder, nat)>, depth: nat) {
    && r.Ok? && 0 < r.value.1 <= |lines| && lines[r.value.1 - 1] == EndMarker(depth)
    && SamePrefix(lines, other, r.value.1)
  }

  /** `r` stopped before the last line, and `other` agrees with `lines` up to where it
      stopped. */
  ghost predicate ReadBefore(lines: seq<string>, other: seq<string>, r: Result<(Folder, nat)>) {
    r.Ok? && r.value.1 < |lines| && SamePrefix(lines, other, r.value.1)
  }

  /** A folder closed by its end marker at `q` has read no line at or after `q`: any input
      that agrees up to `q` gives the same folder and the same cursor. */
  lemma {:induction false} ProcessFolderReadsNoFurther(lines: seq<string>, other: seq<string>, pos: nat, markup: string, depth: nat)
    requires pos <= |lines|
    requires ClosedByMarker(lines, other, ProcessFolder(lines, pos, markup, depth), depth)
    ensures pos <= |other| && ProcessFolder(other, pos, markup, depth) == ProcessFolder(lines, pos, markup, depth)
    decreases |lines| - pos, 2
  {
    var folder := FillFolder(NewFolder, markup).value;
    ReadFolderReadsNoFurther(lines, other, pos, folder, depth, false);
  }

  lemma {:induction false} ReadFolderReadsNoFurther(lines: seq<string>, other: seq<string>, pos: nat, folder: Folder, depth: nat, blank: bool)
    requires pos <= |lines| && (blank ==> 0 < pos && lines[pos - 1] == "") && SortedChildren(folder)
    requires ClosedByMarker(lines, other, ReadFolder(lines, pos, folder, depth, blank), depth)
    ensures pos <= |other| && (blank ==> other[pos - 1] == "")
    ensures ReadFolder(other, pos, folder, depth, blank) == ReadFolder(lines, pos, folder, depth, blank)
    decreases |lines| - pos, 1
  {
    var q := ReadFolder(lines, pos, folder, depth, blank).value.1;
    assert |EndMarker(depth)| > 0;
    assert pos < |lines|;
    assert pos < q;
    var line := lines[pos];
    assert other[pos] == line;
    if line == EndMarker(depth) {
    } else if line == "" {
      ReadFolderReadsNoFurther(lines, other, pos + 1, folder, depth, true);
    } else if Contains(line, "<DT>") {
      assert ReadAfterDT(lines, pos, folder, depth) == ReadFolder(lines, pos, folder, depth, blank);
      ReadAfterDTReadsNoFurther(lines, other, pos, folder, depth);
    } else if Contains(line, "<DD>") {
      assert ReadAfterDD(lines, pos, folder, depth) == ReadFolder(lines, pos, folder, depth, blank);
      ReadAfterDDReadsNoFurther(lines, other, pos, folder, depth);
    }
  }

  lemma {:induction false} ReadAfterDTReadsNoFurther(lines: seq<string>, other: seq<string>, pos: nat, folder: Folder, depth: nat)
    requires pos < |lines| && SortedChildren(folder)
    requires ClosedByMarker(lines, other, ReadAfterDT(lines, pos, folder, depth), depth)
    ensures pos < |other| && ReadAfterDT(other, pos, folder, depth) == ReadAfterDT(lines, pos, folder, depth)
    decreases |lines| - pos, 0
  {
    var q := ReadAfterDT(lines, pos, folder, depth).value.1;
    var step := ProcessDT(lines, pos + 1, lines[pos], folder, depth).value;
    assert ReadAfterDT(lines, pos, folder, depth) == ReadFolder(lines, step.1, step.0, depth, false);
    assert step.1 < |lines| && step.1 < q;
    assert SamePrefix(lines, other, step.1);
    ProcessDTReadsNoFurther(lines, other, pos + 1, lines[pos], folder, depth);
    ReadFolderReadsNoFurther(lines, other, step.1, step.0, depth, false);
  }

  lemma {:induction false} ReadAfterDDReadsNoFurther(lines: seq<string>, other: seq<string>, pos: nat, folder: Folder, depth: nat)
    requires pos < |lines| && SortedChildren(folder)
    requires ClosedByMarker(lines, other, ReadAfterDD(lines, pos, folder, depth), depth)
    ensures pos < |other| && ReadAfterDD(other, pos, folder, depth) == ReadAfterDD(lines, pos, folder, depth)
    decreases |lines| - pos, 0
  {
    var next := ProcessDD(lines[pos], folder).value;
    assert ReadAfterDD(lines, pos, folder, depth) == ReadFolder(lines, pos + 1, next, depth, false);
    ReadFolderReadsNoFurther(lines, other, pos + 1, next, depth, false);
  }

  /** An entry followed by more lines of its folder read nothing past its own last line. */
  lemma {:induction false} ProcessDTReadsNoFurther(lines: seq<string>, other: seq<string>, pos: nat, line: string, folder: Folder, depth: nat)
    requires pos <= |lines| && SortedChildren(folder)
    requires ReadBefore(lines, other, ProcessDT(lines, pos, line, folder, depth))
    ensures pos <= |other| && ProcessDT(other, pos, line, folder, depth) == ProcessDT(lines, pos, line, folder, depth)
    decreases |lines| - pos, 1
  {
    var markup := MatchDT(line).value.0;
    if !MatchDT(line).value.1 {
      assert ProcessDT(lines, pos, line, folder, depth) == AddFolder(lines, pos, markup, folder, depth);
      AddFolderReadsNoFurther(lines, other, pos, markup, folder, depth);
    }
  }

  lemma {:induction false} AddFolderReadsNoFurther(lines: seq<string>, other: seq<string>, pos: nat, markup: string, folder: Folder, depth: nat)
    requires pos <= |lines| && SortedChildren(folder)
    requires ReadBefore(lines, other, AddFolder(lines, pos, markup, folder, depth))
    ensures pos <= |other| && AddFolder(other, pos, markup, folder, depth) == AddFolder(lines, pos, markup, folder, depth)
    decreases |lines| - pos, 0
  {
    AddFolderClosed(lines, pos, markup, folder, depth);
    var sub := ProcessFolder(lines, pos + 1, markup, depth + 1);
    assert other[pos] == lines[pos];
    assert ClosedByMarker(lines, other, sub, depth + 1);
    ProcessFolderReadsNoFurther(lines, other, pos + 1, markup, depth + 1);
  }

  /** A sub-folder followed by more lines was closed by its own end marker. */
  lemma AddFolderClosed(lines: seq<string>, pos: nat, markup: string, folder: Folder, depth: nat)
    requires pos <= |lines| && SortedChildren(folder)
    requires AddFolder(lines, pos, markup, folder, depth).Ok? && AddFolder(lines, pos, markup, folder, depth).value.1 < |lines|
    ensures pos < |lines| && IsOpeningDL(lines[pos])
    ensures var sub := ProcessFolder(lines, pos + 1, markup, depth + 1);
      && sub.Ok? && sub.value.1 == AddFolder(lines, pos, markup, folder, depth).value.1
      && lines[sub.value.1 - 1] == EndMarker(depth + 1)
  {
  }

  /** Whatever follows the root's closing marker is never read. */
  lemma TrailingLinesIgnored(data: seq<string>, more: seq<string>)
    requires |data| > 5 && data[4] == "<DL><p>" && data[|data| - 1] == EndMarker(0)
    requires ProcessFolder(data, 5, "", 0).Ok? && ProcessFolder(data, 5, "", 0).value.1 == |data|
    ensures ParseLines(data + more) == ParseLines(data)
  {
    ProcessFolderReadsNoFurther(data, data + more, 5, "", 0);
  }

  /** The quirk of the blank last line: a root with nothing after its opening line but blank
      lines parses to an empty root. */
  lemma UnclosedBlankRoot(data: seq<string>)
    requires |data| > 5 && data[4] == "<DL><p>"
    requires forall i :: 5 <= i < |data| ==> data[i] == ""
    ensures ParseLines(data) == Ok(NewFolder)
  {
    BlankTail(data, 5, NewFolder, 0, false);
  }

  /** Without lines left to read, a folder never closes. */
  lemma NoClosingLine(lines: seq<string>, markup: string, depth: nat)
    requires FillFolder(NewFolder, markup).Ok?
    ensures ProcessFolder(lines, |lines|, markup, depth)
            == Err(ClosingNotFound(FillFolder(NewFolder, markup).value.name))
  {
  }
}

/** The bookmark tree's nodes and how one `<A ...>` or `<H3 ...>` fragment fills them in.

    A folder or bookmark starts from its class defaults and `fill` overwrites the fields the
    fragment supplies; timestamps are whole UNIX seconds read with Python's `int()`.
 */
module Bookmarks {
  import opened Wrappers
  import opened Text
  import opened Fragment

  datatype Bookmark = Bookmark(
    name: string,
    created: int,
    updated: int,
    url: string,
    visited: Option<int>,
    tags: seq<string>,
    notes: Option<string>)

  datatype Folder = Folder(
    name: string,
    created: int,
    updated: int,
    depth: int,
    content: seq<Node>)

  /** One entry of a folder's content. */
  datatype Node = FolderNode(folder: Folder) | BookmarkNode(bookmark: Bookmark) {
    function Name(): string {
      match this
      case FolderNode(f) => f.name
      case BookmarkNode(b) => b.name
    }
  }

  /** `Folder()`: no name, timestamps 0, depth 0, no content. */
  const NewFolder: Folder := Folder("", 0, 0, 0, [])

  /** `Bookmark()`: no name or URL, timestamps 0, never visited, no tags, no notes. */
  const NewBookmark: Bookmark := Bookmark("", 0, 0, "", None, [], None)

  /** The separator `fill` splits the TAGS attribute on. */
  const TagSeparator: string := ", "

  /** `int(attrib[key])`: a missing key is a KeyError, a value `int()` refuses a ValueError. */
  function IntAttribute(attrs: map<string, string>, key: string): (r: Result<int>)
    ensures key !in attrs ==> r == Err(KeyError(key))
    ensures key in attrs ==> match ParseInt(attrs[key])
      case None => r == Err(InvalidInt(attrs[key]))
      case Some(n) => r == Ok(n)
  {
    if key !in attrs then Err(KeyError(key))
    else
      match ParseInt(attrs[key])
      case None => Err(InvalidInt(attrs[key]))
      case Some(n) => Ok(n)
  }

  /** `int(attrib[key])` succeeds. */
  predicate HasInt(attrs: map<string, string>, key: string) {
    key in attrs && ParseInt(attrs[key]).Some?
  }

  /** The error `int(attrib[key])` raises when it does not succeed. */
  function IntError(attrs: map<string, string>, key: string): Error {
    if key in attrs then InvalidInt(attrs[key]) else KeyError(key)
  }

  /** `attrib.get(key, default)`. */
  function Get(attrs: map<string, string>, key: string, default: string): string {
    if key in attrs then attrs[key] else default
  }

  /** `Folder.fill`: empty markup leaves the folder alone; otherwise the fragment's text
      becomes the name and ADD_DATE / LAST_MODIFIED the timestamps, in that order. */
  function FillFolder(f: Folder, markup: string): (r: Result<Folder>)
    ensures |markup| == 0 ==> r == Ok(f)
    ensures r.Ok? ==> r.value.depth == f.depth && r.value.content == f.content
    ensures |markup| > 0 && r.Ok? ==>
      && ParseFragment(markup).Ok?
      && var (text, attrs) := ParseFragment(markup).value;
      && r.value.name == text
      && "ADD_DATE" in attrs && ParseInt(attrs["ADD_DATE"]) == Some(r.value.created)
      && "LAST_MODIFIED" in attrs && ParseInt(attrs["LAST_MODIFIED"]) == Some(r.value.updated)
    ensures |markup| > 0 && ParseFragment(markup).Err? ==> r == Err(ParseError(markup))
    ensures |markup| > 0 && ParseFragment(markup).Ok? ==>
      var attrs := ParseFragment(markup).value.1;
      && (!HasInt(attrs, "ADD_DATE") ==> r == Err(IntError(attrs, "ADD_DATE")))
      && (HasInt(attrs, "ADD_DATE") && !HasInt(attrs, "LAST_MODIFIED") ==> r == Err(IntError(attrs, "LAST_MODIFIED")))
      && (HasInt(attrs, "ADD_DATE") && HasInt(attrs, "LAST_MODIFIED") ==> r.Ok?)
  {
    if |markup| == 0 then Ok(f)
    else
      var parsed :- ParseFragment(markup);
      var (text, attrs) := parsed;
      var created :- IntAttribute(attrs, "ADD_DATE");
      var updated :- IntAttribute(attrs, "LAST_MODIFIED");
      Ok(f.(name := text, created := created, updated := updated))
  }

  /** `Bookmark.fill`: name, URL and both timestamps are required (checked in that order);
      LAST_VISIT is read only when present; TAGS (default `""`) split on `", "` is appended
      to the tags already there; the notes are not touched. */
  function FillBookmark(b: Bookmark, markup: string): (r: Result<Bookmark>)
    ensures r.Ok? ==>
      && ParseFragment(markup).Ok?
      && var (text, attrs) := ParseFragment(markup).value;
      && r.value.name == text
      && "HREF" in attrs && r.value.url == attrs["HREF"]
      && "ADD_DATE" in attrs && ParseInt(attrs["ADD_DATE"]) == Some(r.value.created)
      && "LAST_MODIFIED" in attrs && ParseInt(attrs["LAST_MODIFIED"]) == Some(r.value.updated)
      && ("LAST_VISIT" in attrs ==> HasInt(attrs, "LAST_VISIT") && r.value.visited == ParseInt(attrs["LAST_VISIT"]))
      && ("LAST_VISIT" !in attrs ==> r.value.visited == b.visited)
      && r.value.tags == b.tags + Split(Get(attrs, "TAGS", ""), TagSeparator)
      && r.value.notes == b.notes
    ensures ParseFragment(markup).Err? ==> r == Err(ParseError(markup))
    ensures ParseFragment(markup).Ok? ==>
      var attrs := ParseFragment(markup).value.1;
      && ("HREF" !in attrs ==> r == Err(KeyError("HREF")))
      && ("HREF" in attrs && !HasInt(attrs, "ADD_DATE") ==> r == Err(IntError(attrs, "ADD_DATE")))
      && ("HREF" in attrs && HasInt(attrs, "ADD_DATE") && !HasInt(attrs, "LAST_MODIFIED")
          ==> r == Err(IntError(attrs, "LAST_MODIFIED")))
      && var required := "HREF" in attrs && HasInt(attrs, "ADD_DATE") && HasInt(attrs, "LAST_MODIFIED");
      && (required && "LAST_VISIT" in attrs && !HasInt(attrs, "LAST_VISIT") ==> r == Err(InvalidInt(attrs["LAST_VISIT"])))
      && (required && ("LAST_VISIT" in attrs ==> HasInt(attrs, "LAST_VISIT")) ==> r.Ok?)
  {
    var parsed :- ParseFragment(markup);
    var (text, attrs) := parsed;
    var url :- if "HREF" in attrs then Ok(attrs["HREF"]) else Err(KeyError("HREF"));
    var created :- IntAttribute(attrs, "ADD_DATE");
    var updated :- IntAttribute(attrs, "LAST_MODIFIED");
    var visited :-
      if "LAST_VISIT" in attrs then
        var v :- IntAttribute(attrs, "LAST_VISIT");
        Ok(Some(v))
      else Ok(b.visited);
    Ok(b.(name := text, url := url, created := created, updated := updated, visited := visited,
          tags := b.tags + Split(Get(attrs, "TAGS", ""), TagSeparator)))
  }

  /** The attributes `str(n)` can be written into: no quote, `>` or newline. */
  lemma IntToStringRenderable(n: int)
    ensures '"' !in IntToString(n) && '>' !in IntToString(n) && '\n' !in IntToString(n)
  {
    IntToStringChars(n);
  }

  /** The attribute names the tools read are all `\w+` words. */
  lemma AttributeNamesAreWords()
    ensures All("HREF", IsWordChar) && All("ADD_DATE", IsWordChar) && All("LAST_MODIFIED", IsWordChar)
    ensures All("LAST_VISIT", IsWordChar) && All("TAGS", IsWordChar)
  {
  }

  /** The attribute names the tools read are five different keys. */
  lemma AttributeNamesDistinct()
    ensures "HREF" != "ADD_DATE" && "HREF" != "LAST_MODIFIED" && "HREF" != "LAST_VISIT" && "HREF" != "TAGS"
    ensures "ADD_DATE" != "LAST_MODIFIED" && "ADD_DATE" != "LAST_VISIT" && "ADD_DATE" != "TAGS"
    ensures "LAST_MODIFIED" != "LAST_VISIT" && "LAST_MODIFIED" != "TAGS" && "LAST_VISIT" != "TAGS"
  {
    assert "HREF"[0] != "TAGS"[0];
  }

  /** An attribute whose value `str(n)` wrote can be rendered into a tag. */
  lemma IntAttributeRenderable(key: string, n: int)
    requires |key| > 0 && All(key, IsWordChar)
    ensures Renderable([(key, IntToString(n))])
  {
    IntToStringRenderable(n);
  }

  /** The attribute list a folder header carries. */
  function FolderAttributes(created: int, updated: int): seq<(string, string)> {
    [("ADD_DATE", IntToString(created))] + [("LAST_MODIFIED", IntToString(updated))]
  }

  /** The `<H3 ...>name</H3>` header that describes a folder. */
  function FolderMarkup(name: string, created: int, updated: int): string {
    Assemble("H3", " ", RenderAttributes(FolderAttributes(created, updated)), name, "H3")
  }

  lemma ParseFolderMarkup(name: string, created: int, updated: int)
    requires '\n' !in name
    ensures ParseFragment(FolderMarkup(name, created, updated))
         == Ok((name, map["ADD_DATE" := IntToString(created), "LAST_MODIFIED" := IntToString(updated)]))
  {
    var p0, p1 := ("ADD_DATE", IntToString(created)), ("LAST_MODIFIED", IntToString(updated));
    AttributeNamesAreWords();
    IntAttributeRenderable(p0.0, created);
    IntAttributeRenderable(p1.0, updated);
    RenderableAppend([p0], [p1]);
    assert All("H3", IsWordChar) && All(" ", IsSpace);
    ParseAssembledFragment("H3", " ", [p0] + [p1], name, "H3");
    ToMapAppend([p0], [p1]);
    ToMapSingle(p0);
    ToMapSingle(p1);
  }

  /** What `fill` makes of any non-empty header whose parse gives this text and these
      attributes. */
  lemma FillFolderFromAttributes(f: Folder, markup: string, text: string, attrs: map<string, string>,
                                 created: int, updated: int)
    requires ParseFragment(markup) == Ok((text, attrs)) && |markup| > 0
    requires "ADD_DATE" in attrs && ParseInt(attrs["ADD_DATE"]) == Some(created)
    requires "LAST_MODIFIED" in attrs && ParseInt(attrs["LAST_MODIFIED"]) == Some(updated)
    ensures FillFolder(f, markup) == Ok(f.(name := text, created := created, updated := updated))
  {
  }

  lemma ReadFolderAttributes(attrs: map<string, string>, created: int, updated: int)
    requires attrs == map["ADD_DATE" := IntToString(created), "LAST_MODIFIED" := IntToString(updated)]
    ensures "ADD_DATE" in attrs && ParseInt(attrs["ADD_DATE"]) == Some(created)
    ensures "LAST_MODIFIED" in attrs && ParseInt(attrs["LAST_MODIFIED"]) == Some(updated)
  {
    AttributeNamesDistinct();
    ParseIntToString(created);
    ParseIntToString(updated);
  }

  /** Filling a folder from the header written for it reproduces the header's fields. */
  lemma FillFolderFromMarkup(f: Folder, name: string, created: int, updated: int)
    requires '\n' !in name
    ensures FillFolder(f, FolderMarkup(name, created, updated))
         == Ok(f.(name := name, created := created, updated := updated))
  {
    var attrs := map["ADD_DATE" := IntToString(created), "LAST_MODIFIED" := IntToString(updated)];
    ParseFolderMarkup(name, created, updated);
    ReadFolderAttributes(attrs, created, updated);
    FillFolderFromAttributes(f, FolderMarkup(name, created, updated), name, attrs, created, updated);
  }

  /** A tag the `TAGS` attribute can carry and give back: nothing that ends the attribute,
      the tag or the line, and no separator inside it. */
  ghost predicate WritableTag(tag: string) {
    '"' !in tag && '>' !in tag && '\n' !in tag && !Contains(tag, TagSeparator)
  }

  /** `[(key, value)]` when there is a value, otherwise no pair at all. */
  function Optional(key: string, value: Option<string>): seq<(string, string)> {
    if value.Some? then [(key, value.value)] else []
  }

  /** The optional part of a bookmark's attributes: the visit time, then the tags. */
  function OptionalAttributes(visited: Option<int>, tags: Option<seq<string>>): seq<(string, string)> {
    Optional("LAST_VISIT", if visited.Some? then Some(IntToString(visited.value)) else None)
    + Optional("TAGS", if tags.Some? then Some(Join(tags.value, TagSeparator)) else None)
  }

  /** The attribute list a bookmark's `<A ...>` tag carries: URL, both timestamps, the visit
      time when there is one and the tags when they are written at all. */
  function BookmarkAttributes(url: string, created: int, updated: int, visited: Option<int>,
                              tags: Option<seq<string>>): seq<(string, string)> {
    [("HREF", url)] + [("ADD_DATE", IntToString(created))] + [("LAST_MODIFIED", IntToString(updated))]
    + OptionalAttributes(visited, tags)
  }

  /** The `<A ...>name</A>` tag that describes a bookmark. */
  function BookmarkMarkup(name: string, url: string, created: int, updated: int, visited: Option<int>,
                          tags: Option<seq<string>>): string {
    Assemble("A", " ", RenderAttributes(BookmarkAttributes(url, created, updated, visited, tags)), name, "A")
  }

  lemma OptionalAttributesRenderable(visited: Option<int>, tags: Option<seq<string>>)
    requires tags.Some? ==> forall i :: 0 <= i < |tags.value| ==> WritableTag(tags.value[i])
    ensures Renderable(OptionalAttributes(visited, tags))
  {
    AttributeNamesAreWords();
    var v := Optional("LAST_VISIT", if visited.Some? then Some(IntToString(visited.value)) else None);
    var t := Optional("TAGS", if tags.Some? then Some(Join(tags.value, TagSeparator)) else None);
    if visited.Some? {
      IntAttributeRenderable("LAST_VISIT", visited.value);
    }
    if tags.Some? {
      JoinAvoids(tags.value, TagSeparator, '"');
      JoinAvoids(tags.value, TagSeparator, '>');
      JoinAvoids(tags.value, TagSeparator, '\n');
    }
    RenderableAppend(v, t);
  }

  lemma BookmarkAttributesRenderable(url: string, created: int, updated: int, visited: Option<int>,
                                     tags: Option<seq<string>>)
    requires '"' !in url && '>' !in url && '\n' !in url
    requires tags.Some? ==> forall i :: 0 <= i < |tags.value| ==> WritableTag(tags.value[i])
    ensures Renderable(BookmarkAttributes(url, created, updated, visited, tags))
  {
    AttributeNamesAreWords();
    var p0, p1 := ("ADD_DATE", IntToString(created)), ("LAST_MODIFIED", IntToString(updated));
    IntAttributeRenderable(p0.0, created);
    IntAttributeRenderable(p1.0, updated);
    RenderableAppend([p0], [p1]);
    OptionalAttributesRenderable(visited, tags);
    RenderableAppend([("HREF", url)], FolderAttributes(created, updated));
    RenderableAppend([("HREF", url)] + FolderAttributes(created, updated), OptionalAttributes(visited, tags));
  }

  lemma OptionalAttributesKeys(visited: Option<int>, tags: Option<seq<string>>)
    ensures ToMap(OptionalAttributes(visited, tags)).Keys <= {"LAST_VISIT", "TAGS"}
  {
  }

  /** The map the optional attributes fill: an entry for each one written. */
  lemma OptionalAttributesMap(visited: Option<int>, tags: Option<seq<string>>)
    ensures var m := ToMap(OptionalAttributes(visited, tags));
      && ("LAST_VISIT" in m <==> visited.Some?)
      && (visited.Some? ==> m["LAST_VISIT"] == IntToString(visited.value))
      && ("TAGS" in m <==> tags.Some?)
      && (tags.Some? ==> m["TAGS"] == Join(tags.value, TagSeparator))
  {
    var v := Optional("LAST_VISIT", if visited.Some? then Some(IntToString(visited.value)) else None);
    var t := Optional("TAGS", if tags.Some? then Some(Join(tags.value, TagSeparator)) else None);
    ToMapAppend(v, t);
    AttributeNamesDistinct();
    if visited.Some? {
      ToMapSingle(v[0]);
    }
    if tags.Some? {
      ToMapSingle(t[0]);
    }
  }

  /** The map a bookmark's attribute list fills holds the three attributes always written. */
  lemma BookmarkAttributesRequired(url: string, created: int, updated: int, visited: Option<int>,
                                   tags: Option<seq<string>>)
    ensures var m := ToMap(BookmarkAttributes(url, created, updated, visited, tags));
      && "HREF" in m && m["HREF"] == url
      && "ADD_DATE" in m && m["ADD_DATE"] == IntToString(created)
      && "LAST_MODIFIED" in m && m["LAST_MODIFIED"] == IntToString(updated)
  {
    var p, p0, p1 := ("HREF", url), ("ADD_DATE", IntToString(created)), ("LAST_MODIFIED", IntToString(updated));
    var rest := OptionalAttributes(visited, tags);
    AttributeNamesDistinct();
    ToMapThreeDistinct(p, p0, p1);
    OptionalAttributesKeys(visited, tags);
    ToMapAppendKeeps([p] + [p0] + [p1], rest, p.0, p.1);
    ToMapAppendKeeps([p] + [p0] + [p1], rest, p0.0, p0.1);
    ToMapAppendKeeps([p] + [p0] + [p1], rest, p1.0, p1.1);
  }

  /** ... and the optional attributes exactly when they were written. */
  lemma BookmarkAttributesOptional(url: string, created: int, updated: int, visited: Option<int>,
                                   tags: Option<seq<string>>)
    ensures var m := ToMap(BookmarkAttributes(url, created, updated, visited, tags));
      && ("LAST_VISIT" in m <==> visited.Some?)
      && (visited.Some? ==> m["LAST_VISIT"] == IntToString(visited.value))
      && ("TAGS" in m <==> tags.Some?)
      && (tags.Some? ==> m["TAGS"] == Join(tags.value, TagSeparator))
  {
    var p, p0, p1 := ("HREF", url), ("ADD_DATE", IntToString(created)), ("LAST_MODIFIED", IntToString(updated));
    var rest := OptionalAttributes(visited, tags);
    ToMapAppend([p] + [p0] + [p1], rest);
    OptionalAttributesMap(visited, tags);
  }

  lemma ParseBookmarkMarkup(name: string, url: string, created: int, updated: int, visited: Option<int>,
                            tags: Option<seq<string>>)
    requires '\n' !in name && '"' !in url && '>' !in url && '\n' !in url
    requires tags.Some? ==> forall i :: 0 <= i < |tags.value| ==> WritableTag(tags.value[i])
    ensures ParseFragment(BookmarkMarkup(name, url, created, updated, visited, tags))
         == Ok((name, ToMap(BookmarkAttributes(url, created, updated, visited, tags))))
  {
    BookmarkAttributesRenderable(url, created, updated, visited, tags);
    assert All("A", IsWordChar) && All(" ", IsSpace);
    ParseAssembledFragment("A", " ", BookmarkAttributes(url, created, updated, visited, tags), name, "A");
  }

  /** Reading back the attribute values a bookmark's tag was written with. */
  lemma ReadBookmarkAttributes(attrs: map<string, string>, url: string, created: int, updated: int,
                               visited: Option<int>, tags: Option<seq<string>>)
    requires "ADD_DATE" in attrs && attrs["ADD_DATE"] == IntToString(created)
    requires "LAST_MODIFIED" in attrs && attrs["LAST_MODIFIED"] == IntToString(updated)
    requires "LAST_VISIT" in attrs <==> visited.Some?
    requires visited.Some? ==> attrs["LAST_VISIT"] == IntToString(visited.value)
    requires "TAGS" in attrs <==> tags.Some?
    requires tags.Some? ==> attrs["TAGS"] == Join(tags.value, TagSeparator)
    requires tags.Some? ==> |tags.value| > 0 && forall i :: 0 <= i < |tags.value| ==> WritableTag(tags.value[i])
    ensures ParseInt(attrs["ADD_DATE"]) == Some(created)
    ensures ParseInt(attrs["LAST_MODIFIED"]) == Some(updated)
    ensures "LAST_VISIT" in attrs ==> ParseInt(attrs["LAST_VISIT"]) == visited
    ensures Split(Get(attrs, "TAGS", ""), TagSeparator) == if tags.Some? then tags.value else [""]
  {
    ParseIntToString(created);
    ParseIntToString(updated);
    if visited.Some? {
      ParseIntToString(visited.value);
    }
    if tags.Some? {
      SplitJoin(tags.value, TagSeparator);
    } else {
      assert Split("", TagSeparator) == [""];
    }
  }

  /** What `fill` makes of any fragment whose parse gives this text and these attributes. */
  lemma FillBookmarkFromAttributes(b: Bookmark, markup: string, text: string, attrs: map<string, string>,
                                   url: string, created: int, updated: int, visited: Option<int>,
                                   tags: seq<string>)
    requires ParseFragment(markup) == Ok((text, attrs))
    requires "HREF" in attrs && attrs["HREF"] == url
    requires "ADD_DATE" in attrs && ParseInt(attrs["ADD_DATE"]) == Some(created)
    requires "LAST_MODIFIED" in attrs && ParseInt(attrs["LAST_MODIFIED"]) == Some(updated)
    requires ("LAST_VISIT" in attrs <==> visited.Some?)
    requires "LAST_VISIT" in attrs ==> ParseInt(attrs["LAST_VISIT"]) == visited
    requires Split(Get(attrs, "TAGS", ""), TagSeparator) == tags
    ensures FillBookmark(b, markup)
         == Ok(b.(name := text, url := url, created := created, updated := updated,
                  visited := if visited.Some? then visited else b.visited, tags := b.tags + tags))
  {
  }

  /** Filling a bookmark from the tag written for it reproduces the tag's fields. Without a
      LAST_VISIT attribute the visit time is left as it was; without a TAGS attribute the tag
      list gains exactly one empty tag, `"".split(", ") == [""]`. */
  lemma FillBookmarkFromMarkup(b: Bookmark, name: string, url: string, created: int, updated: int,
                               visited: Option<int>, tags: Option<seq<string>>)
    requires '\n' !in name && '"' !in url && '>' !in url && '\n' !in url
    requires tags.Some? ==> |tags.value| > 0 && forall i :: 0 <= i < |tags.value| ==> WritableTag(tags.value[i])
    ensures FillBookmark(b, BookmarkMarkup(name, url, created, updated, visited, tags))
         == Ok(b.(name := name, url := url, created := created, updated := updated,
                  visited := if visited.Some? then visited else b.visited,
                  tags := b.tags + if tags.Some? then tags.value else [""]))
  {
    var markup := BookmarkMarkup(name, url, created, updated, visited, tags);
    var attrs := ToMap(BookmarkAttributes(url, created, updated, visited, tags));
    var written := if tags.Some? then tags.value else [""];
    ParseBookmarkMarkup(name, url, created, updated, visited, tags);
    BookmarkAttributesRequired(url, created, updated, visited, tags);
    BookmarkAttributesOptional(url, created, updated, visited, tags);
    ReadBookmarkAttributes(attrs, url, created, updated, visited, tags);
    FillBookmarkFromAttributes(b, markup, name, attrs, url, created, updated, visited, written);
  }
}

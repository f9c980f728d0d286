/** `parse_fragment` (bin/bookmarkos/data/bookmarks.py): split one `<TAG attrs>text</TAG>`
    fragment into its inner text and its attribute map.

    The two fixed patterns are specified by their effect rather than through a regex engine:
    - `^<\w+\s+(.*?)>(.*)</\w+>$` under `fullmatch`: the tag name is the longest word run
      after `<`, the whitespace after it is taken greedily, the (lazy) attribute block runs
      to the FIRST `>`, and the text is everything after it up to a trailing `</word>`; `.`
      matches no newline and the closing tag name is not compared with the opening one;
    - `(\w+)="(.*?)"` under `findall`: scanning left to right, a word immediately followed by
      `="`, whose value runs to the next `"`.
 */
module Fragment {
  import opened Wrappers
  import opened Text
  import opened Collections

  /** The text group of a fragment's tail: everything up to a trailing `</word>`. */
  function ClosingText(rest: string): (r: Option<string>)
  {
    if |rest| == 0 || rest[|rest| - 1] != '>' then None
    else
      var k := RunStart(rest, |rest| - 1, IsWordChar);
      if k == |rest| - 1 || k < 2 || rest[k - 2] != '<' || rest[k - 1] != '/' || '\n' in rest[..k - 2]
      then None
      else Some(rest[..k - 2])
  }

  /** The two groups of `EXTRACTION_RE.fullmatch(s)`: Some((attributes, text)), or None when
      the fragment does not have the shape. */
  function Extract(s: string): (r: Option<(string, string)>)
  {
    if |s| == 0 || s[0] != '<' then None
    else
      var i := RunEnd(s, 1, IsWordChar);
      var j := RunEnd(s, i, IsSpace);
      var p := Find(s, '>', j);
      if i == 1 || j == i || p == |s| || '\n' in s[j..p] then None
      else
        match ClosingText(s[p + 1..])
        case None => None
        case Some(text) => Some((s[j..p], text))
  }

  /** The pieces a fragment is made of, as the extraction pattern reads them. */
  ghost predicate WellFormedParts(open: string, space: string, attrs: string, text: string, close: string) {
    && |open| > 0 && All(open, IsWordChar)
    && |space| > 0 && All(space, IsSpace)
    && '>' !in attrs && '\n' !in attrs
    && (|attrs| == 0 || !IsSpace(attrs[0]))
    && '\n' !in text
    && |close| > 0 && All(close, IsWordChar)
  }

  function Assemble(open: string, space: string, attrs: string, text: string, close: string): string {
    "<" + open + space + attrs + ">" + text + "</" + close + ">"
  }

  lemma SliceSplit(s: string, a: nat, b: nat, c: nat)
    requires a <= b <= c <= |s|
    ensures s[a..c] == s[a..b] + s[b..c]
  {
  }

  lemma ClosingTextOfAssembled(text: string, close: string)
    requires '\n' !in text && |close| > 0 && All(close, IsWordChar)
    ensures ClosingText(text + "</" + close + ">") == Some(text)
  {
    var rest := text + "</" + close + ">";
    var k := RunStart(rest, |rest| - 1, IsWordChar);
    var e := |text| + 2;
    assert forall m :: e <= m < |rest| - 1 ==> rest[m] == close[m - e];
    assert rest[e - 1] == '/';
    RunStartAt(rest, e, |rest| - 1, IsWordChar);
    assert rest[..k - 2] == text;
  }

  /** The three ways the scans of the extraction cut an assembled fragment. */
  lemma AssembleCuts(open: string, space: string, attrs: string, text: string, close: string)
    ensures var s := Assemble(open, space, attrs, text, close);
      && s == "<" + open + (space + attrs + ">" + text + "</" + close + ">")
      && s == ("<" + open) + space + (attrs + ">" + text + "</" + close + ">")
      && s == ("<" + open + space) + attrs + ['>'] + (text + "</" + close + ">")
  {
  }

  lemma AssembledTagName(open: string, space: string, attrs: string, text: string, close: string)
    requires WellFormedParts(open, space, attrs, text, close)
    ensures RunEnd(Assemble(open, space, attrs, text, close), 1, IsWordChar) == 1 + |open|
  {
    var tail := space + attrs + ">" + text + "</" + close + ">";
    AssembleCuts(open, space, attrs, text, close);
    assert tail[0] == space[0];
    RunEndOver("<", open, tail, IsWordChar);
  }

  lemma AssembledSpace(open: string, space: string, attrs: string, text: string, close: string)
    requires WellFormedParts(open, space, attrs, text, close)
    ensures RunEnd(Assemble(open, space, attrs, text, close), 1 + |open|, IsSpace)
         == 1 + |open| + |space|
  {
    var tail := attrs + ">" + text + "</" + close + ">";
    AssembleCuts(open, space, attrs, text, close);
    assert tail[0] == if |attrs| > 0 then attrs[0] else '>';
    RunEndOver("<" + open, space, tail, IsSpace);
  }

  lemma AssembledAttributes(open: string, space: string, attrs: string, text: string, close: string)
    requires WellFormedParts(open, space, attrs, text, close)
    ensures var s := Assemble(open, space, attrs, text, close);
      var j := 1 + |open| + |space|;
      && Find(s, '>', j) == j + |attrs|
      && s[j..j + |attrs|] == attrs
      && s[j + |attrs| + 1..] == text + "</" + close + ">"
  {
    var head := "<" + open + space;
    var tail := text + "</" + close + ">";
    AssembleCuts(open, space, attrs, text, close);
    FindOver(head, attrs, '>', tail);
    PieceOf(head, attrs, ['>'], tail);
  }

  /** The pieces of `x + a + b + c` are slices of it. */
  lemma PieceOf(x: string, a: string, b: string, c: string)
    ensures (x + a + b + c)[|x|..|x| + |a|] == a
    ensures (x + a + b + c)[|x| + |a| + |b|..] == c
  {
  }

  lemma AssembledClosing(open: string, space: string, attrs: string, text: string, close: string)
    requires WellFormedParts(open, space, attrs, text, close)
    ensures var s := Assemble(open, space, attrs, text, close);
      var j := 1 + |open| + |space|;
      && Find(s, '>', j) == j + |attrs|
      && s[j..j + |attrs|] == attrs
      && ClosingText(s[j + |attrs| + 1..]) == Some(text)
  {
    AssembledAttributes(open, space, attrs, text, close);
    ClosingTextOfAssembled(text, close);
  }

  /** The extraction, given the positions at which its scans stop. */
  lemma ExtractAt(s: string, i: nat, j: nat, p: nat, attrs: string, text: string)
    requires |s| > 0 && s[0] == '<' && 1 < i < j <= p < |s|
    requires RunEnd(s, 1, IsWordChar) == i && RunEnd(s, i, IsSpace) == j && Find(s, '>', j) == p
    requires s[j..p] == attrs && '\n' !in attrs && ClosingText(s[p + 1..]) == Some(text)
    ensures Extract(s) == Some((attrs, text))
  {
  }

  /** Every well-formed fragment is accepted and yields exactly its attribute block and text. */
  lemma ExtractAssembled(open: string, space: string, attrs: string, text: string, close: string)
    requires WellFormedParts(open, space, attrs, text, close)
    ensures Extract(Assemble(open, space, attrs, text, close)) == Some((attrs, text))
  {
    var s := Assemble(open, space, attrs, text, close);
    var i, j := 1 + |open|, 1 + |open| + |space|;
    AssembledTagName(open, space, attrs, text, close);
    AssembledSpace(open, space, attrs, text, close);
    AssembledClosing(open, space, attrs, text, close);
    ExtractAt(s, i, j, j + |attrs|, attrs, text);
  }

  /** An accepted tail is its text followed by a closing tag. */
  lemma ClosingTextSound(rest: string) returns (close: string)
    requires ClosingText(rest).Some?
    ensures |close| > 0 && All(close, IsWordChar) && '\n' !in ClosingText(rest).value
    ensures rest == ClosingText(rest).value + "</" + close + ">"
  {
    var k := RunStart(rest, |rest| - 1, IsWordChar);
    close := rest[k..|rest| - 1];
    RunStartCovers(rest, |rest| - 1, IsWordChar);
    assert All(close, IsWordChar);
    FourSlices(rest, k - 2, k, |rest| - 1);
    assert rest[k - 2..k] == "</";
    assert rest[|rest| - 1..] == ">";
  }

  lemma FourSlices(s: string, a: nat, b: nat, c: nat)
    requires a <= b <= c <= |s|
    ensures s == s[..a] + s[a..b] + s[b..c] + s[c..]
  {
    SliceSplit(s, 0, c, |s|);
    SliceSplit(s, 0, b, c);
    SliceSplit(s, 0, a, b);
  }

  lemma FiveSlices(s: string, i: nat, j: nat, p: nat)
    requires 1 <= i <= j <= p < |s|
    ensures s == s[..1] + s[1..i] + s[i..j] + s[j..p] + s[p..p + 1] + s[p + 1..]
  {
    SliceSplit(s, 0, p + 1, |s|);
    SliceSplit(s, 0, p, p + 1);
    SliceSplit(s, 0, j, p);
    SliceSplit(s, 0, i, j);
    SliceSplit(s, 0, 1, i);
  }

  /** The groups of an accepted fragment, with the positions the pattern stops at. */
  lemma ExtractPositions(s: string) returns (i: nat, j: nat, p: nat)
    requires Extract(s).Some?
    ensures 1 < i < j <= p < |s| && s[0] == '<' && s[p] == '>'
    ensures All(s[1..i], IsWordChar) && All(s[i..j], IsSpace)
    ensures Extract(s).value.0 == s[j..p] && ClosingText(s[p + 1..]) == Some(Extract(s).value.1)
    ensures '>' !in s[j..p] && '\n' !in s[j..p] && !IsSpace(s[j])
  {
    i := RunEnd(s, 1, IsWordChar);
    j := RunEnd(s, i, IsSpace);
    p := Find(s, '>', j);
    RunEndCovers(s, 1, IsWordChar);
    RunEndCovers(s, i, IsSpace);
    FindSkips(s, '>', j);
  }

  lemma AssembledFromSlices(s: string, i: nat, j: nat, p: nat, text: string, close: string)
    requires 1 < i < j <= p < |s| && s[0] == '<' && s[p] == '>'
    requires s[p + 1..] == text + "</" + close + ">"
    ensures s == Assemble(s[1..i], s[i..j], s[j..p], text, close)
  {
    FiveSlices(s, i, j, p);
    assert s[..1] == "<" && s[p..p + 1] == ">";
  }

  /** Whatever the extraction accepts is a well-formed fragment assembled from the two groups
      it returns: with `ExtractAssembled`, the pattern is characterised exactly. */
  lemma ExtractSound(s: string)
    requires Extract(s).Some?
    ensures exists open, space, close ::
      && WellFormedParts(open, space, Extract(s).value.0, Extract(s).value.1, close)
      && s == Assemble(open, space, Extract(s).value.0, Extract(s).value.1, close)
  {
    var i, j, p := ExtractPositions(s);
    var attrs, text := Extract(s).value.0, Extract(s).value.1;
    var close := ClosingTextSound(s[p + 1..]);
    AssembledFromSlices(s, i, j, p, text, close);
    assert WellFormedParts(s[1..i], s[i..j], attrs, text, close);
  }

  /** A fragment is rejected unless it starts with `<` and ends with `>`. */
  lemma ExtractNeedsBrackets(s: string)
    ensures Extract(s).Some? ==> |s| >= 2 && s[0] == '<' && s[|s| - 1] == '>'
  {
    if Extract(s).Some? {
      var i, j, p := ExtractPositions(s);
      var close := ClosingTextSound(s[p + 1..]);
      assert s[p + 1..][|s[p + 1..]| - 1] == '>';
    }
  }

  /** The `(\w+)="(.*?)"` match starting exactly at the front of `s`: key, value, and the
      number of characters it spans. */
  function AttributeAt(s: string): (r: Option<(string, string, nat)>)
    ensures r.Some? ==> 0 < r.value.2 <= |s| && WellFormedAttribute(r.value.0, r.value.1)
  {
    var k := RunEnd(s, 0, IsWordChar);
    RunEndCovers(s, 0, IsWordChar);
    if k == 0 || k + 2 > |s| || s[k] != '=' || s[k + 1] != '"' then None
    else
      var q := Find(s, '"', k + 2);
      FindSkips(s, '"', k + 2);
      if q == |s| || '\n' in s[k + 2..q] then None
      else Some((s[..k], s[k + 2..q], q + 1))
  }

  /** A key and value as `key="value"` can carry them. */
  ghost predicate WellFormedAttribute(key: string, value: string) {
    |key| > 0 && All(key, IsWordChar) && '"' !in value && '\n' !in value
  }

  /** `ATTRIB_RE.findall(s)`: every non-overlapping match, left to right. */
  function FindAttributes(s: string): (pairs: seq<(string, string)>)
    ensures forall i :: 0 <= i < |pairs| ==> WellFormedAttribute(pairs[i].0, pairs[i].1)
    decreases |s|
  {
    if |s| == 0 then []
    else
      match AttributeAt(s)
      case Some((key, value, n)) => [(key, value)] + FindAttributes(s[n..])
      case None => FindAttributes(s[1..])
  }

  /** Filling a dict pair by pair: a repeated key keeps its last value. */
  function ToMap(pairs: seq<(string, string)>): (m: map<string, string>)
    ensures m.Keys == set i | 0 <= i < |pairs| :: pairs[i].0
  {
    if |pairs| == 0 then map[]
    else
      var init := pairs[..|pairs| - 1];
      var last := pairs[|pairs| - 1];
      assert forall i :: 0 <= i < |pairs| - 1 ==> pairs[i] == init[i];
      ToMap(init)[last.0 := last.1]
  }

  /** `key1="value1" key2="value2" ...`, the attribute block of a fragment. */
  function RenderAttributes(pairs: seq<(string, string)>): string {
    if |pairs| == 0 then ""
    else
      pairs[0].0 + "=\"" + pairs[0].1 + "\""
      + ((if |pairs| > 1 then " " else "") + RenderAttributes(pairs[1..]))
  }

  lemma AttributeAtRendered(key: string, value: string, rest: string)
    requires WellFormedAttribute(key, value)
    ensures AttributeAt(key + "=\"" + value + "\"" + rest) == Some((key, value, |key| + |value| + 3))
  {
    var s := key + "=\"" + value + "\"" + rest;
    var k := |key|;
    assert forall m :: 0 <= m < k ==> s[m] == key[m];
    assert s[k] == '=';
    RunEndAt(s, 0, k, IsWordChar);
    assert forall m :: k + 2 <= m < k + 2 + |value| ==> s[m] == value[m - k - 2];
    assert s[k + 2 + |value|] == '"';
    FindAt(s, '"', k + 2, k + 2 + |value|);
    assert s[..k] == key;
    assert s[k + 2..k + 2 + |value|] == value;
  }

  /** Pairs that render to an attribute block the extraction pattern passes through whole:
      well-formed, and no value holding the `>` that would end the block early. */
  ghost predicate Renderable(pairs: seq<(string, string)>) {
    forall i :: 0 <= i < |pairs| ==> WellFormedAttribute(pairs[i].0, pairs[i].1) && '>' !in pairs[i].1
  }

  lemma FindAttributesAfterPair(key: string, value: string, rest: string)
    requires WellFormedAttribute(key, value)
    ensures FindAttributes(key + "=\"" + value + "\"" + rest) == [(key, value)] + FindAttributes(rest)
  {
    var s := key + "=\"" + value + "\"" + rest;
    AttributeAtRendered(key, value, rest);
    assert s[|key| + |value| + 3..] == rest;
  }

  lemma FindAttributesAfterSpace(rest: string)
    ensures FindAttributes(" " + rest) == FindAttributes(rest)
  {
    var s := " " + rest;
    assert !IsWordChar(s[0]);
    RunEndAt(s, 0, 0, IsWordChar);
    assert AttributeAt(s).None?;
    assert s[1..] == rest;
  }

  /** Scanning a rendered attribute block finds exactly the rendered pairs, in order. */
  lemma {:induction false} FindRenderedAttributes(pairs: seq<(string, string)>)
    requires forall i :: 0 <= i < |pairs| ==> WellFormedAttribute(pairs[i].0, pairs[i].1)
    ensures FindAttributes(RenderAttributes(pairs)) == pairs
  {
    if |pairs| > 0 {
      var key, value := pairs[0].0, pairs[0].1;
      var tail := RenderAttributes(pairs[1..]);
      var gap := if |pairs| > 1 then " " else "";
      assert RenderAttributes(pairs) == key + "=\"" + value + "\"" + (gap + tail);
      FindAttributesAfterPair(key, value, gap + tail);
      if |pairs| > 1 {
        FindAttributesAfterSpace(tail);
      } else {
        assert gap + tail == tail;
      }
      FindRenderedAttributes(pairs[1..]);
      assert pairs == [(key, value)] + pairs[1..];
    }
  }

  /** The value a key maps to is the one its last pair carries. */
  lemma {:induction false} ToMapLast(pairs: seq<(string, string)>, i: nat)
    requires i < |pairs| && forall j :: i < j < |pairs| ==> pairs[j].0 != pairs[i].0
    ensures pairs[i].0 in ToMap(pairs) && ToMap(pairs)[pairs[i].0] == pairs[i].1
  {
    if i < |pairs| - 1 {
      var init := pairs[..|pairs| - 1];
      assert init[i] == pairs[i];
      forall j | i < j < |init| ensures init[j].0 != init[i].0 {
        assert init[j] == pairs[j];
      }
      ToMapLast(init, i);
    }
  }

  lemma ToMapSingle(p: (string, string))
    ensures ToMap([p]) == map[p.0 := p.1]
  {
    assert [p][..0] == [];
  }

  /** Filling from `a` then from `b` is `b`'s pairs laid over `a`'s. */
  lemma {:induction false} ToMapAppend(a: seq<(string, string)>, b: seq<(string, string)>)
    ensures ToMap(a + b) == ToMap(a) + ToMap(b)
  {
    if |b| == 0 {
      assert a + b == a;
    } else {
      var init := b[..|b| - 1];
      assert (a + b)[..|a + b| - 1] == a + init;
      ToMapAppend(a, init);
    }
  }

  lemma ToMapThree(a: (string, string), b: (string, string), c: (string, string))
    ensures ToMap([a] + [b] + [c]) == map[a.0 := a.1][b.0 := b.1][c.0 := c.1]
  {
    ToMapAppend([a] + [b], [c]);
    ToMapAppend([a], [b]);
    ToMapSingle(a);
    ToMapSingle(b);
    ToMapSingle(c);
  }

  /** A key that `b` does not fill keeps the value `a` gave it. */
  lemma ToMapAppendKeeps(a: seq<(string, string)>, b: seq<(string, string)>, key: string, value: string)
    requires key in ToMap(a) && ToMap(a)[key] == value && key !in ToMap(b)
    ensures key in ToMap(a + b) && ToMap(a + b)[key] == value
  {
    ToMapAppend(a, b);
  }

  /** Three pairs with different keys each fill their own entry. */
  lemma ToMapThreeDistinct(a: (string, string), b: (string, string), c: (string, string))
    requires a.0 != b.0 && a.0 != c.0 && b.0 != c.0
    ensures var m := ToMap([a] + [b] + [c]);
      a.0 in m && m[a.0] == a.1 && b.0 in m && m[b.0] == b.1 && c.0 in m && m[c.0] == c.1
  {
    ToMapThree(a, b, c);
  }

  lemma RenderableAppend(a: seq<(string, string)>, b: seq<(string, string)>)
    requires Renderable(a) && Renderable(b)
    ensures Renderable(a + b)
  {
    assert forall i :: 0 <= i < |a + b| ==> (a + b)[i] == if i < |a| then a[i] else b[i - |a|];
  }

  lemma ToMapHoldsPairs(pairs: seq<(string, string)>)
    requires DistinctKeys(pairs)
    ensures forall p :: p in pairs ==> p.0 in ToMap(pairs) && ToMap(pairs)[p.0] == p.1
  {
    forall p | p in pairs ensures p.0 in ToMap(pairs) && ToMap(pairs)[p.0] == p.1 {
      var i :| 0 <= i < |pairs| && pairs[i] == p;
      ToMapLast(pairs, i);
    }
  }

  lemma SameElements(pairs: seq<(string, string)>, other: seq<(string, string)>)
    requires multiset(pairs) == multiset(other)
    ensures forall p :: p in pairs <==> p in other
  {
    forall p ensures p in pairs <==> p in other {
      assert p in pairs <==> p in multiset(pairs);
      assert p in other <==> p in multiset(other);
    }
  }

  /** Two maps built from the same distinct-key pairs have the same keys and values. */
  lemma ToMapSameKeys(pairs: seq<(string, string)>, other: seq<(string, string)>)
    requires DistinctKeys(pairs) && DistinctKeys(other)
    requires forall p :: p in pairs <==> p in other
    ensures ToMap(pairs).Keys == ToMap(other).Keys
    ensures forall k :: k in ToMap(pairs) ==> ToMap(pairs)[k] == ToMap(other)[k]
  {
    var m, n := ToMap(pairs), ToMap(other);
    ToMapHoldsPairs(pairs);
    ToMapHoldsPairs(other);
    forall k | k in m ensures k in n && m[k] == n[k] {
      var i :| 0 <= i < |pairs| && pairs[i].0 == k;
      assert pairs[i] in other;
    }
    forall k | k in n ensures k in m {
      var i :| 0 <= i < |other| && other[i].0 == k;
      assert other[i] in pairs;
    }
  }

  /** When no key repeats, the map holds exactly the pairs, so attribute order is irrelevant. */
  lemma ToMapDistinctKeys(pairs: seq<(string, string)>, other: seq<(string, string)>)
    requires DistinctKeys(pairs) && DistinctKeys(other)
    requires multiset(pairs) == multiset(other)
    ensures ToMap(pairs) == ToMap(other)
  {
    SameElements(pairs, other);
    ToMapSameKeys(pairs, other);
  }

  /** `parse_fragment`: the text and the attribute map, or "Parse-error on content". */
  function ParseFragment(s: string): (r: Result<(string, map<string, string>)>)
    ensures r.Err? ==> r.error == ParseError(s)
  {
    match Extract(s)
    case None => Err(ParseError(s))
    case Some((attrs, text)) => Ok((text, ToMap(FindAttributes(attrs))))
  }

  /** A fragment assembled from a tag name, one or more spaces, rendered attributes and a
      text parses back to that text and the attributes' map. */
  lemma ParseAssembledFragment(open: string, space: string, pairs: seq<(string, string)>,
                               text: string, close: string)
    requires Renderable(pairs)
    requires |open| > 0 && All(open, IsWordChar) && |space| > 0 && All(space, IsSpace)
    requires |close| > 0 && All(close, IsWordChar) && '\n' !in text
    ensures ParseFragment(Assemble(open, space, RenderAttributes(pairs), text, close))
         == Ok((text, ToMap(pairs)))
  {
    var attrs := RenderAttributes(pairs);
    RenderedAttributesShape(pairs);
    ExtractAssembled(open, space, attrs, text, close);
    FindRenderedAttributes(pairs);
  }

  lemma {:induction false} RenderedAttributesShape(pairs: seq<(string, string)>)
    requires Renderable(pairs)
    ensures var a := RenderAttributes(pairs);
      '>' !in a && '\n' !in a && (|a| == 0 || !IsSpace(a[0]))
  {
    if |pairs| > 0 {
      RenderedAttributesShape(pairs[1..]);
      var key := pairs[0].0;
      assert IsWordChar(key[0]);
      forall c | c in key ensures c != '>' && c != '\n' {
        var i :| 0 <= i < |key| && key[i] == c;
        assert IsWordChar(key[i]);
      }
    }
  }

  /** The malformed fragments the tools' own tests reject with "Parse-error on content". */
  lemma MalformedFragments()
    ensures ParseFragment("Not a tag at all") == Err(ParseError("Not a tag at all"))
    ensures ParseFragment("<A HREF=\"test\"") == Err(ParseError("<A HREF=\"test\""))
    ensures ParseFragment("HREF=\"test\">Text</A>") == Err(ParseError("HREF=\"test\">Text</A>"))
    ensures ParseFragment("<A >Text") == Err(ParseError("<A >Text"))
    ensures ParseFragment("<A HREF=\"test\">Text</A") == Err(ParseError("<A HREF=\"test\">Text</A"))
  {
    ExtractNeedsBrackets("Not a tag at all");
    ExtractNeedsBrackets("<A HREF=\"test\"");
    ExtractNeedsBrackets("HREF=\"test\">Text</A>");
    ExtractNeedsBrackets("<A >Text");
    ExtractNeedsBrackets("<A HREF=\"test\">Text</A");
  }
}

/** Strings as Python's `str` methods and the two fixed regular expressions see them:
    character classes, the code-point order used by `sorted`/`list.sort`, substring search,
    `str.split`/`str.join`, `str.strip` and `int()` on decimal text.
 */
module Text {
  import opened Wrappers

  /** Python's `\w`, restricted to ASCII. */
  predicate IsWordChar(c: char) {
    ('a' <= c <= 'z') || ('A' <= c <= 'Z') || ('0' <= c <= '9') || c == '_'
  }

  /** The six characters of `\s` under `re.ASCII`. `str.isspace`, which `int()` and
      `str.strip()` use, also holds for U+001C to U+001F; those are not modelled. */
  predicate IsSpace(c: char) {
    c == ' ' || c == '\t' || c == '\n' || c == '\r' || c == '\U{000B}' || c == '\U{000C}'
  }

  predicate IsDigit(c: char) {
    '0' <= c <= '9'
  }

  predicate All(s: string, p: char -> bool) {
    forall i :: 0 <= i < |s| ==> p(s[i])
  }

  predicate EndsWith(s: string, suffix: string) {
    |suffix| <= |s| && s[|s| - |suffix|..] == suffix
  }

  /** End of the longest run of characters satisfying `p` that starts at `i`
      (what a greedy `p+` reaches). */
  function RunEnd(s: string, i: nat, p: char -> bool): (j: nat)
    requires i <= |s|
    ensures i <= j <= |s|
    ensures j == |s| || !p(s[j])
    decreases |s| - i
  {
    if i < |s| && p(s[i]) then RunEnd(s, i + 1, p) else i
  }

  /** Every character of the run satisfies `p`. */
  lemma {:induction false} RunEndCovers(s: string, i: nat, p: char -> bool)
    requires i <= |s|
    ensures forall k :: i <= k < RunEnd(s, i, p) ==> p(s[k])
    decreases |s| - i
  {
    if i < |s| && p(s[i]) {
      RunEndCovers(s, i + 1, p);
    }
  }

  /** Start of the longest run of characters satisfying `p` that ends just before `j`. */
  function RunStart(s: string, j: nat, p: char -> bool): (i: nat)
    requires j <= |s|
    ensures i <= j
    ensures i == 0 || !p(s[i - 1])
  {
    if j > 0 && p(s[j - 1]) then RunStart(s, j - 1, p) else j
  }

  lemma {:induction false} RunStartCovers(s: string, j: nat, p: char -> bool)
    requires j <= |s|
    ensures forall k :: RunStart(s, j, p) <= k < j ==> p(s[k])
  {
    if j > 0 && p(s[j - 1]) {
      RunStartCovers(s, j - 1, p);
    }
  }

  /** Index of the first `c` at or after `i`, or `|s|` when there is none. */
  function Find(s: string, c: char, i: nat): (k: nat)
    requires i <= |s|
    ensures i <= k <= |s|
    ensures k < |s| ==> s[k] == c
    decreases |s| - i
  {
    if i == |s| || s[i] == c then i else Find(s, c, i + 1)
  }

  /** Nothing before the position found is `c`. */
  lemma {:induction false} FindSkips(s: string, c: char, i: nat)
    requires i <= |s|
    ensures forall j :: i <= j < Find(s, c, i) ==> s[j] != c
    decreases |s| - i
  {
    if i < |s| && s[i] != c {
      FindSkips(s, c, i + 1);
    }
  }

  /** `RunEnd` is the one end position whose run is all `p` and that `p` does not continue. */
  lemma {:induction false} RunEndAt(s: string, i: nat, j: nat, p: char -> bool)
    requires i <= j <= |s| && (forall k :: i <= k < j ==> p(s[k])) && (j == |s| || !p(s[j]))
    ensures RunEnd(s, i, p) == j
    decreases j - i
  {
    if i < j {
      RunEndAt(s, i + 1, j, p);
    }
  }

  lemma {:induction false} RunStartAt(s: string, i: nat, j: nat, p: char -> bool)
    requires i <= j <= |s| && (forall k :: i <= k < j ==> p(s[k])) && (i == 0 || !p(s[i - 1]))
    ensures RunStart(s, j, p) == i
    decreases j - i
  {
    if i < j {
      RunStartAt(s, i, j - 1, p);
    }
  }

  /** `Find` is the one position holding `c` with no `c` before it. */
  lemma {:induction false} FindAt(s: string, c: char, i: nat, k: nat)
    requires i <= k <= |s| && (forall j :: i <= j < k ==> s[j] != c) && (k < |s| ==> s[k] == c)
    ensures Find(s, c, i) == k
    decreases k - i
  {
    if i < k {
      FindAt(s, c, i + 1, k);
    }
  }

  /** A run that fills the middle piece of `x + a + b` ends where that piece ends. */
  lemma RunEndOver(x: string, a: string, b: string, p: char -> bool)
    requires All(a, p) && (|b| == 0 || !p(b[0]))
    ensures RunEnd(x + a + b, |x|, p) == |x| + |a|
  {
    var s := x + a + b;
    assert forall k :: |x| <= k < |x| + |a| ==> s[k] == a[k - |x|];
    if |b| > 0 {
      assert s[|x| + |a|] == b[0];
    }
    RunEndAt(s, |x|, |x| + |a|, p);
  }

  /** The first `c` at or after the start of `a` in `x + a + [c] + b`, when `a` has none. */
  lemma FindOver(x: string, a: string, c: char, b: string)
    requires c !in a
    ensures Find(x + a + [c] + b, c, |x|) == |x| + |a|
  {
    var s := x + a + [c] + b;
    assert forall k :: |x| <= k < |x| + |a| ==> s[k] == a[k - |x|];
    assert s[|x| + |a|] == c;
    FindAt(s, c, |x|, |x| + |a|);
  }

  predicate OccursAt(s: string, sub: string, i: nat) {
    i + |sub| <= |s| && s[i..i + |sub|] == sub
  }

  /** Python's `sub in s`. */
  predicate Contains(s: string, sub: string) {
    exists i :: 0 <= i <= |s| && OccursAt(s, sub, i)
  }

  /** Index of the first occurrence of `sub` at or after `i`, or `|s|` when there is none. */
  function FindSub(s: string, sub: string, i: nat): (k: nat)
    requires i <= |s| && |sub| > 0
    ensures i <= k <= |s|
    ensures k < |s| ==> OccursAt(s, sub, k)
    ensures forall j :: i <= j < k ==> !OccursAt(s, sub, j)
    decreases |s| - i
  {
    if i == |s| || OccursAt(s, sub, i) then i else FindSub(s, sub, i + 1)
  }

  lemma OccursInPrefix(s: string, sub: string, k: nat, j: nat)
    requires k <= |s| && OccursAt(s[..k], sub, j)
    ensures OccursAt(s, sub, j)
  {
    assert s[..k][j..j + |sub|] == s[j..j + |sub|];
  }

  /** Python's `s.split(sep)` for a non-empty separator: cut at every occurrence of `sep`,
      scanning left to right without overlaps. */
  function Split(s: string, sep: string): (parts: seq<string>)
    requires |sep| > 0
    ensures |parts| >= 1
    decreases |s|
  {
    var k := FindSub(s, sep, 0);
    if k == |s| then [s] else [s[..k]] + Split(s[k + |sep|..], sep)
  }

  /** No piece of a split contains the separator. */
  lemma {:induction false} SplitPartsAvoidSep(s: string, sep: string)
    requires |sep| > 0
    ensures forall i :: 0 <= i < |Split(s, sep)| ==> !Contains(Split(s, sep)[i], sep)
    decreases |s|
  {
    var k := FindSub(s, sep, 0);
    if k == |s| {
      assert !Contains(s, sep) by {
        forall j | 0 <= j <= |s| ensures !OccursAt(s, sep, j) { }
      }
    } else {
      assert !Contains(s[..k], sep) by {
        forall j | 0 <= j <= k && OccursAt(s[..k], sep, j) ensures false {
          OccursInPrefix(s, sep, k, j);
        }
      }
      SplitPartsAvoidSep(s[k + |sep|..], sep);
    }
  }

  /** Python's `sep.join(parts)`. */
  function Join(parts: seq<string>, sep: string): string {
    if |parts| == 0 then ""
    else if |parts| == 1 then parts[0]
    else parts[0] + sep + Join(parts[1..], sep)
  }

  /** Splitting and joining back on the same separator gives the original string. */
  lemma {:induction false} JoinSplit(s: string, sep: string)
    requires |sep| > 0
    ensures Join(Split(s, sep), sep) == s
    decreases |s|
  {
    var k := FindSub(s, sep, 0);
    if k < |s| {
      var rest := s[k + |sep|..];
      var tail := Split(rest, sep);
      JoinSplit(rest, sep);
      assert Split(s, sep) == [s[..k]] + tail;
      JoinCons(s[..k], tail, sep);
      assert s[k..k + |sep|] == sep;
      assert s == s[..k] + s[k..k + |sep|] + rest;
    }
  }

  /** A character in neither the parts nor the separator is not in their join. */
  lemma {:induction false} JoinAvoids(parts: seq<string>, sep: string, c: char)
    requires c !in sep && forall i :: 0 <= i < |parts| ==> c !in parts[i]
    ensures c !in Join(parts, sep)
  {
    if |parts| > 1 {
      JoinAvoids(parts[1..], sep, c);
    }
  }

  lemma JoinCons(head: string, tail: seq<string>, sep: string)
    requires |tail| > 0
    ensures Join([head] + tail, sep) == head + sep + Join(tail, sep)
  {
    assert ([head] + tail)[1..] == tail;
  }

  /** Joining parts that do not contain a two-character separator and splitting the result
      gives the parts back: no occurrence can straddle a part and the separator after it. */
  lemma {:induction false} SplitJoin(parts: seq<string>, sep: string)
    requires |parts| >= 1
    requires |sep| == 2 && sep[0] != sep[1]
    requires forall i :: 0 <= i < |parts| ==> !Contains(parts[i], sep)
    ensures Split(Join(parts, sep), sep) == parts
  {
    var p := parts[0];
    if |parts| == 1 {
      assert Join(parts, sep) == p;
    } else {
      var rest := Join(parts[1..], sep);
      var s := p + sep + rest;
      assert Join(parts, sep) == s;
      assert OccursAt(s, sep, |p|) by {
        assert s[|p|..|p| + |sep|] == sep;
      }
      forall j | 0 <= j < |p| ensures !OccursAt(s, sep, j) {
        if j + 2 <= |p| {
          assert s[j..j + 2] == p[j..j + 2];
          assert !OccursAt(p, sep, j);
        } else {
          assert s[j + 1] == sep[0];
        }
      }
      var k := FindSub(s, sep, 0);
      assert k == |p|;
      assert s[..k] == p;
      assert s[k + |sep|..] == rest;
      SplitJoin(parts[1..], sep);
    }
  }

  /** Python's `a < b` on str: code-point lexicographic order, a proper prefix first. */
  predicate Less(a: string, b: string)
    decreases |a|
  {
    if |a| == 0 then |b| > 0
    else if |b| == 0 then false
    else if a[0] != b[0] then a[0] < b[0]
    else Less(a[1..], b[1..])
  }

  predicate LessEq(a: string, b: string) {
    a == b || Less(a, b)
  }

  lemma {:induction false} LessIrreflexive(a: string)
    ensures !Less(a, a)
    decreases |a|
  {
    if |a| > 0 {
      LessIrreflexive(a[1..]);
    }
  }

  lemma {:induction false} LessTransitive(a: string, b: string, c: string)
    requires Less(a, b) && Less(b, c)
    ensures Less(a, c)
    decreases |a|
  {
    if |a| > 0 && a[0] == b[0] && b[0] == c[0] {
      LessTransitive(a[1..], b[1..], c[1..]);
    }
  }

  /** Any two strings are equal or ordered one way: `sorted` needs nothing more. */
  lemma {:induction false} LessTotal(a: string, b: string)
    ensures a == b || Less(a, b) || Less(b, a)
    decreases |a|
  {
    if |a| > 0 && |b| > 0 && a[0] == b[0] {
      LessTotal(a[1..], b[1..]);
      if a[1..] == b[1..] {
        assert a == [a[0]] + a[1..] && b == [b[0]] + b[1..];
      }
    }
  }

  lemma LessAsymmetric(a: string, b: string)
    requires Less(a, b)
    ensures !Less(b, a)
  {
    if Less(b, a) {
      LessTransitive(a, b, a);
      LessIrreflexive(a);
    }
  }

  lemma LessEqTotalPreorder()
    ensures forall a, b :: LessEq(a, b) || LessEq(b, a)
    ensures forall a, b, c :: LessEq(a, b) && LessEq(b, c) ==> LessEq(a, c)
  {
    forall a, b ensures LessEq(a, b) || LessEq(b, a) {
      LessTotal(a, b);
    }
    forall a, b, c | LessEq(a, b) && LessEq(b, c) ensures LessEq(a, c) {
      if a != b && b != c {
        LessTransitive(a, b, c);
      }
    }
  }

  /** Python's `str.strip()`: drop leading and trailing whitespace. */
  function Strip(s: string): (t: string)
    ensures |t| == 0 || (!IsSpace(t[0]) && !IsSpace(t[|t| - 1]))
    ensures |t| == 0 <==> All(s, IsSpace)
    ensures exists a, b :: 0 <= a <= b <= |s| && t == s[a..b] && All(s[..a], IsSpace) && All(s[b..], IsSpace)
  {
    var a := RunEnd(s, 0, IsSpace);
    RunEndCovers(s, 0, IsSpace);
    if a == |s| then
      assert s == s[..0] + s[0..0] + s[0..];
      ""
    else
      var b := RunStart(s, |s|, IsSpace);
      RunStartCovers(s, |s|, IsSpace);
      assert a < b;
      assert All(s[..a], IsSpace) && All(s[b..], IsSpace);
      s[a..b]
  }

  /** Whitespace around a string whose ends are not whitespace is exactly what `strip`
      removes. */
  lemma StripExact(pre: string, t: string, post: string)
    requires All(pre, IsSpace) && All(post, IsSpace)
    requires |t| == 0 || (!IsSpace(t[0]) && !IsSpace(t[|t| - 1]))
    ensures Strip(pre + t + post) == t
  {
    var s := pre + t + post;
    if |t| == 0 {
      assert All(s, IsSpace) by {
        forall k | 0 <= k < |s| ensures IsSpace(s[k]) {
          if k < |pre| { assert s[k] == pre[k]; } else { assert s[k] == post[k - |pre|]; }
        }
      }
    } else {
      RunEndOver("", pre, t + post, IsSpace);
      assert "" + pre + (t + post) == s;
      assert s[|pre|] == t[0];
      assert s[|pre| + |t| - 1] == t[|t| - 1];
      assert forall k :: |pre| + |t| <= k < |s| ==> s[k] == post[k - |pre| - |t|];
      RunStartAt(s, |pre| + |t|, |s|, IsSpace);
      assert s[|pre|..|pre| + |t|] == t;
    }
  }

  lemma StripUnpadded(s: string)
    requires |s| > 0 && !IsSpace(s[0]) && !IsSpace(s[|s| - 1])
    ensures Strip(s) == s
  {
    StripExact("", s, "");
    assert "" + s + "" == s;
  }

  /** Where `strip` cuts. */
  lemma StripCut(s: string) returns (a: nat, b: nat)
    ensures a <= b <= |s| && Strip(s) == s[a..b] && All(s[..a], IsSpace) && All(s[b..], IsSpace)
  {
    a := RunEnd(s, 0, IsSpace);
    RunEndCovers(s, 0, IsSpace);
    if a == |s| {
      b := a;
    } else {
      b := RunStart(s, |s|, IsSpace);
      RunStartCovers(s, |s|, IsSpace);
    }
  }

  lemma Regroup(p: string, q: string, t: string, u: string, v: string)
    ensures p + (q + t + u) + v == (p + q) + t + (u + v)
  {
  }

  lemma AllAppend(x: string, y: string, p: char -> bool)
    requires All(x, p) && All(y, p)
    ensures All(x + y, p)
  {
    assert forall k :: |x| <= k < |x + y| ==> (x + y)[k] == y[k - |x|];
  }

  /** Adding whitespace on either side never changes what `strip` returns. */
  lemma StripPadding(pre: string, s: string, post: string)
    requires All(pre, IsSpace) && All(post, IsSpace)
    ensures Strip(pre + s + post) == Strip(s)
  {
    var t := Strip(s);
    var a, b := StripCut(s);
    var pre' := pre + s[..a];
    var post' := s[b..] + post;
    AllAppend(pre, s[..a], IsSpace);
    AllAppend(s[b..], post, IsSpace);
    assert s == s[..a] + t + s[b..];
    Regroup(pre, s[..a], t, s[b..], post);
    StripExact(pre', t, post');
  }

  function DigitValue(c: char): nat
    requires IsDigit(c)
  {
    (c as int) - ('0' as int)
  }

  function DigitChar(d: nat): (c: char)
    requires d < 10
    ensures IsDigit(c) && DigitValue(c) == d
  {
    ((('0' as int) + d) as char)
  }

  /** The value of a string of decimal digits, most significant digit first. */
  function DigitsValue(d: string): nat
    requires All(d, IsDigit)
  {
    if |d| == 0 then 0 else 10 * DigitsValue(d[..|d| - 1]) + DigitValue(d[|d| - 1])
  }

  /** Decimal digits in groups separated by single underscores, as `int()` accepts them. */
  predicate IsDigitGroups(d: string) {
    && |d| > 0
    && IsDigit(d[0])
    && IsDigit(d[|d| - 1])
    && (forall i :: 0 <= i < |d| ==> IsDigit(d[i]) || d[i] == '_')
    && (forall i :: 0 <= i < |d| - 1 && d[i] == '_' ==> IsDigit(d[i + 1]))
  }

  function DropUnderscores(d: string): (r: string)
    requires forall i :: 0 <= i < |d| ==> IsDigit(d[i]) || d[i] == '_'
    ensures All(r, IsDigit)
    ensures All(d, IsDigit) ==> r == d
  {
    if |d| == 0 then ""
    else if d[0] == '_' then DropUnderscores(d[1..])
    else [d[0]] + DropUnderscores(d[1..])
  }

  /** What `int()` reads once the whitespace is stripped: an optional sign, then digit
      groups. */
  predicate IsSignedGroups(t: string) {
    |t| > 0 && (if t[0] == '-' || t[0] == '+' then IsDigitGroups(t[1..]) else IsDigitGroups(t))
  }

  function SignedValue(t: string): int
    requires IsSignedGroups(t)
  {
    if t[0] == '-' then -(DigitsValue(DropUnderscores(t[1..])) as int)
    else if t[0] == '+' then DigitsValue(DropUnderscores(t[1..]))
    else DigitsValue(DropUnderscores(t))
  }

  /** Python's `int(s)` for base-10 text: surrounding whitespace, an optional sign, then
      digit groups; `None` where Python raises ValueError. */
  function ParseInt(s: string): Option<int> {
    var t := Strip(s);
    if IsSignedGroups(t) then Some(SignedValue(t)) else None
  }

  /** Only text of that shape is accepted: whitespace, an optional sign, digit groups,
      whitespace; the value is that of the signed digits. */
  lemma ParseIntSound(s: string) returns (a: nat, b: nat)
    requires ParseInt(s).Some?
    ensures a <= b <= |s| && All(s[..a], IsSpace) && All(s[b..], IsSpace)
    ensures IsSignedGroups(s[a..b]) && ParseInt(s) == Some(SignedValue(s[a..b]))
  {
    a, b := StripCut(s);
  }

  /** Any text that is whitespace, an optional sign, digit groups and whitespace is
      accepted, with the value of its signed digits. */
  lemma ParseIntAccepts(s: string, a: nat, b: nat)
    requires a <= b <= |s| && All(s[..a], IsSpace) && All(s[b..], IsSpace) && IsSignedGroups(s[a..b])
    ensures ParseInt(s) == Some(SignedValue(s[a..b]))
  {
    var t := s[a..b];
    assert !IsSpace(t[0]) && !IsSpace(t[|t| - 1]) by {
      if t[0] == '-' || t[0] == '+' {
        assert t[1..][|t| - 2] == t[|t| - 1];
      }
    }
    assert s == s[..a] + t + s[b..];
    StripExact(s[..a], t, s[b..]);
  }

  lemma ParseIntUnpadded(t: string)
    requires IsSignedGroups(t)
    ensures ParseInt(t) == Some(SignedValue(t))
  {
    assert t[..0] == "" && t[|t|..] == "" && t[0..|t|] == t;
    ParseIntAccepts(t, 0, |t|);
  }

  lemma SignedDecimal(sign: char, d: string)
    requires sign == '+' || sign == '-'
    requires |d| > 0 && All(d, IsDigit)
    ensures IsSignedGroups([sign] + d)
    ensures SignedValue([sign] + d) == if sign == '-' then -(DigitsValue(d) as int) else DigitsValue(d) as int
  {
    var t := [sign] + d;
    assert t[0] == sign && t[1..] == d;
    DigitsAreGroups(d);
  }

  /** Whitespace around the text never changes what `int()` makes of it. */
  lemma ParseIntPadding(pre: string, s: string, post: string)
    requires All(pre, IsSpace) && All(post, IsSpace)
    ensures ParseInt(pre + s + post) == ParseInt(s)
  {
    StripPadding(pre, s, post);
  }

  /** A run of digits reads as its decimal value, unsigned or after `+`, negated after
      `-`. */
  lemma ParseIntDecimal(d: string)
    requires |d| > 0 && All(d, IsDigit)
    ensures ParseInt(d) == Some(DigitsValue(d))
    ensures ParseInt("+" + d) == Some(DigitsValue(d))
    ensures ParseInt("-" + d) == Some(-(DigitsValue(d) as int))
  {
    DigitsAreGroups(d);
    ParseIntUnpadded(d);
    assert "+" + d == ['+'] + d && "-" + d == ['-'] + d;
    SignedDecimal('+', d);
    ParseIntUnpadded("+" + d);
    SignedDecimal('-', d);
    ParseIntUnpadded("-" + d);
  }

  /** A leading zero adds nothing to the value. */
  lemma {:induction false} LeadingZeroValue(d: string)
    requires All(d, IsDigit)
    ensures All("0" + d, IsDigit) && DigitsValue("0" + d) == DigitsValue(d)
    decreases |d|
  {
    if |d| > 0 {
      var z := "0" + d;
      assert z[..|z| - 1] == "0" + d[..|d| - 1];
      assert z[|z| - 1] == d[|d| - 1];
      LeadingZeroValue(d[..|d| - 1]);
    }
  }

  /** `int("0" + d) == int(d)` for digits `d`. */
  lemma ParseIntLeadingZero(d: string)
    requires |d| > 0 && All(d, IsDigit)
    ensures ParseInt("0" + d) == ParseInt(d)
  {
    LeadingZeroValue(d);
    ParseIntDecimal(d);
    ParseIntDecimal("0" + d);
  }

  lemma {:induction false} DropUnderscoresAppend(x: string, y: string)
    requires forall i :: 0 <= i < |x| ==> IsDigit(x[i]) || x[i] == '_'
    requires forall i :: 0 <= i < |y| ==> IsDigit(y[i]) || y[i] == '_'
    ensures forall i :: 0 <= i < |x + y| ==> IsDigit((x + y)[i]) || (x + y)[i] == '_'
    ensures DropUnderscores(x + y) == DropUnderscores(x) + DropUnderscores(y)
    decreases |x|
  {
    if |x| > 0 {
      var xy := x + y;
      assert xy[0] == x[0];
      assert xy[1..] == x[1..] + y;
      DropUnderscoresAppend(x[1..], y);
      if x[0] != '_' {
        assert DropUnderscores(xy) == [x[0]] + (DropUnderscores(x[1..]) + DropUnderscores(y));
        assert DropUnderscores(x) == [x[0]] + DropUnderscores(x[1..]);
      }
    } else {
      assert x + y == y;
    }
  }

  /** Two digit groups with a single underscore between them are digit groups. */
  lemma GroupsJoined(x: string, y: string)
    requires IsDigitGroups(x) && IsDigitGroups(y)
    ensures IsDigitGroups(x + "_" + y)
  {
    var u := x + "_" + y;
    assert u[|x| - 1] == x[|x| - 1];
    forall i | 0 <= i < |u| ensures IsDigit(u[i]) || u[i] == '_' {
      if i < |x| { assert u[i] == x[i]; }
      else if i > |x| { assert u[i] == y[i - |x| - 1]; }
    }
    forall i | 0 <= i < |u| - 1 && u[i] == '_' ensures IsDigit(u[i + 1]) {
      if i < |x| - 1 { assert u[i] == x[i] && u[i + 1] == x[i + 1]; }
      else if i == |x| { assert u[i + 1] == y[0]; }
      else if i > |x| { assert u[i] == y[i - |x| - 1] && u[i + 1] == y[i - |x|]; }
    }
  }

  /** Two digit groups written next to each other are digit groups. */
  lemma GroupsConcatenated(x: string, y: string)
    requires IsDigitGroups(x) && IsDigitGroups(y)
    ensures IsDigitGroups(x + y)
  {
    var v := x + y;
    assert v[|x| - 1] == x[|x| - 1];
    forall i | 0 <= i < |v| ensures IsDigit(v[i]) || v[i] == '_' {
      if i < |x| { assert v[i] == x[i]; } else { assert v[i] == y[i - |x|]; }
    }
    forall i | 0 <= i < |v| - 1 && v[i] == '_' ensures IsDigit(v[i + 1]) {
      if i < |x| - 1 { assert v[i] == x[i] && v[i + 1] == x[i + 1]; }
      else if i >= |x| { assert v[i] == y[i - |x|] && v[i + 1] == y[i - |x| + 1]; }
    }
  }

  /** Digit groups read as the value of their digits. */
  lemma ParseIntGroups(d: string)
    requires IsDigitGroups(d)
    ensures ParseInt(d) == Some(DigitsValue(DropUnderscores(d)))
  {
    ParseIntUnpadded(d);
  }

  /** A single underscore between two digit groups is accepted and ignored. */
  lemma ParseIntUnderscore(x: string, y: string)
    requires IsDigitGroups(x) && IsDigitGroups(y)
    ensures ParseInt(x + "_" + y).Some?
    ensures ParseInt(x + "_" + y) == ParseInt(x + y)
  {
    var u := x + "_" + y;
    var v := x + y;
    GroupsJoined(x, y);
    GroupsConcatenated(x, y);
    DropUnderscoresAppend(x, "_" + y);
    DropUnderscoresAppend("_", y);
    assert u == x + ("_" + y);
    DropUnderscoresAppend(x, y);
    assert DropUnderscores(u) == DropUnderscores(v);
    ParseIntGroups(u);
    ParseIntGroups(v);
  }

  /** Text `int()` refuses: nothing, a bare sign, an underscore at either end, a doubled
      underscore, inner whitespace. */
  lemma ParseIntRejects()
    ensures ParseInt("") == None && ParseInt("   ") == None
    ensures ParseInt("+") == None && ParseInt("-") == None
    ensures ParseInt("_1") == None && ParseInt("1_") == None && ParseInt("1__0") == None
    ensures ParseInt("1 0") == None && ParseInt("+-1") == None
  {
    StripUnpadded("+");
    StripUnpadded("-");
    StripUnpadded("_1");
    StripUnpadded("1_");
    StripUnpadded("1__0");
    StripUnpadded("1 0");
    StripUnpadded("+-1");
    assert "1__0"[1] == '_' && "1__0"[2] == '_';
    assert "1 0"[1] == ' ';
    assert "+-1"[1..][0] == '-';
  }

  /** Decimal text of a natural number, without leading zeros. */
  function NatToString(n: nat): (s: string)
    ensures |s| > 0 && All(s, IsDigit)
    ensures DigitsValue(s) == n
    ensures n > 0 ==> s[0] != '0'
  {
    if n < 10 then [DigitChar(n)]
    else
      var s := NatToString(n / 10) + [DigitChar(n % 10)];
      assert s[..|s| - 1] == NatToString(n / 10);
      s
  }

  /** Python's `str(n)` for an int. */
  function IntToString(n: int): string {
    if n < 0 then "-" + NatToString(-n) else NatToString(n)
  }

  /** `str(n)` holds nothing but digits and a leading minus sign. */
  lemma IntToStringChars(n: int)
    ensures forall i :: 0 <= i < |IntToString(n)| ==> IsDigit(IntToString(n)[i]) || IntToString(n)[i] == '-'
  {
    var digits := NatToString(if n < 0 then -n else n);
    if n < 0 {
      assert forall i :: 1 <= i < |IntToString(n)| ==> IntToString(n)[i] == digits[i - 1];
    }
  }

  /** `int(str(n)) == n`: every timestamp the tools write reads back unchanged. */
  lemma ParseIntToString(n: int)
    ensures ParseInt(IntToString(n)) == Some(n)
  {
    if n < 0 {
      ParseIntDecimal(NatToString(-n));
    } else {
      ParseIntDecimal(NatToString(n));
    }
  }

  lemma DigitsAreGroups(d: string)
    requires |d| > 0 && All(d, IsDigit)
    ensures IsDigitGroups(d) && DropUnderscores(d) == d
  {
  }

  /** `n` spaces, Python's `' ' * n`. */
  function Spaces(n: nat): (s: string)
    ensures |s| == n && forall i :: 0 <= i < n ==> s[i] == ' '
  {
    if n == 0 then "" else Spaces(n - 1) + " "
  }
}

/**
 The line classifier of `ini_load`: `is_comment`, the section-header test and the
 `key=value` split. A logical line is taken as its C string (up to the first NUL).
 */
module Classifier {
  import opened Wrappers
  import opened CText

  /** What `ini_load` does with one logical line: nothing (blank, comment, or no `=`),
      open a section, or assign a key. */
  datatype LineKind = Ignored | Header(name: string) | Pair(key: string, value: string)

  /** `is_comment`: after leading whitespace the line is empty or starts with `;` or `#`. */
  predicate IsComment(line: string) {
    var content := LSkip(CStr(line));
    content == [] || content[0] == ';' || content[0] == '#'
  }

  /** The line as `is_comment` leaves it for the rest of the loop: both ends trimmed. */
  function Trimmed(line: string): string {
    RStrip(LSkip(CStr(line)))
  }

  /** A trimmed line of three or more characters enclosed in brackets. */
  predicate IsHeaderLine(t: string) {
    |t| >= 3 && t[0] == '[' && t[|t| - 1] == ']'
  }

  /** The body of `ini_load` for one line, up to the point where the document is touched. */
  function Classify(line: string): (r: LineKind)
    ensures r.Ignored? <==> IsComment(line) || (!IsHeaderLine(Trimmed(line)) && Lacks(Trimmed(line), '='))
  {
    if IsComment(line) then Ignored else ClassifyContent(Trimmed(line))
  }

  /** The same for the trimmed text of a line that is not a comment. */
  function ClassifyContent(t: string): (r: LineKind)
    ensures r.Ignored? <==> !IsHeaderLine(t) && Lacks(t, '=')
  {
    if IsHeaderLine(t) then Header(RStrip(LSkip(t[1..|t| - 1])))
    else match IndexOf(t, '=')
      case None => Ignored
      case Some(d) => Pair(RStrip(t[..d]), LSkip(t[d + 1..]))
  }

  /** Trimming at both ends leaves whitespace at neither end. */
  lemma BothTrimmed(s: string)
    ensures IsTrimmed(RStrip(LSkip(s)))
  {
    var r := LSkip(s);
    var q := RStrip(r);
    if q != [] {
      assert q[0] == r[0];
    }
  }

  /** A trimmed line has no NUL and no whitespace at either end. */
  lemma TrimmedParts(line: string)
    ensures NoNul(Trimmed(line)) && IsTrimmed(Trimmed(line))
  {
    var c := CStr(line);
    var m := LSkip(c);
    assert m == c[|c| - |m|..];
    assert Trimmed(line) == m[..|Trimmed(line)|];
    BothTrimmed(c);
  }

  lemma HeaderNameParts(t: string)
    requires IsHeaderLine(t) && NoNul(t)
    ensures var n := RStrip(LSkip(t[1..|t| - 1]));
            IsTrimmed(n) && NoNul(n)
  {
    var w := t[1..|t| - 1];
    BothTrimmed(w);
    LSkipKeepsNoNul(w);
    RStripKeepsNoNul(LSkip(w));
  }

  lemma KeyParts(t: string, d: nat)
    requires NoNul(t) && d <= |t| && Lacks(t[..d], '=')
    ensures var key := RStrip(t[..d]);
            Lacks(key, '=') && NoNul(key) && (key == [] || !IsSpace(key[|key| - 1]))
  {
    var p := t[..d];
    var key := RStrip(p);
    assert key == p[..|key|];
    assert forall i :: 0 <= i < |key| ==> key[i] == p[i];
  }

  lemma SuffixParts(t: string, v: string)
    requires NoNul(t) && IsTrimmed(t) && |v| <= |t| && v == t[|t| - |v|..]
    ensures NoNul(v) && (v == [] || !IsSpace(v[|v| - 1]))
  {
    if v != [] {
      assert v[|v| - 1] == t[|t| - 1];
    }
  }

  lemma ValueParts(t: string, d: nat)
    requires NoNul(t) && IsTrimmed(t) && d < |t|
    ensures var value := LSkip(t[d + 1..]);
            IsTrimmed(value) && NoNul(value)
  {
    var w := t[d + 1..];
    var v := LSkip(w);
    assert v == t[|t| - |v|..];
    SuffixParts(t, v);
  }

  lemma KeyValueParts(t: string, d: nat)
    requires NoNul(t) && IsTrimmed(t)
    requires IndexOf(t, '=') == Some(d)
    ensures var key := RStrip(t[..d]);
            && Lacks(key, '=') && NoNul(key) && (key == [] || !IsSpace(key[|key| - 1]))
    ensures var value := LSkip(t[d + 1..]);
            IsTrimmed(value) && NoNul(value)
  {
    KeyParts(t, d);
    ValueParts(t, d);
  }

  /** How `Classify` treats a line that has no header and no `=`. */
  lemma ClassifyOtherLine(line: string)
    requires IsComment(line) || (!IsHeaderLine(Trimmed(line)) && IndexOf(Trimmed(line), '=').None?)
    ensures Classify(line) == Ignored
  {
  }

  /** What `Classify` reports is free of NUL bytes and of surrounding whitespace; a key
      holds no `=`, and only a key may be empty at its start (a line beginning with `=`). */
  lemma ClassifiedParts(line: string)
    ensures var r := Classify(line);
            && (r.Header? ==> IsTrimmed(r.name) && NoNul(r.name))
            && (r.Pair? ==> Lacks(r.key, '=') && NoNul(r.key) && (r.key == [] || !IsSpace(r.key[|r.key| - 1])))
            && (r.Pair? ==> IsTrimmed(r.value) && NoNul(r.value))
  {
    var t := Trimmed(line);
    TrimmedParts(line);
    if IsComment(line) || (!IsHeaderLine(t) && IndexOf(t, '=').None?) {
      ClassifyOtherLine(line);
    } else if IsHeaderLine(t) {
      ClassifyHeaderLine(line);
      HeaderNameParts(t);
    } else {
      var d := IndexOf(t, '=').value;
      ClassifyKeyLine(line, d);
      KeyValueParts(t, d);
    }
  }

  /** The key-trimming loop of `ini_load` as written: starting at the character before the
      `=`, step left while the character is whitespace. It reads `t[i]` for every index it
      visits, and index -1 lies before the line; that byte is taken to be non-space. The
      result is the index of the key's last character, or -1. */
  function KeyTrimWalk(t: string, i: int): (e: int)
    requires -1 <= i < |t|
    ensures -1 <= e <= i
    ensures forall j :: e < j <= i ==> IsSpace(t[j])
    ensures e >= 0 ==> !IsSpace(t[e])
    decreases i + 1
  {
    if i < 0 then -1
    else if IsSpace(t[i]) then KeyTrimWalk(t, i - 1)
    else i
  }

  lemma RStripWalk(s: string, e: int)
    requires -1 <= e < |s|
    requires forall j :: e < j < |s| ==> IsSpace(s[j])
    requires e >= 0 ==> !IsSpace(s[e])
    ensures RStrip(s) == s[..e + 1]
    decreases |s|
  {
    if |s| > e + 1 {
      assert IsSpace(s[|s| - 1]);
      RStripWalk(s[..|s| - 1], e);
      assert s[..|s| - 1][..e + 1] == s[..e + 1];
    }
  }

  lemma KeyWalkOnTrimmed(t: string, d: nat)
    requires IsTrimmed(t) && d < |t|
    ensures var e := KeyTrimWalk(t, d - 1);
            && (e == -1 <==> d == 0)
            && RStrip(t[..d]) == t[..e + 1]
  {
    var e := KeyTrimWalk(t, d - 1);
    if d > 0 {
      assert !IsSpace(t[0]);
      assert e >= 0;
    }
    RStripWalk(t[..d], e);
    assert t[..d][..e + 1] == t[..e + 1];
  }

  /** On a classified key line the walk leaves the line exactly when the line starts with
      `=`; in every case the characters it keeps form the key `Classify` reports. */
  lemma KeyTrimWalkLeavesLine(line: string, t: string, d: nat)
    requires t == Trimmed(line) && !IsComment(line) && !IsHeaderLine(t)
    requires IndexOf(t, '=') == Some(d)
    ensures KeyTrimWalk(t, d - 1) == -1 <==> d == 0
    ensures Classify(line) == Pair(t[..KeyTrimWalk(t, d - 1) + 1], LSkip(t[d + 1..]))
  {
    TrimmedParts(line);
    KeyWalkOnTrimmed(t, d);
    ClassifyKeyLine(line, d);
  }

  /** A key may have any characters but `=`, no whitespace at either end, and may not
      begin like a comment or a header. */
  predicate PlainKey(k: string) {
    && 0 < |k| && NoNul(k) && IsTrimmed(k) && Lacks(k, '=')
    && k[0] != ';' && k[0] != '#' && k[0] != '['
  }

  /** A value has no NUL and no whitespace at either end; it may contain `=`. */
  predicate PlainValue(v: string) {
    NoNul(v) && IsTrimmed(v)
  }

  /** A section name has no NUL and no whitespace at either end. */
  predicate PlainName(n: string) {
    NoNul(n) && IsTrimmed(n)
  }

  /** How a key line is written: key, `=`, value, whitespace allowed around each. */
  function PairLine(a: string, k: string, b: string, c: string, v: string, d: string): string {
    a + k + b + ['='] + c + v + d
  }

  /** How a header line is written: a name in brackets, whitespace allowed around it. */
  function HeaderLine(a: string, b: string, n: string, c: string, d: string): string {
    a + ['['] + b + n + c + [']'] + d
  }

  lemma TrimmedOfPadded(a: string, x: string, d: string)
    requires AllSpace(a) && AllSpace(d) && NoNul(x) && 0 < |x|
    requires !IsSpace(x[0]) && !IsSpace(x[|x| - 1])
    ensures Trimmed(a + x + d) == x
    ensures LSkip(CStr(a + x + d)) == x + d
  {
    assert NoNul(a) && NoNul(d);
    NoNulConcat(a, x);
    NoNulConcat(a + x, d);
    CStrOfNoNul(a + x + d);
    assert a + x + d == a + (x + d);
    LSkipPadded(a, x + d);
    RStripPadded(x, d);
  }

  /** How `Classify` treats a line that is neither a comment nor a header and has an `=`. */
  lemma ClassifyKeyLine(line: string, d: nat)
    requires !IsComment(line) && !IsHeaderLine(Trimmed(line))
    requires IndexOf(Trimmed(line), '=') == Some(d)
    ensures Classify(line) == Pair(RStrip(Trimmed(line)[..d]), LSkip(Trimmed(line)[d + 1..]))
  {
  }

  /** How `Classify` treats a line that is not a comment and is a header. */
  lemma ClassifyHeaderLine(line: string)
    requires !IsComment(line) && IsHeaderLine(Trimmed(line))
    ensures var t := Trimmed(line);
            Classify(line) == Header(RStrip(LSkip(t[1..|t| - 1])))
  {
    var t := Trimmed(line);
    assert Classify(line) == ClassifyContent(t);
  }

  /** A text with no NUL, no whitespace at either end, that does not start a comment. */
  predicate Content(x: string) {
    NoNul(x) && 0 < |x| && !IsSpace(x[0]) && !IsSpace(x[|x| - 1]) && x[0] != ';' && x[0] != '#'
  }

  /** A line made of whitespace, some content and whitespace is read as that content. */
  lemma PaddedLine(a: string, x: string, d: string)
    requires AllSpace(a) && AllSpace(d) && Content(x)
    ensures !IsComment(a + x + d) && Trimmed(a + x + d) == x
  {
    TrimmedOfPadded(a, x, d);
  }

  lemma SelfTrimmed(x: string)
    requires Content(x)
    ensures !IsComment(x) && Trimmed(x) == x
  {
    PaddedLine([], x, []);
    assert [] + x + [] == x;
  }

  lemma SameTrim(line: string, x: string)
    requires !IsComment(line) && Trimmed(line) == x && !IsComment(x) && Trimmed(x) == x
    ensures Classify(line) == Classify(x)
  {
  }

  /** Whitespace around the content of a line does not change how it is classified. */
  lemma PaddingIgnored(a: string, x: string, d: string)
    requires AllSpace(a) && AllSpace(d) && Content(x)
    ensures Classify(a + x + d) == Classify(x)
  {
    PaddedLine(a, x, d);
    SelfTrimmed(x);
    SameTrim(a + x + d, x);
  }

  /** The text of a key line between its outer padding: key, whitespace, `=`, and the
      value with what precedes it. */
  predicate KeyPieces(k: string, b: string, y: string, v: string) {
    && PlainKey(k) && AllSpace(b) && NoNul(y) && LSkip(y) == v
    && (y == [] || !IsSpace(y[|y| - 1]))
  }

  /** `x` is the key `k`, the whitespace `b`, an `=` and the rest `y`, by position. */
  predicate KeyLayout(x: string, k: string, b: string, y: string) {
    && |x| == |k| + |b| + 1 + |y| && x[..|k|] == k && x[|k|..|k| + |b|] == b
    && x[|k| + |b|] == '=' && x[|k| + |b| + 1..] == y
  }

  lemma KeyLayoutOf(k: string, b: string, y: string)
    ensures KeyLayout(k + b + ['='] + y, k, b, y)
  {
    var x := k + b + ['='] + y;
    assert x[..|k|] == k;
    assert x[|k|..|k| + |b|] == b;
    assert x[|k| + |b| + 1..] == y;
  }

  /** What `Classify` needs to know to split a content text at position `d`. */
  predicate SplitsAt(x: string, d: nat, k: string, v: string) {
    && Content(x) && !IsHeaderLine(x) && IndexOf(x, '=') == Some(d)
    && RStrip(x[..d]) == k && LSkip(x[d + 1..]) == v
  }

  lemma ClassifySplit(x: string, d: nat, k: string, v: string)
    requires SplitsAt(x, d, k, v)
    ensures Classify(x) == Pair(k, v)
  {
    SelfTrimmed(x);
    ClassifyKeyLine(x, d);
  }

  lemma KeyLayoutHead(x: string, k: string, b: string, y: string)
    requires KeyLayout(x, k, b, y)
    ensures x[..|k| + |b|] == k + b
  {
    var d := |k| + |b|;
    forall i | 0 <= i < d
      ensures x[..d][i] == (k + b)[i]
    {
      if i < |k| { assert x[..|k|][i] == x[i]; } else { assert x[|k|..d][i - |k|] == x[i]; }
    }
  }

  lemma KeyLayoutNoNul(x: string, k: string, b: string, y: string)
    requires KeyLayout(x, k, b, y) && NoNul(k) && AllSpace(b) && NoNul(y)
    ensures NoNul(x)
  {
    var d := |k| + |b|;
    forall i | 0 <= i < |x|
      ensures x[i] != '\0'
    {
      if i < |k| { assert x[..|k|][i] == x[i]; }
      else if i < d { assert x[|k|..d][i - |k|] == x[i]; }
      else if i > d { assert x[d + 1..][i - d - 1] == x[i]; }
    }
  }

  /** A key line without outer padding has content at both ends and is no header. */
  lemma KeyLayoutContent(x: string, k: string, b: string, y: string)
    requires KeyLayout(x, k, b, y) && PlainKey(k) && AllSpace(b) && NoNul(y)
    requires y == [] || !IsSpace(y[|y| - 1])
    ensures Content(x) && !IsHeaderLine(x)
  {
    KeyLayoutNoNul(x, k, b, y);
    assert x[0] == k[0] by { assert x[..|k|][0] == x[0]; }
    if y != [] {
      assert x[|k| + |b| + 1..][|y| - 1] == x[|x| - 1];
    }
  }

  /** A key line without outer padding classifies back to its key and value. */
  lemma KeyTextClassify(x: string, k: string, b: string, y: string, v: string)
    requires KeyLayout(x, k, b, y) && KeyPieces(k, b, y, v)
    ensures Content(x) && Classify(x) == Pair(k, v)
  {
    var d := |k| + |b|;
    KeyLayoutHead(x, k, b, y);
    assert Lacks(x[..d], '=');
    IndexOfAt(x, '=', d);
    RStripPadded(k, b);
    KeyLayoutContent(x, k, b, y);
    ClassifySplit(x, d, k, v);
  }

  /** The whitespace-padding of a key line, as a predicate. */
  predicate PairLinePieces(a: string, k: string, b: string, c: string, v: string, d: string) {
    AllSpace(a) && AllSpace(b) && AllSpace(c) && AllSpace(d) && PlainKey(k) && PlainValue(v)
  }

  lemma PairLineEmptyValue(a: string, k: string, b: string, c: string, d: string)
    requires PairLinePieces(a, k, b, c, [], d)
    ensures Classify(PairLine(a, k, b, c, [], d)) == Pair(k, [])
  {
    var x := k + b + ['='] + [];
    assert PairLine(a, k, b, c, [], d) == a + x + (c + d);
    assert AllSpace(c + d);
    KeyLayoutOf(k, b, []);
    KeyTextClassify(x, k, b, [], []);
    PaddingIgnored(a, x, c + d);
  }

  lemma PairLineWithValue(a: string, k: string, b: string, c: string, v: string, d: string)
    requires PairLinePieces(a, k, b, c, v, d) && v != []
    ensures Classify(PairLine(a, k, b, c, v, d)) == Pair(k, v)
  {
    var x := k + b + ['='] + (c + v);
    assert PairLine(a, k, b, c, v, d) == a + x + d;
    assert NoNul(c);
    NoNulConcat(c, v);
    LSkipPadded(c, v);
    KeyLayoutOf(k, b, c + v);
    KeyTextClassify(x, k, b, c + v, v);
    PaddingIgnored(a, x, d);
  }

  /** A key line, padded with whitespace anywhere the format allows, classifies back to
      exactly its key and value. */
  lemma PairLineRoundTrip(a: string, k: string, b: string, c: string, v: string, d: string)
    requires PairLinePieces(a, k, b, c, v, d)
    ensures Classify(PairLine(a, k, b, c, v, d)) == Pair(k, v)
  {
    if v == [] {
      PairLineEmptyValue(a, k, b, c, d);
    } else {
      PairLineWithValue(a, k, b, c, v, d);
    }
  }

  lemma TrimBracketBody(b: string, n: string, c: string)
    requires AllSpace(b) && AllSpace(c) && PlainName(n)
    ensures RStrip(LSkip(b + n + c)) == n
  {
    if n == [] {
      assert b + n + c == b + c + [];
      LSkipPadded(b + c, []);
    } else {
      assert b + n + c == b + (n + c);
      LSkipPadded(b, n + c);
      RStripPadded(n, c);
    }
  }

  /** What `Classify` needs to know to read a content text as the header `n`. */
  predicate HeaderOf(x: string, n: string) {
    Content(x) && IsHeaderLine(x) && RStrip(LSkip(x[1..|x| - 1])) == n
  }

  lemma BracketTextIsHeader(b: string, n: string, c: string)
    requires AllSpace(b) && AllSpace(c) && PlainName(n) && 0 < |b + n + c|
    ensures HeaderOf(['['] + b + n + c + [']'], n)
  {
    var x := ['['] + b + n + c + [']'];
    assert NoNul(b) && NoNul(c);
    assert NoNul(x);
    assert x[1..|x| - 1] == b + n + c;
    TrimBracketBody(b, n, c);
  }

  lemma ClassifyHeaderText(x: string, n: string)
    requires HeaderOf(x, n)
    ensures Classify(x) == Header(n)
  {
    SelfTrimmed(x);
    ClassifyHeaderLine(x);
  }

  /** A header line, padded with whitespace anywhere the format allows, classifies back to
      its name; a name of only whitespace, `[ ]`, is the empty name. */
  lemma HeaderLineRoundTrip(a: string, b: string, n: string, c: string, d: string)
    requires AllSpace(a) && AllSpace(b) && AllSpace(c) && AllSpace(d)
    requires PlainName(n) && 0 < |b + n + c|
    ensures Classify(HeaderLine(a, b, n, c, d)) == Header(n)
  {
    var x := ['['] + b + n + c + [']'];
    assert HeaderLine(a, b, n, c, d) == a + x + d;
    BracketTextIsHeader(b, n, c);
    ClassifyHeaderText(x, n);
    PaddingIgnored(a, x, d);
  }

  /** Two brackets with nothing between them are too short for a header and hold no `=`,
      so the line is dropped. */
  lemma EmptyBracketsIgnored()
    ensures Classify("[]") == Ignored
  {
    var s := "[]";
    assert CStr(s) == s by { CStrOfNoNul(s); }
    assert LSkip(s) == s;
    assert RStrip(s) == s;
    assert Trimmed(s) == s;
  }

  /** Only `=` separates a key from its value; a line with `:` alone is dropped. */
  lemma ColonIsNotSeparator()
    ensures Classify("a:b") == Ignored
  {
    var s := "a:b";
    assert CStr(s) == s by { CStrOfNoNul(s); }
    assert LSkip(s) == s;
    assert RStrip(s) == s;
    assert Trimmed(s) == s;
  }

  /** A line whose first non-blank character is `;` or `#` is a comment, whatever follows. */
  lemma CommentLineIgnored(a: string, mark: char, rest: string)
    requires AllSpace(a) && (mark == ';' || mark == '#')
    ensures Classify(a + [mark] + rest) == Ignored
  {
    var s := a + [mark] + rest;
    assert NoNul(a);
    var k := |CStr(s)|;
    assert k > |a|;
    var x := CStr(s)[|a| + 1..];
    assert CStr(s) == s[..k];
    assert CStr(s) == a + ([mark] + x);
    LSkipPadded(a, [mark] + x);
    assert LSkip(CStr(s))[0] == mark;
    assert IsComment(s);
  }
}

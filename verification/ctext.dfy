/**
 Characters and NUL-terminated strings as the INI reader sees them.

 A C buffer is modelled as the `string` of its bytes (each byte a `char` below 256);
 `CStr` recovers what the string functions of the C library see in it.
 */
module CText {
  import opened Wrappers

  /** `SDL_isspace`: space, tab, line feed, vertical tab, form feed, carriage return. */
  predicate IsSpace(c: char) {
    c == ' ' || c == '\t' || c == '\n' || c == '\U{0B}' || c == '\U{0C}' || c == '\r'
  }

  predicate AllSpace(s: string) {
    forall i :: 0 <= i < |s| ==> IsSpace(s[i])
  }

  /** No character of `s` is `c`. */
  predicate Lacks(s: string, c: char) {
    forall i :: 0 <= i < |s| ==> s[i] != c
  }

  predicate NoNul(s: string) {
    forall i :: 0 <= i < |s| ==> s[i] != '\0'
  }

  /** Neither end of `s` is whitespace (the empty string counts as trimmed). */
  predicate IsTrimmed(s: string) {
    s == [] || (!IsSpace(s[0]) && !IsSpace(s[|s| - 1]))
  }

  /** The length of the C string held in `s`: the index of the first NUL, or `|s|`. */
  function NulIndex(s: string): (n: nat)
    ensures n <= |s| && NoNul(s[..n])
    ensures n < |s| ==> s[n] == '\0'
  {
    if |s| == 0 || s[0] == '\0' then 0 else 1 + NulIndex(s[1..])
  }

  /** The contents of a NUL-terminated buffer: everything before the first NUL. */
  function CStr(s: string): (r: string)
    ensures |r| <= |s| && r == s[..|r|]
    ensures NoNul(r)
    ensures |r| < |s| ==> s[|r|] == '\0'
  {
    s[..NulIndex(s)]
  }

  lemma NoNulConcat(a: string, b: string)
    requires NoNul(a) && NoNul(b)
    ensures NoNul(a + b)
  {
  }

  lemma CStrOfNoNul(s: string)
    requires NoNul(s)
    ensures CStr(s) == s
  {
  }

  /** The number of whitespace characters `s` starts with. */
  function LeadingSpaces(s: string): (n: nat)
    ensures n <= |s| && AllSpace(s[..n])
    ensures n < |s| ==> !IsSpace(s[n])
  {
    if |s| > 0 && IsSpace(s[0]) then 1 + LeadingSpaces(s[1..]) else 0
  }

  /** The `while(SDL_isspace(*p)) ++p;` loop: drop leading whitespace. */
  function LSkip(s: string): (r: string)
    ensures |r| <= |s| && r == s[|s| - |r|..]
    ensures AllSpace(s[..|s| - |r|])
    ensures r == [] || !IsSpace(r[0])
  {
    s[LeadingSpaces(s)..]
  }

  /** The number of whitespace characters `s` ends with. */
  function TrailingSpaces(s: string): (n: nat)
    ensures n <= |s| && AllSpace(s[|s| - n..])
    ensures n < |s| ==> !IsSpace(s[|s| - n - 1])
  {
    if |s| > 0 && IsSpace(s[|s| - 1]) then 1 + TrailingSpaces(s[..|s| - 1]) else 0
  }

  /** The `while(SDL_isspace(*end)) *end-- = '\0';` loop: drop trailing whitespace. */
  function RStrip(s: string): (r: string)
    ensures |r| <= |s| && r == s[..|r|]
    ensures AllSpace(s[|r|..])
    ensures r == [] || !IsSpace(r[|r| - 1])
  {
    s[..|s| - TrailingSpaces(s)]
  }

  lemma LSkipPadded(a: string, x: string)
    requires AllSpace(a)
    requires x == [] || !IsSpace(x[0])
    ensures LSkip(a + x) == x
  {
    if |a| > 0 {
      assert (a + x)[1..] == a[1..] + x;
      LSkipPadded(a[1..], x);
    } else {
      assert a + x == x;
    }
  }

  lemma RStripPadded(x: string, a: string)
    requires AllSpace(a)
    requires x == [] || !IsSpace(x[|x| - 1])
    ensures RStrip(x + a) == x
  {
    if |a| > 0 {
      assert (x + a)[..|x + a| - 1] == x + a[..|a| - 1];
      RStripPadded(x, a[..|a| - 1]);
    } else {
      assert x + a == x;
    }
  }

  lemma LSkipKeepsNoNul(s: string)
    requires NoNul(s)
    ensures NoNul(LSkip(s))
  {
    var r := LSkip(s);
    assert forall i :: 0 <= i < |r| ==> r[i] == s[|s| - |r| + i];
  }

  lemma RStripKeepsNoNul(s: string)
    requires NoNul(s)
    ensures NoNul(RStrip(s))
  {
    var r := RStrip(s);
    assert forall i :: 0 <= i < |r| ==> r[i] == s[i];
  }

  /** `strchr`: the position of the first occurrence of `c`, if any. */
  function IndexOf(s: string, c: char): (r: Option<nat>)
    ensures r.Some? ==> r.value < |s| && s[r.value] == c && Lacks(s[..r.value], c)
    ensures r.None? <==> Lacks(s, c)
  {
    if |s| == 0 then None
    else if s[0] == c then Some(0)
    else match IndexOf(s[1..], c)
      case None => None
      case Some(i) => assert s[..i + 1] == [s[0]] + s[1..][..i]; Some(i + 1)
  }

  /** The first `c` of `s` is at `d` when `s[d]` is `c` and nothing before it is. */
  lemma IndexOfAt(s: string, c: char, d: nat)
    requires d < |s| && s[d] == c && Lacks(s[..d], c)
    ensures IndexOf(s, c) == Some(d)
  {
  }

  /** `SDL_tolower`: only the letters A to Z change. */
  function ToLowerAscii(c: char): char {
    if 'A' <= c <= 'Z' then (c as int + 32) as char else c
  }

  /** The letter-by-letter `SDL_tolower` loop of `ini_read_bool`. */
  function LowerAll(s: string): (r: string)
    ensures |r| == |s|
    ensures forall i :: 0 <= i < |s| ==> r[i] == ToLowerAscii(s[i])
  {
    if |s| == 0 then [] else [ToLowerAscii(s[0])] + LowerAll(s[1..])
  }

  /** Mapping a to z onto A to Z, as the text routines of the launcher do. */
  function ToUpperAscii(c: char): char {
    if 'a' <= c <= 'z' then (c as int - 32) as char else c
  }
}

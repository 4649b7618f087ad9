/**
 The bitmap-font text metrics of the launcher: `getTextBlockSize` and the glyph placement
 of `printText`.

 The font has one 18x16 glyph per printable ASCII character from `!` (33) to `~` (126),
 stacked 32 pixels apart from column 2 of the texture. Letters are drawn upper-case. A
 printable character advances the pen by 18 pixels, `M` by 20, anything else (space,
 control characters, bytes above 126) by 16.
 */
module TextMetrics {
  import opened CText

  /** The height `getTextBlockSize` reports for every text. */
  const LineHeight: int := 20

  /** The size of one glyph on screen. */
  const GlyphWidth: int := 18
  const GlyphHeight: int := 16

  /** The character after the `a`..`z` to `A`..`Z` mapping. */
  predicate Printable(c: char) {
    33 <= ToUpperAscii(c) as int <= 126
  }

  /** How far one character moves the pen. */
  function Advance(c: char): (a: int)
    ensures a == 16 || a == 18 || a == 20
    ensures a == 16 <==> !Printable(c)
    ensures a == 20 <==> c == 'M' || c == 'm'
  {
    var u := ToUpperAscii(c);
    if 33 <= u as int <= 126 then (if u == 'M' then 20 else 18) else 16
  }

  /** The width of a text: the advances of its characters, summed. */
  function Width(s: string): (w: int)
    ensures 16 * |s| <= w <= 20 * |s|
  {
    if |s| == 0 then 0 else Width(s[..|s| - 1]) + Advance(s[|s| - 1])
  }

  /** `getTextBlockSize`: the width and height of the C string in `text`. */
  method GetTextBlockSize(text: string) returns (w: int, h: int)
    ensures w == Width(CStr(text))
    ensures h == LineHeight
  {
    var s := CStr(text);
    w := 0;
    var i := 0;
    while i < |s|
      invariant 0 <= i <= |s|
      invariant w == Width(s[..i])
    {
      var c := ToUpperAscii(s[i]);
      if 33 <= c as int <= 126 {
        w := w + 18;
        if c == 'M' {
          w := w + 2;
        }
      } else {
        w := w + 16;
      }
      assert s[..i + 1][..i] == s[..i];
      i := i + 1;
    }
    assert s[..i] == s;
    h := 20;
  }

  /** Width adds up over concatenation. */
  lemma {:induction false} WidthAppend(a: string, b: string)
    ensures Width(a + b) == Width(a) + Width(b)
    decreases |b|
  {
    if |b| == 0 {
      assert a + b == a;
    } else {
      var b' := b[..|b| - 1];
      assert (a + b)[..|a + b| - 1] == a + b';
      WidthAppend(a, b');
    }
  }

  /** Each character's advance is the same in either letter case. */
  lemma AdvanceIgnoresCase(c: char)
    ensures Advance(ToUpperAscii(c)) == Advance(c)
    ensures Advance(ToLowerAscii(c)) == Advance(c)
  {
  }

  /** Letter case does not change the width of a text. */
  lemma {:induction false} WidthIgnoresCase(s: string, t: string)
    requires |s| == |t|
    requires forall i :: 0 <= i < |s| ==> ToUpperAscii(s[i]) == ToUpperAscii(t[i])
    ensures Width(s) == Width(t)
    decreases |s|
  {
    if |s| > 0 {
      WidthIgnoresCase(s[..|s| - 1], t[..|t| - 1]);
      AdvanceIgnoresCase(s[|s| - 1]);
      AdvanceIgnoresCase(t[|t| - 1]);
      assert Advance(s[|s| - 1]) == Advance(ToUpperAscii(s[|s| - 1]));
    }
  }

  /** The width of a prefix grows by the advance of the next character. */
  lemma WidthStep(s: string, i: nat)
    requires i < |s|
    ensures Width(s[..i + 1]) == Width(s[..i]) + Advance(s[i])
  {
    assert s[..i + 1][..i] == s[..i];
  }

  /** The width of "Start game": eight letters, a space and an `M`. */
  lemma StartGameWidth()
    ensures Width("Start game") == 180
  {
    var s := "Start game";
    assert s[..0] == [];
    WidthStep(s, 0);
    WidthStep(s, 1);
    WidthStep(s, 2);
    WidthStep(s, 3);
    WidthStep(s, 4);
    WidthStep(s, 5);
    WidthStep(s, 6);
    WidthStep(s, 7);
    WidthStep(s, 8);
    WidthStep(s, 9);
    assert s[..10] == s;
  }

  lemma EditorWidth()
    ensures Width("Editor") == 108
  {
    var s := "Editor";
    assert s[..0] == [];
    WidthStep(s, 0);
    WidthStep(s, 1);
    WidthStep(s, 2);
    WidthStep(s, 3);
    WidthStep(s, 4);
    WidthStep(s, 5);
    assert s[..6] == s;
  }

  lemma NoSoundWidth()
    ensures Width("No Sound") == 142
  {
    var s := "No Sound";
    assert s[..0] == [];
    WidthStep(s, 0);
    WidthStep(s, 1);
    WidthStep(s, 2);
    WidthStep(s, 3);
    WidthStep(s, 4);
    WidthStep(s, 5);
    WidthStep(s, 6);
    WidthStep(s, 7);
    assert s[..8] == s;
  }

  lemma FrameskipWidth()
    ensures Width("Frameskip") == 164
  {
    var s := "Frameskip";
    assert s[..0] == [];
    WidthStep(s, 0);
    WidthStep(s, 1);
    WidthStep(s, 2);
    WidthStep(s, 3);
    WidthStep(s, 4);
    WidthStep(s, 5);
    WidthStep(s, 6);
    WidthStep(s, 7);
    WidthStep(s, 8);
    assert s[..9] == s;
  }

  // ---------------------------------------------------------------------------------
  // printText

  /** One `renderTexture` call of `printText`: where the glyph goes and where in the font
      texture it comes from (always 18x16, from column 2). */
  datatype Glyph = Glyph(x: int, y: int, srcY: int)

  /** The positions of the printable characters of `s`, in order. */
  function PrintablePositions(s: string): (ps: seq<nat>)
    ensures forall k :: 0 <= k < |ps| ==> ps[k] < |s| && Printable(s[ps[k]])
    ensures forall k, l :: 0 <= k < l < |ps| ==> ps[k] < ps[l]
  {
    if |s| == 0 then []
    else
      var pre := PrintablePositions(s[..|s| - 1]);
      if Printable(s[|s| - 1]) then pre + [|s| - 1] else pre
  }

  /** The glyph for the character at position `i` of `s` drawn from pen position (`x`, `y`):
      it stands after the width of everything before it, and its row in the font is the
      character's distance from `!`. */
  function GlyphAt(s: string, x: int, y: int, i: nat): Glyph
    requires i < |s|
  {
    Glyph(x + Width(s[..i]), y, (ToUpperAscii(s[i]) as int - 33) * 32)
  }

  lemma PrintablePositionsStep(s: string, i: nat)
    requires i < |s|
    ensures PrintablePositions(s[..i + 1]) ==
            PrintablePositions(s[..i]) + (if Printable(s[i]) then [i] else [])
  {
    assert s[..i + 1][..i] == s[..i];
  }

  /** The glyph placement of `printText`: one glyph per printable character, each placed
      at the width of the text before it; the pen ends at the width of the whole text. */
  method PrintText(text: string, x: int, y: int) returns (glyphs: seq<Glyph>, pen: int)
    ensures var s := CStr(text);
            var ps := PrintablePositions(s);
            |glyphs| == |ps| &&
            (forall k :: 0 <= k < |ps| ==> glyphs[k] == GlyphAt(s, x, y, ps[k]))
    ensures pen == Width(CStr(text))
  {
    var s := CStr(text);
    glyphs := [];
    var b := 0;
    var i := 0;
    ghost var ps: seq<nat> := [];
    assert s[..0] == [];
    while i < |s|
      invariant 0 <= i <= |s|
      invariant b == Width(s[..i])
      invariant ps == PrintablePositions(s[..i])
      invariant |glyphs| == |ps|
      invariant forall k :: 0 <= k < |ps| ==> ps[k] < |s| && glyphs[k] == GlyphAt(s, x, y, ps[k])
    {
      var c := ToUpperAscii(s[i]);
      PrintablePositionsStep(s, i);
      assert s[..i + 1][..i] == s[..i];
      if 33 <= c as int <= 126 {
        glyphs := glyphs + [Glyph(x + b, y, (c as int - 33) * 32)];
        ps := ps + [i];
        b := b + 18;
        if c == 'M' {
          b := b + 2;
        }
      } else {
        b := b + 16;
      }
      i := i + 1;
    }
    assert s[..i] == s;
    pen := b;
  }
}

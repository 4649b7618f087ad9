/**
 Whole-pipeline properties of the INI reader: a document written out as plain `[name]`
 and `key=value` lines loads back as exactly that document, a byte-order mark changes
 nothing, and an empty file gives the single unnamed section no lookup matches.

 `Render` is not part of the program; it is the partner that states what `ini_load`
 reads by saying what it inverts.
 */
module IniRoundTrip {
  import opened Wrappers
  import opened CText
  import opened LineReader
  import opened Classifier
  import opened IniDocument
  import opened IniRead

  /** `[name]`. */
  function HeaderText(n: string): string {
    HeaderLine([], [], n, [], [])
  }

  /** `key=value`. */
  function PairText(k: string, v: string): string {
    PairLine([], k, [], [], v, [])
  }

  /** A line `rw_getline` returns whole and `_getline` does not join with the next. */
  predicate SafeLine(l: string) {
    NoBreaks(l) && |l| < MaxLine && !Continues(l)
  }

  predicate WritableEntry(e: Entry) {
    PlainKey(e.key) && PlainValue(e.value) && SafeLine(PairText(e.key, e.value))
  }

  predicate WritableSection(s: Section) {
    && s.name.Some? && PlainName(s.name.value) && 0 < |s.name.value|
    && SafeLine(HeaderText(s.name.value))
    && DistinctKeys(s.entries)
    && forall j :: 0 <= j < |s.entries| ==> WritableEntry(s.entries[j])
  }

  /** A document that can be written as text and read back: every section named and
      writable, and no name used twice. */
  predicate Writable(doc: seq<Section>) {
    && (forall i :: 0 <= i < |doc| ==> WritableSection(doc[i]))
    && (forall i, j :: 0 <= i < j < |doc| ==> doc[i].name != doc[j].name)
  }

  /** One `key=value` line per entry. */
  function EntryLines(es: seq<Entry>): (lines: seq<string>)
    ensures |lines| == |es|
    ensures forall j :: 0 <= j < |es| ==> lines[j] == PairText(es[j].key, es[j].value)
  {
    if |es| == 0 then [] else EntryLines(es[..|es| - 1]) + [PairText(es[|es| - 1].key, es[|es| - 1].value)]
  }

  /** What the lines of a section classify as. */
  function EntryKinds(es: seq<Entry>): (kinds: seq<LineKind>)
    ensures |kinds| == |es|
    ensures forall j :: 0 <= j < |es| ==> kinds[j] == Pair(es[j].key, es[j].value)
  {
    if |es| == 0 then [] else EntryKinds(es[..|es| - 1]) + [Pair(es[|es| - 1].key, es[|es| - 1].value)]
  }

  function SectionLines(s: Section): seq<string>
    requires s.name.Some?
  {
    [HeaderText(s.name.value)] + EntryLines(s.entries)
  }

  function SectionKinds(s: Section): seq<LineKind>
    requires s.name.Some?
  {
    [Header(s.name.value)] + EntryKinds(s.entries)
  }

  predicate AllNamed(doc: seq<Section>) {
    forall i :: 0 <= i < |doc| ==> doc[i].name.Some?
  }

  function DocLines(doc: seq<Section>): seq<string>
    requires AllNamed(doc)
  {
    if |doc| == 0 then [] else DocLines(doc[..|doc| - 1]) + SectionLines(doc[|doc| - 1])
  }

  function DocKinds(doc: seq<Section>): seq<LineKind>
    requires AllNamed(doc)
  {
    if |doc| == 0 then [] else DocKinds(doc[..|doc| - 1]) + SectionKinds(doc[|doc| - 1])
  }

  /** Lines joined with a line feed after each. */
  function Text(lines: seq<string>): string {
    if |lines| == 0 then [] else lines[0] + ['\n'] + Text(lines[1..])
  }

  /** The text of a document: each section as a header line followed by its key lines. */
  function Render(doc: seq<Section>): string
    requires AllNamed(doc)
  {
    Text(DocLines(doc))
  }

  // ---------------------------------------------------------------------------------
  // Reading the lines back

  /** Lines that survive the reader come back one for one. */
  lemma {:induction false} LogicalLinesOfText(lines: seq<string>)
    requires forall i :: 0 <= i < |lines| ==> SafeLine(lines[i])
    ensures LogicalLines(Text(lines)) == lines
    decreases |lines|
  {
    if |lines| > 0 {
      var t := Text(lines[1..]);
      ReadTerminatedLine(lines[0], t);
      ContinueStop(lines[0], t);
      assert ReadLogical(Text(lines)) == Logical(lines[0], t);
      assert LogicalLines(Text(lines)) == [lines[0]] + LogicalLines(t);
      LogicalLinesOfText(lines[1..]);
      HeadTail(lines);
    }
  }

  lemma HeadTail<T>(xs: seq<T>)
    requires |xs| > 0
    ensures [xs[0]] + xs[1..] == xs
  {
  }

  lemma SectionLinesSafe(s: Section)
    requires WritableSection(s)
    ensures forall i :: 0 <= i < |SectionLines(s)| ==> SafeLine(SectionLines(s)[i])
  {
    var ls := SectionLines(s);
    assert forall i :: 1 <= i < |ls| ==> ls[i] == EntryLines(s.entries)[i - 1];
  }

  lemma {:induction false} DocLinesSafe(doc: seq<Section>)
    requires Writable(doc)
    ensures forall i :: 0 <= i < |DocLines(doc)| ==> SafeLine(DocLines(doc)[i])
    decreases |doc|
  {
    if |doc| > 0 {
      var pre := doc[..|doc| - 1];
      assert Writable(pre);
      DocLinesSafe(pre);
      SectionLinesSafe(doc[|doc| - 1]);
    }
  }

  // ---------------------------------------------------------------------------------
  // Classifying them

  lemma ClassifyAllAppend(a: seq<string>, b: seq<string>)
    ensures ClassifyAll(a + b) == ClassifyAll(a) + ClassifyAll(b)
  {
    var l := ClassifyAll(a + b);
    var r := ClassifyAll(a) + ClassifyAll(b);
    assert forall i :: 0 <= i < |a| ==> (a + b)[i] == a[i];
    assert forall i :: |a| <= i < |a + b| ==> (a + b)[i] == b[i - |a|];
    assert forall i :: 0 <= i < |l| ==> l[i] == r[i];
  }

  lemma ClassifyEntry(e: Entry)
    requires WritableEntry(e)
    ensures Classify(PairText(e.key, e.value)) == Pair(e.key, e.value)
  {
    PairLineRoundTrip([], e.key, [], [], e.value, []);
  }

  lemma ClassifyEntries(es: seq<Entry>)
    requires forall j :: 0 <= j < |es| ==> WritableEntry(es[j])
    ensures ClassifyAll(EntryLines(es)) == EntryKinds(es)
  {
    forall j | 0 <= j < |es|
      ensures Classify(EntryLines(es)[j]) == EntryKinds(es)[j]
    {
      ClassifyEntry(es[j]);
    }
  }

  lemma ClassifySection(s: Section)
    requires WritableSection(s)
    ensures ClassifyAll(SectionLines(s)) == SectionKinds(s)
  {
    var h := HeaderText(s.name.value);
    ClassifyAllAppend([h], EntryLines(s.entries));
    ClassifyEntries(s.entries);
    HeaderLineRoundTrip([], [], s.name.value, [], []);
    assert ClassifyAll([h]) == [Header(s.name.value)];
  }

  lemma {:induction false} ClassifyDoc(doc: seq<Section>)
    requires Writable(doc)
    ensures ClassifyAll(DocLines(doc)) == DocKinds(doc)
    decreases |doc|
  {
    if |doc| > 0 {
      var pre := doc[..|doc| - 1];
      assert Writable(pre);
      ClassifyDoc(pre);
      ClassifyAllAppend(DocLines(pre), SectionLines(doc[|doc| - 1]));
      ClassifySection(doc[|doc| - 1]);
    }
  }

  // ---------------------------------------------------------------------------------
  // Building the document

  /** A header naming a new section appends it and makes it current. */
  lemma StepNewHeader(doc: seq<Section>, curr: Option<nat>, n: string)
    requires Valid(Builder(doc, curr)) && FindSection(doc, n).None?
    ensures Step(Builder(doc, curr), Header(n)) == Going(Builder(doc + [Section(Some(n), [])], Some(|doc|)))
  {
  }

  /** A new key in the last section is appended to it. */
  lemma StepNewKey(doc: seq<Section>, name: Option<string>, es: seq<Entry>, e: Entry)
    requires FindArg(es, e.key).None?
    ensures Step(Builder(doc + [Section(name, es)], Some(|doc|)), Pair(e.key, e.value)) ==
            Going(Builder(doc + [Section(name, es + [e])], Some(|doc|)))
  {
    var d := doc + [Section(name, es)];
    assert d[|doc| := Section(name, es + [e])] == doc + [Section(name, es + [e])];
  }

  /** A section's header and key lines, after the sections before it, add exactly that
      section: the header is new, and each key is new within the section. */
  lemma {:induction false} BuildSection(pre: seq<LineKind>, docPre: seq<Section>, curr: Option<nat>,
                                        n: string, es: seq<Entry>)
    requires Valid(Builder(docPre, curr)) && Build(pre) == Going(Builder(docPre, curr))
    requires FindSection(docPre, n).None? && DistinctKeys(es)
    ensures Build(pre + [Header(n)] + EntryKinds(es)) ==
            Going(Builder(docPre + [Section(Some(n), es)], Some(|docPre|)))
    decreases |es|
  {
    if |es| == 0 {
      assert pre + [Header(n)] + EntryKinds(es) == pre + [Header(n)];
      BuildSnoc(pre, Header(n));
      StepNewHeader(docPre, curr, n);
    } else {
      var es' := es[..|es| - 1];
      var e := es[|es| - 1];
      LastKeyNew(es);
      BuildSection(pre, docPre, curr, n, es');
      var before := pre + [Header(n)] + EntryKinds(es');
      assert pre + [Header(n)] + EntryKinds(es) == before + [Pair(e.key, e.value)];
      assert es == es' + [e];
      BuildNewKey(before, docPre, n, es', e);
    }
  }

  /** The last key of distinct keys is new among the ones before it. */
  lemma LastKeyNew(es: seq<Entry>)
    requires DistinctKeys(es) && |es| > 0
    ensures DistinctKeys(es[..|es| - 1]) && FindArg(es[..|es| - 1], es[|es| - 1].key).None?
  {
    var es' := es[..|es| - 1];
    assert forall m :: 0 <= m < |es'| ==> es'[m].key == es[m].key;
  }

  /** A new key line after a section's lines appends the entry to that section. */
  lemma BuildNewKey(before: seq<LineKind>, docPre: seq<Section>, n: string, es: seq<Entry>, e: Entry)
    requires Build(before) == Going(Builder(docPre + [Section(Some(n), es)], Some(|docPre|)))
    requires FindArg(es, e.key).None?
    ensures Build(before + [Pair(e.key, e.value)]) ==
            Going(Builder(docPre + [Section(Some(n), es + [e])], Some(|docPre|)))
  {
    BuildSnoc(before, Pair(e.key, e.value));
    StepNewKey(docPre, Some(n), es, e);
  }

  lemma WritablePrefix(doc: seq<Section>)
    requires Writable(doc) && |doc| > 0
    ensures Writable(doc[..|doc| - 1])
    ensures FindSection(doc[..|doc| - 1], doc[|doc| - 1].name.value).None?
    ensures WritableSection(doc[|doc| - 1])
  {
    var pre := doc[..|doc| - 1];
    assert forall i :: 0 <= i < |pre| ==> pre[i] == doc[i];
  }

  lemma DocKindsSnoc(doc: seq<Section>)
    requires AllNamed(doc) && |doc| > 0
    ensures var s := doc[|doc| - 1];
            DocKinds(doc) == DocKinds(doc[..|doc| - 1]) + [Header(s.name.value)] + EntryKinds(s.entries)
  {
  }

  /** The position of the last section, NULL for none. */
  function LastIndex(doc: seq<Section>): (c: Option<nat>)
    ensures Valid(Builder(doc, c))
  {
    if |doc| == 0 then None else Some(|doc| - 1)
  }

  /** The classified lines of a writable document build exactly that document. */
  lemma {:induction false} BuildDoc(doc: seq<Section>)
    requires Writable(doc)
    ensures Build(DocKinds(doc)) == Going(Builder(doc, LastIndex(doc)))
    decreases |doc|
  {
    if |doc| > 0 {
      var pre := doc[..|doc| - 1];
      var s := doc[|doc| - 1];
      WritablePrefix(doc);
      BuildDoc(pre);
      BuildSection(DocKinds(pre), pre, LastIndex(pre), s.name.value, s.entries);
      DocKindsSnoc(doc);
      assert pre + [Section(Some(s.name.value), s.entries)] == doc;
    }
  }

  /** A writable document, written out, loads back as itself (a document with no
      sections loads as the unnamed placeholder). */
  lemma LoadRender(doc: seq<Section>)
    requires Writable(doc)
    ensures Load(Some(Render(doc))) == Loaded(if doc == [] then [Section(None, [])] else doc)
  {
    var text := Render(doc);
    assert !StartsWithBom(text) by {
      if |doc| > 0 {
        assert DocLines(doc) == DocLines(doc[..|doc| - 1]) + SectionLines(doc[|doc| - 1]);
        FirstLineOfDoc(doc);
      }
    }
    DocLinesSafe(doc);
    LogicalLinesOfText(DocLines(doc));
    ClassifyDoc(doc);
    BuildDoc(doc);
  }

  /** A rendered document starts with a header line, so not with a byte-order mark. */
  lemma {:induction false} FirstLineOfDoc(doc: seq<Section>)
    requires AllNamed(doc) && |doc| > 0
    ensures |Render(doc)| > 0 && Render(doc)[0] == '['
    decreases |doc|
  {
    var pre := doc[..|doc| - 1];
    if |pre| == 0 {
      assert DocLines(doc) == SectionLines(doc[0]);
    } else {
      FirstLineOfDoc(pre);
      assert DocLines(doc)[0] == DocLines(pre)[0];
    }
  }

  /** Every value of a writable document can be read back, unquoted, after loading it. */
  lemma ReadRendered(doc: seq<Section>, name: string, key: string, default: Option<string>)
    requires Writable(doc) && |doc| > 0 && name != []
    ensures Load(Some(Render(doc))).Loaded?
    ensures var r := ReadStr(Some(Load(Some(Render(doc))).doc), Some(name), Some(key), default);
            match FindValue(doc, name, key)
            case Some(v) => r.status == 0 && r.value == Wrote(Some(RemoveQuotes(v).read))
            case None => r.status == 1 && r.value == Wrote(default)
  {
    LoadRender(doc);
  }

  // ---------------------------------------------------------------------------------
  // Byte-order mark and empty input

  /** A leading UTF-8 byte-order mark is skipped and changes nothing. */
  lemma BomTransparent(s: string)
    requires !StartsWithBom(s)
    ensures Load(Some(Bom + s)) == Load(Some(s))
  {
    assert (Bom + s)[..3] == Bom;
    assert (Bom + s)[3..] == s;
  }

  /** An empty file loads as the unnamed placeholder section, and every lookup in it
      misses and returns the default. */
  lemma EmptyFile(section: Option<string>, key: string, default: Option<string>)
    ensures Load(Some([])) == Loaded([Section(None, [])])
    ensures ReadStr(Some([Section(None, [])]), section, Some(key), default) ==
            StrRead(1, Wrote(default), Some([Section(None, [])]))
  {
    assert LogicalLines([]) == [];
  }

  // ---------------------------------------------------------------------------------
  // Behaviours of the build loop on short line sequences

  lemma BuildOne(kind: LineKind)
    ensures Build([kind]) == Step(Builder([], None), kind)
  {
    BuildSnoc([], kind);
    assert [] + [kind] == [kind];
  }

  lemma StepFirstHeader(n: string)
    ensures Step(Builder([], None), Header(n)) == Going(Builder([Section(Some(n), [])], Some(0)))
  {
    StepNewHeader([], None, n);
    assert [] + [Section(Some(n), [])] == [Section(Some(n), [])];
  }

  lemma StepFirstKey(k: string, v: string)
    ensures Step(Builder([], None), Pair(k, v)) == Going(Builder([Section(Some(GlobalName), [Entry(k, v)])], Some(0)))
  {
    assert FindArg([], k).None?;
    assert Put([], k, v) == [Entry(k, v)];
    var g := [Section(Some(GlobalName), [])];
    assert g[0 := Section(g[0].name, [Entry(k, v)])] == [Section(Some(GlobalName), [Entry(k, v)])];
  }

  /** The first key of a section that has none. */
  lemma StepKeyIntoEmpty(name: Option<string>, e: Entry)
    ensures Step(Builder([Section(name, [])], Some(0)), Pair(e.key, e.value)) ==
            Going(Builder([Section(name, [e])], Some(0)))
  {
    StepNewKey([], name, [], e);
    assert [] + [Section(name, [])] == [Section(name, [])];
    assert [] + [e] == [e];
    assert [] + [Section(name, [e])] == [Section(name, [e])];
  }

  /** Keys before any header go into one section called `global`. */
  lemma KeysBeforeHeader(k1: string, v1: string, k2: string, v2: string)
    requires k1 != k2
    ensures Build([Pair(k1, v1), Pair(k2, v2)]) ==
            Going(Builder([Section(Some(GlobalName), [Entry(k1, v1), Entry(k2, v2)])], Some(0)))
  {
    BuildOne(Pair(k1, v1));
    StepFirstKey(k1, v1);
    BuildSnoc([Pair(k1, v1)], Pair(k2, v2));
    assert [Pair(k1, v1)] + [Pair(k2, v2)] == [Pair(k1, v1), Pair(k2, v2)];
    StepNewKey([], Some(GlobalName), [Entry(k1, v1)], Entry(k2, v2));
    assert [] + [Section(Some(GlobalName), [Entry(k1, v1)])] == [Section(Some(GlobalName), [Entry(k1, v1)])];
    assert [Entry(k1, v1)] + [Entry(k2, v2)] == [Entry(k1, v1), Entry(k2, v2)];
    assert [] + [Section(Some(GlobalName), [Entry(k1, v1), Entry(k2, v2)])] ==
           [Section(Some(GlobalName), [Entry(k1, v1), Entry(k2, v2)])];
  }

  /** A key repeated in a section keeps its place and takes the last value. */
  lemma LastWriteWins(n: string, k: string, v1: string, v2: string)
    ensures Build([Header(n), Pair(k, v1), Pair(k, v2)]) ==
            Going(Builder([Section(Some(n), [Entry(k, v2)])], Some(0)))
  {
    BuildOne(Header(n));
    StepFirstHeader(n);
    BuildSnoc([Header(n)], Pair(k, v1));
    assert [Header(n)] + [Pair(k, v1)] == [Header(n), Pair(k, v1)];
    StepKeyIntoEmpty(Some(n), Entry(k, v1));
    BuildSnoc([Header(n), Pair(k, v1)], Pair(k, v2));
    assert [Header(n), Pair(k, v1)] + [Pair(k, v2)] == [Header(n), Pair(k, v1), Pair(k, v2)];
    assert FindArg([Entry(k, v1)], k) == Some(0);
    var d := [Section(Some(n), [Entry(k, v1)])];
    assert [Entry(k, v1)][0 := Entry(k, v2)] == [Entry(k, v2)];
    assert d[0 := Section(d[0].name, [Entry(k, v1)][0 := Entry(k, v2)])] == [Section(Some(n), [Entry(k, v2)])];
  }

  /** A header that reopens a section with no key yet crashes the loader. */
  lemma ReopenEmptySectionCrashes(a: string, b: string)
    requires a != b
    ensures Build([Header(a), Header(b), Header(a)]) == NullDeref
  {
    BuildOne(Header(a));
    StepFirstHeader(a);
    BuildSnoc([Header(a)], Header(b));
    assert [Header(a)] + [Header(b)] == [Header(a), Header(b)];
    StepNewHeader([Section(Some(a), [])], Some(0), b);
    BuildSnoc([Header(a), Header(b)], Header(a));
    assert [Header(a), Header(b)] + [Header(a)] == [Header(a), Header(b), Header(a)];
    assert FindSection([Section(Some(a), [])] + [Section(Some(b), [])], a) == Some(0);
  }

  /** Reopening a section that has keys appends after its last entry. */
  lemma ReopenAppends(a: string, b: string, k1: string, v1: string, k2: string, v2: string)
    requires a != b && k1 != k2
    ensures Build([Header(a), Pair(k1, v1), Header(b), Header(a), Pair(k2, v2)]) ==
            Going(Builder([Section(Some(a), [Entry(k1, v1), Entry(k2, v2)]), Section(Some(b), [])], Some(0)))
  {
    var sa := Section(Some(a), [Entry(k1, v1)]);
    var d := [sa, Section(Some(b), [])];
    BuildOne(Header(a));
    StepFirstHeader(a);
    BuildSnoc([Header(a)], Pair(k1, v1));
    assert [Header(a)] + [Pair(k1, v1)] == [Header(a), Pair(k1, v1)];
    StepKeyIntoEmpty(Some(a), Entry(k1, v1));
    BuildSnoc([Header(a), Pair(k1, v1)], Header(b));
    assert [Header(a), Pair(k1, v1)] + [Header(b)] == [Header(a), Pair(k1, v1), Header(b)];
    StepNewHeader([sa], Some(0), b);
    assert [sa] + [Section(Some(b), [])] == d;
    BuildSnoc([Header(a), Pair(k1, v1), Header(b)], Header(a));
    assert [Header(a), Pair(k1, v1), Header(b)] + [Header(a)] == [Header(a), Pair(k1, v1), Header(b), Header(a)];
    assert FindSection(d, a) == Some(0);
    BuildSnoc([Header(a), Pair(k1, v1), Header(b), Header(a)], Pair(k2, v2));
    assert [Header(a), Pair(k1, v1), Header(b), Header(a)] + [Pair(k2, v2)] ==
           [Header(a), Pair(k1, v1), Header(b), Header(a), Pair(k2, v2)];
    assert FindArg([Entry(k1, v1)], k2).None?;
    assert Put([Entry(k1, v1)], k2, v2) == [Entry(k1, v1), Entry(k2, v2)];
  }
}

/**
 The document `ini_load` builds, and the loop that fills it from classified lines.

 A document is a list of sections in creation order; a section is a name and a list of
 entries in insertion order. The loop keeps a current section: a header selects the
 section of that name, creating it at the end of the list when none exists; a key line
 before any header creates a section called `global`; a key line overwrites the value of
 the same key in the current section in place, or appends a new entry.
 */
module IniDocument {
  import opened Wrappers
  import opened CText
  import opened LineReader
  import opened Classifier

  /** `struct ini_arg`: one key and its value. */
  datatype Entry = Entry(key: string, value: string)

  /** `struct ini_section`: a name and its entries in order. Only the placeholder section
      returned for a file without sections or keys has no name. */
  datatype Section = Section(name: Option<string>, entries: seq<Entry>)

  /** The section that collects keys met before any header. */
  const GlobalName: string := "global"

  /** `find_section`: the position of the first section called `name`. */
  function FindSection(doc: seq<Section>, name: string): (r: Option<nat>)
    ensures r.Some? ==> r.value < |doc| && doc[r.value].name == Some(name)
    ensures r.Some? ==> forall j :: 0 <= j < r.value ==> doc[j].name != Some(name)
    ensures r.None? ==> forall j :: 0 <= j < |doc| ==> doc[j].name != Some(name)
  {
    if |doc| == 0 then None
    else if doc[0].name == Some(name) then Some(0)
    else match FindSection(doc[1..], name)
      case None => None
      case Some(i) => Some(i + 1)
  }

  /** `find_arg`: the position of the first entry whose key is `key`. */
  function FindArg(entries: seq<Entry>, key: string): (r: Option<nat>)
    ensures r.Some? ==> r.value < |entries| && entries[r.value].key == key
    ensures r.Some? ==> forall j :: 0 <= j < r.value ==> entries[j].key != key
    ensures r.None? ==> forall j :: 0 <= j < |entries| ==> entries[j].key != key
  {
    if |entries| == 0 then None
    else if entries[0].key == key then Some(0)
    else match FindArg(entries[1..], key)
      case None => None
      case Some(i) => Some(i + 1)
  }

  /** The value stored under `key`, if any. */
  function Lookup(entries: seq<Entry>, key: string): Option<string> {
    match FindArg(entries, key)
    case None => None
    case Some(i) => Some(entries[i].value)
  }

  /** The value stored under `key` in the section called `name`, if any. */
  function FindValue(doc: seq<Section>, name: string, key: string): Option<string> {
    match FindSection(doc, name)
    case None => None
    case Some(i) => Lookup(doc[i].entries, key)
  }

  /** The key branch of `ini_load`: overwrite the value of an existing key in place,
      otherwise append a new entry at the end. */
  function Put(entries: seq<Entry>, key: string, value: string): (r: seq<Entry>)
    ensures |r| > 0
    ensures FindArg(entries, key).Some? ==>
      && |r| == |entries|
      && forall j :: 0 <= j < |r| ==>
           r[j].key == entries[j].key && (entries[j].key != key ==> r[j] == entries[j])
    ensures FindArg(entries, key).None? ==> r == entries + [Entry(key, value)]
  {
    match FindArg(entries, key)
    case Some(i) => entries[i := Entry(key, value)]
    case None => entries + [Entry(key, value)]
  }

  /** `find_arg` looks only at the keys. */
  lemma {:induction false} FindArgSameKeys(a: seq<Entry>, b: seq<Entry>, q: string)
    requires |a| == |b|
    requires forall j :: 0 <= j < |a| ==> a[j].key == b[j].key
    ensures FindArg(a, q) == FindArg(b, q)
    decreases |a|
  {
    if |a| > 0 {
      FindArgSameKeys(a[1..], b[1..], q);
    }
  }

  /** Appending an entry finds it only when no earlier entry has its key. */
  lemma {:induction false} FindArgAppend(entries: seq<Entry>, e: Entry, q: string)
    ensures FindArg(entries + [e], q) ==
      if FindArg(entries, q).Some? then FindArg(entries, q)
      else if e.key == q then Some(|entries|) else None
    decreases |entries|
  {
    if |entries| > 0 {
      assert (entries + [e])[1..] == entries[1..] + [e];
      FindArgAppend(entries[1..], e, q);
    } else {
      assert entries + [e] == [e];
    }
  }

  /** After `Put`, the key holds the new value and every other key keeps its value. */
  lemma PutLookup(entries: seq<Entry>, key: string, value: string, q: string)
    ensures Lookup(Put(entries, key, value), q) == if q == key then Some(value) else Lookup(entries, q)
  {
    var r := Put(entries, key, value);
    match FindArg(entries, key)
    case Some(i) =>
      FindArgSameKeys(r, entries, q);
      if q != key {
        match FindArg(entries, q)
        case None =>
        case Some(m) => assert m != i;
      }
    case None =>
      FindArgAppend(entries, Entry(key, value), q);
      if q != key {
        match FindArg(entries, q)
        case None =>
        case Some(m) => assert r[m] == entries[m];
      }
  }

  /** `Put` never removes a key and never duplicates one. */
  predicate DistinctKeys(entries: seq<Entry>) {
    forall i, j :: 0 <= i < j < |entries| ==> entries[i].key != entries[j].key
  }

  lemma PutKeepsKeysDistinct(entries: seq<Entry>, key: string, value: string)
    requires DistinctKeys(entries)
    ensures DistinctKeys(Put(entries, key, value))
  {
    var r := Put(entries, key, value);
    match FindArg(entries, key)
    case Some(i) =>
      assert forall j :: 0 <= j < |r| ==> r[j].key == entries[j].key;
    case None =>
      assert forall j :: 0 <= j < |entries| ==> r[j] == entries[j];
  }

  /** The state of the loop: the list so far and the position of `curr` (NULL before the
      first header or key). The last entry of the current section is where `arg_prev`
      points, so appending to `entries` is what linking after `arg_prev` does. */
  datatype Builder = Builder(doc: seq<Section>, curr: Option<nat>)

  /** `curr` points into the list, and is NULL only while the list is empty. */
  predicate Valid(b: Builder) {
    && (b.curr.Some? ==> b.curr.value < |b.doc|)
    && (b.curr.None? ==> b.doc == [])
  }

  /** The loop either goes on with a new state or follows a NULL pointer. */
  datatype Progress = Going(state: Builder) | NullDeref

  /** One line of `ini_load`. A header naming an existing section with no entries makes the
      code walk `arg_prev->next` with `arg_prev` NULL. */
  function Step(b: Builder, kind: LineKind): (r: Progress)
    requires Valid(b)
    ensures r.Going? ==> Valid(r.state)
  {
    match kind
    case Ignored => Going(b)
    case Header(name) =>
      (match FindSection(b.doc, name)
       case None => Going(Builder(b.doc + [Section(Some(name), [])], Some(|b.doc|)))
       case Some(i) => if b.doc[i].entries == [] then NullDeref else Going(Builder(b.doc, Some(i))))
    case Pair(key, value) =>
      var doc := if b.curr.None? then [Section(Some(GlobalName), [])] else b.doc;
      var c := if b.curr.None? then 0 else b.curr.value;
      Going(Builder(doc[c := Section(doc[c].name, Put(doc[c].entries, key, value))], Some(c)))
  }

  /** The loop over all classified lines, from an empty list. */
  function Build(kinds: seq<LineKind>): (r: Progress)
    ensures r.Going? ==> Valid(r.state)
  {
    if |kinds| == 0 then Going(Builder([], None))
    else match Build(kinds[..|kinds| - 1])
      case NullDeref => NullDeref
      case Going(b) => Step(b, kinds[|kinds| - 1])
  }

  /** Every logical line classified, in order. */
  function ClassifyAll(lines: seq<string>): (kinds: seq<LineKind>)
    ensures |kinds| == |lines|
    ensures forall i :: 0 <= i < |lines| ==> kinds[i] == Classify(lines[i])
  {
    if |lines| == 0 then [] else [Classify(lines[0])] + ClassifyAll(lines[1..])
  }

  /** What `ini_load` returns: NULL when the file cannot be opened, a crash, or the list.
      A file that yields no section at all gives one unnamed, empty section. */
  datatype LoadResult = NoFile | Crashed | Loaded(doc: seq<Section>)

  /** The lines `ini_load` classifies for a file's contents. */
  function FileKinds(bytes: string): seq<LineKind> {
    ClassifyAll(LogicalLines(SkipBom(bytes)))
  }

  /** `ini_load`, with the file given as its contents (`None` when it cannot be opened). */
  function Load(file: Option<string>): (r: LoadResult)
    ensures r.NoFile? <==> file.None?
    ensures r.Loaded? ==> |r.doc| > 0
    ensures r.Crashed? <==> file.Some? && Build(FileKinds(file.value)).NullDeref?
  {
    match file
    case None => NoFile
    case Some(bytes) =>
      match Build(FileKinds(bytes))
      case NullDeref => Crashed
      case Going(b) => Loaded(if b.doc == [] then [Section(None, [])] else b.doc)
  }

  // ---------------------------------------------------------------------------------
  // Reference semantics: what the document should hold, read off the classified lines.

  /** The name of the last header among `kinds`. */
  function LastHeader(kinds: seq<LineKind>): Option<string> {
    if |kinds| == 0 then None
    else if kinds[|kinds| - 1].Header? then Some(kinds[|kinds| - 1].name)
    else LastHeader(kinds[..|kinds| - 1])
  }

  /** The section a key line after `kinds` belongs to. */
  function ScopeName(kinds: seq<LineKind>): string {
    LastHeader(kinds).GetOr(GlobalName)
  }

  /** Some header among `kinds` is `[name]`. */
  predicate HasHeader(kinds: seq<LineKind>, name: string) {
    exists i :: 0 <= i < |kinds| && kinds[i] == Header(name)
  }

  /** Some key line among `kinds` belongs to section `name`. */
  predicate AnyPairIn(kinds: seq<LineKind>, name: string) {
    |kinds| > 0 &&
      (AnyPairIn(kinds[..|kinds| - 1], name) ||
       (kinds[|kinds| - 1].Pair? && ScopeName(kinds[..|kinds| - 1]) == name))
  }

  /** Section `name` exists after `kinds`: it was named in a header or received a key. */
  predicate Opened(kinds: seq<LineKind>, name: string) {
    HasHeader(kinds, name) || AnyPairIn(kinds, name)
  }

  /** The value of the last key line for `key` in section `name`. */
  function RefValue(kinds: seq<LineKind>, name: string, key: string): Option<string> {
    if |kinds| == 0 then None
    else
      var last := kinds[|kinds| - 1];
      var before := kinds[..|kinds| - 1];
      if last.Pair? && last.key == key && ScopeName(before) == name then Some(last.value)
      else RefValue(before, name, key)
  }

  /** Some header reopens a section that exists but has received no key yet. */
  predicate Crashes(kinds: seq<LineKind>) {
    |kinds| > 0 &&
      var last := kinds[|kinds| - 1];
      var before := kinds[..|kinds| - 1];
      Crashes(before) || (last.Header? && Opened(before, last.name) && !AnyPairIn(before, last.name))
  }

  /** The document agrees with the reference about section `name` and key `key`. */
  predicate Agrees(kinds: seq<LineKind>, doc: seq<Section>, name: string, key: string) {
    && (FindSection(doc, name).Some? <==> Opened(kinds, name))
    && (FindSection(doc, name).Some? ==>
          && (doc[FindSection(doc, name).value].entries == [] <==> !AnyPairIn(kinds, name))
          && Lookup(doc[FindSection(doc, name).value].entries, key) == RefValue(kinds, name, key))
  }

  /** `curr` is the section the next key line belongs to, and is NULL only before any
      header. */
  predicate Tracks(kinds: seq<LineKind>, b: Builder) {
    && Valid(b)
    && (b.curr.Some? ==> FindSection(b.doc, ScopeName(kinds)) == b.curr)
    && (b.curr.None? ==> LastHeader(kinds).None?)
  }

  lemma SnocPrefix(before: seq<LineKind>, kind: LineKind)
    ensures var kinds := before + [kind];
            |kinds| > 0 && kinds[..|kinds| - 1] == before && kinds[|kinds| - 1] == kind
  {
    var kinds := before + [kind];
    assert kinds[..|kinds| - 1] == before;
  }

  /** The loop over one more line is one more step. */
  lemma BuildSnoc(before: seq<LineKind>, kind: LineKind)
    ensures Build(before + [kind]) ==
      match Build(before)
      case NullDeref => NullDeref
      case Going(b) => Step(b, kind)
  {
    SnocPrefix(before, kind);
  }

  lemma HasHeaderSnoc(before: seq<LineKind>, kind: LineKind, name: string)
    ensures HasHeader(before + [kind], name) <==> HasHeader(before, name) || kind == Header(name)
  {
    var kinds := before + [kind];
    if HasHeader(before, name) {
      var i :| 0 <= i < |before| && before[i] == Header(name);
      assert kinds[i] == Header(name);
    }
    if HasHeader(kinds, name) {
      var i :| 0 <= i < |kinds| && kinds[i] == Header(name);
      if i < |before| {
        assert before[i] == kinds[i];
      }
    }
    if kind == Header(name) {
      assert kinds[|before|] == Header(name);
    }
  }

  /** A stored value implies a key line in that section. */
  lemma {:induction false} RefValueNeedsPair(kinds: seq<LineKind>, name: string, key: string)
    ensures RefValue(kinds, name, key).Some? ==> AnyPairIn(kinds, name)
    decreases |kinds|
  {
    if |kinds| > 0 {
      RefValueNeedsPair(kinds[..|kinds| - 1], name, key);
    }
  }

  /** The last header is a header. */
  lemma {:induction false} LastHeaderIsHeader(kinds: seq<LineKind>)
    ensures LastHeader(kinds).Some? ==> HasHeader(kinds, LastHeader(kinds).value)
    decreases |kinds|
  {
    if |kinds| > 0 {
      var before := kinds[..|kinds| - 1];
      SnocPrefix(before, kinds[|kinds| - 1]);
      assert kinds == before + [kinds[|kinds| - 1]];
      LastHeaderIsHeader(before);
      HasHeaderSnoc(before, kinds[|kinds| - 1], ScopeName(kinds));
      if LastHeader(kinds).Some? {
        HasHeaderSnoc(before, kinds[|kinds| - 1], LastHeader(kinds).value);
      }
    }
  }

  /** Adding a section under a new name leaves every other name where it was. */
  lemma {:induction false} FindSectionAppend(doc: seq<Section>, s: Section, name: string)
    requires FindSection(doc, name).None?
    ensures FindSection(doc + [s], name) == if s.name == Some(name) then Some(|doc|) else None
    decreases |doc|
  {
    if |doc| > 0 {
      assert (doc + [s])[1..] == doc[1..] + [s];
      FindSectionAppend(doc[1..], s, name);
    } else {
      assert doc + [s] == [s];
    }
  }

  lemma FindSectionAppendOther(doc: seq<Section>, s: Section, name: string)
    requires FindSection(doc, name).Some?
    ensures FindSection(doc + [s], name) == FindSection(doc, name)
  {
    var d := doc + [s];
    assert forall j :: 0 <= j < |doc| ==> d[j] == doc[j];
  }

  /** Changing the entries of one section moves no name. */
  lemma FindSectionUpdate(doc: seq<Section>, c: nat, entries: seq<Entry>, name: string)
    requires c < |doc|
    ensures FindSection(doc[c := Section(doc[c].name, entries)], name) == FindSection(doc, name)
  {
    var d := doc[c := Section(doc[c].name, entries)];
    assert forall j :: 0 <= j < |doc| ==> d[j].name == doc[j].name;
  }

  /** How each reference function extends by one line. */
  lemma RefSnoc(before: seq<LineKind>, kind: LineKind, name: string, key: string)
    ensures LastHeader(before + [kind]) == if kind.Header? then Some(kind.name) else LastHeader(before)
    ensures AnyPairIn(before + [kind], name) <==>
      AnyPairIn(before, name) || (kind.Pair? && ScopeName(before) == name)
    ensures RefValue(before + [kind], name, key) ==
      if kind.Pair? && kind.key == key && ScopeName(before) == name then Some(kind.value)
      else RefValue(before, name, key)
    ensures HasHeader(before + [kind], name) <==> HasHeader(before, name) || kind == Header(name)
  {
    SnocPrefix(before, kind);
    HasHeaderSnoc(before, kind, name);
  }

  /** The state before any line. */
  lemma EmptyAgrees(name: string, key: string)
    ensures Tracks([], Builder([], None)) && Agrees([], [], name, key)
  {
  }

  /** A comment, blank or unrecognised line changes nothing. */
  lemma StepIgnored(before: seq<LineKind>, b: Builder, name: string, key: string)
    requires Tracks(before, b) && Agrees(before, b.doc, name, key)
    ensures Tracks(before + [Ignored], b) && Agrees(before + [Ignored], b.doc, name, key)
  {
    RefSnoc(before, Ignored, name, key);
    RefSnoc(before, Ignored, ScopeName(before), key);
  }

  /** A header naming a section not seen yet appends an empty section and selects it. */
  lemma StepHeaderNew(before: seq<LineKind>, b: Builder, h: string, name: string, key: string)
    requires Tracks(before, b) && Agrees(before, b.doc, name, key) && Agrees(before, b.doc, h, key)
    requires FindSection(b.doc, h).None?
    ensures var b' := Builder(b.doc + [Section(Some(h), [])], Some(|b.doc|));
            Tracks(before + [Header(h)], b') && Agrees(before + [Header(h)], b'.doc, name, key)
  {
    var kinds := before + [Header(h)];
    var s := Section(Some(h), []);
    var d := b.doc + [s];
    RefSnoc(before, Header(h), name, key);
    FindSectionAppend(b.doc, s, h);
    assert Tracks(kinds, Builder(d, Some(|b.doc|)));
    if name == h {
      RefValueNeedsPair(before, h, key);
    } else if FindSection(b.doc, name).None? {
      FindSectionAppend(b.doc, s, name);
    } else {
      FindSectionAppendOther(b.doc, s, name);
      assert d[FindSection(b.doc, name).value] == b.doc[FindSection(b.doc, name).value];
    }
  }

  /** A header naming a section that already has keys selects it again. */
  lemma StepHeaderFound(before: seq<LineKind>, b: Builder, h: string, i: nat, name: string, key: string)
    requires Tracks(before, b) && Agrees(before, b.doc, name, key) && Agrees(before, b.doc, h, key)
    requires FindSection(b.doc, h) == Some(i)
    ensures Tracks(before + [Header(h)], Builder(b.doc, Some(i)))
    ensures Agrees(before + [Header(h)], b.doc, name, key)
  {
    RefSnoc(before, Header(h), name, key);
  }

  /** A key line with a current section stores the value there. */
  lemma StepPairCurrent(before: seq<LineKind>, b: Builder, k: string, v: string, name: string, key: string)
    requires Tracks(before, b) && Agrees(before, b.doc, name, key)
    requires Agrees(before, b.doc, ScopeName(before), key)
    requires b.curr.Some?
    ensures var c := b.curr.value;
            var b' := Builder(b.doc[c := Section(b.doc[c].name, Put(b.doc[c].entries, k, v))], Some(c));
            Tracks(before + [Pair(k, v)], b') && Agrees(before + [Pair(k, v)], b'.doc, name, key)
  {
    var c := b.curr.value;
    var entries := Put(b.doc[c].entries, k, v);
    var d := b.doc[c := Section(b.doc[c].name, entries)];
    var sc := ScopeName(before);
    RefSnoc(before, Pair(k, v), name, key);
    RefSnoc(before, Pair(k, v), sc, key);
    FindSectionUpdate(b.doc, c, entries, sc);
    FindSectionUpdate(b.doc, c, entries, name);
    if name == sc {
      PutLookup(b.doc[c].entries, k, v, key);
    } else if FindSection(b.doc, name).Some? {
      assert d[FindSection(b.doc, name).value] == b.doc[FindSection(b.doc, name).value];
    }
  }

  /** A key line before any header creates the `global` section holding it. */
  lemma StepPairFirst(before: seq<LineKind>, b: Builder, k: string, v: string, name: string, key: string)
    requires Tracks(before, b) && Agrees(before, b.doc, name, key)
    requires Agrees(before, b.doc, GlobalName, key)
    requires b.curr.None?
    ensures var g := [Section(Some(GlobalName), [])];
            var b' := Builder(g[0 := Section(g[0].name, Put(g[0].entries, k, v))], Some(0));
            Tracks(before + [Pair(k, v)], b') && Agrees(before + [Pair(k, v)], b'.doc, name, key)
  {
    var g := [Section(Some(GlobalName), [])];
    assert Put([], k, v) == [Entry(k, v)];
    assert g[0 := Section(g[0].name, Put(g[0].entries, k, v))] == [Section(Some(GlobalName), [Entry(k, v)])];
    RefSnoc(before, Pair(k, v), name, key);
    RefSnoc(before, Pair(k, v), GlobalName, key);
    RefValueNeedsPair(before, GlobalName, key);
  }

  /** The crash condition extends by one line. */
  lemma CrashesSnoc(before: seq<LineKind>, kind: LineKind)
    ensures Crashes(before + [kind]) <==>
      Crashes(before) || (kind.Header? && Opened(before, kind.name) && !AnyPairIn(before, kind.name))
  {
    SnocPrefix(before, kind);
  }

  /** One step of the loop agrees with one more line of the reference, and crashes exactly
      on a header that reopens a section with no key. */
  lemma StepAgrees(before: seq<LineKind>, b: Builder, kind: LineKind, name: string, key: string)
    requires Tracks(before, b) && Agrees(before, b.doc, name, key)
    requires Agrees(before, b.doc, ScopeName(before), key)
    requires kind.Header? ==> Agrees(before, b.doc, kind.name, key)
    ensures Step(b, kind).NullDeref? <==>
      kind.Header? && Opened(before, kind.name) && !AnyPairIn(before, kind.name)
    ensures Step(b, kind).Going? ==>
      Tracks(before + [kind], Step(b, kind).state) && Agrees(before + [kind], Step(b, kind).state.doc, name, key)
  {
    match kind
    case Ignored => StepIgnored(before, b, name, key);
    case Header(h) =>
      match FindSection(b.doc, h) {
        case None => StepHeaderNew(before, b, h, name, key);
        case Some(i) =>
          if b.doc[i].entries != [] {
            StepHeaderFound(before, b, h, i, name, key);
          }
      }
    case Pair(k, v) =>
      if b.curr.None? {
        StepPairFirst(before, b, k, v, name, key);
      } else {
        StepPairCurrent(before, b, k, v, name, key);
      }
  }

  /** The loop agrees with the reference for every section name and key, and crashes
      exactly when a header reopens a section that exists but has no key. */
  lemma {:induction false} BuildAgrees(kinds: seq<LineKind>, name: string, key: string)
    ensures Build(kinds).NullDeref? <==> Crashes(kinds)
    ensures Build(kinds).Going? ==>
      Tracks(kinds, Build(kinds).state) && Agrees(kinds, Build(kinds).state.doc, name, key)
    decreases |kinds|, 1
  {
    if |kinds| == 0 {
      EmptyAgrees(name, key);
    } else {
      var before := kinds[..|kinds| - 1];
      var kind := kinds[|kinds| - 1];
      assert kinds == before + [kind];
      BuildStep(before, kind, name, key);
    }
  }

  lemma {:induction false} BuildStep(before: seq<LineKind>, kind: LineKind, name: string, key: string)
    ensures Build(before + [kind]).NullDeref? <==> Crashes(before + [kind])
    ensures Build(before + [kind]).Going? ==>
      Tracks(before + [kind], Build(before + [kind]).state) &&
      Agrees(before + [kind], Build(before + [kind]).state.doc, name, key)
    decreases |before| + 1, 0
  {
    SnocPrefix(before, kind);
    CrashesSnoc(before, kind);
    BuildAgrees(before, name, key);
    BuildAgrees(before, ScopeName(before), key);
    if kind.Header? {
      BuildAgrees(before, kind.name, key);
    }
    if Build(before).Going? {
      StepAgrees(before, Build(before).state, kind, name, key);
    }
  }

  /** Every section built by the loop is named, no two sections share a name, and no
      section holds a key twice. */
  predicate WellFormed(doc: seq<Section>) {
    && (forall i :: 0 <= i < |doc| ==> doc[i].name.Some? && DistinctKeys(doc[i].entries))
    && (forall i, j :: 0 <= i < j < |doc| ==> doc[i].name != doc[j].name)
  }

  lemma StepWellFormed(b: Builder, kind: LineKind)
    requires Valid(b) && WellFormed(b.doc)
    ensures Step(b, kind).Going? ==> WellFormed(Step(b, kind).state.doc)
  {
    match kind
    case Ignored =>
    case Header(h) =>
    case Pair(k, v) =>
      var doc := if b.curr.None? then [Section(Some(GlobalName), [])] else b.doc;
      var c := if b.curr.None? then 0 else b.curr.value;
      PutKeepsKeysDistinct(doc[c].entries, k, v);
  }

  lemma {:induction false} BuildWellFormed(kinds: seq<LineKind>)
    ensures Build(kinds).Going? ==> WellFormed(Build(kinds).state.doc)
    decreases |kinds|
  {
    if |kinds| > 0 {
      BuildWellFormed(kinds[..|kinds| - 1]);
      if Build(kinds[..|kinds| - 1]).Going? {
        StepWellFormed(Build(kinds[..|kinds| - 1]).state, kinds[|kinds| - 1]);
      }
    }
  }

  /** What `ini_load` returns for a file it can open: it crashes exactly when a header
      reopens a section with no key; otherwise every section name and value a reader can
      find is the one the reference semantics gives, and the list is either well formed or
      the single unnamed placeholder. */
  lemma LoadAgrees(bytes: string, name: string, key: string)
    ensures Load(Some(bytes)).Crashed? <==> Crashes(FileKinds(bytes))
    ensures Load(Some(bytes)).Loaded? ==>
      var doc := Load(Some(bytes)).doc;
      && (FindSection(doc, name).Some? <==> Opened(FileKinds(bytes), name))
      && FindValue(doc, name, key) == RefValue(FileKinds(bytes), name, key)
      && (WellFormed(doc) || doc == [Section(None, [])])
  {
    var kinds := FileKinds(bytes);
    BuildAgrees(kinds, name, key);
    BuildWellFormed(kinds);
    RefValueNeedsPair(kinds, name, key);
  }
}

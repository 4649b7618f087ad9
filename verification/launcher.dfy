/**
 The launcher's application record and its start-up: `initApp` puts every field in its
 initial state, and `loadSetup` reads the window title and the two program paths from
 `launcher.ini` through the INI reader.

 The SDL handles of the record (window, renderer, textures) are left out; everything the
 menu and the setup read or write is kept.
 */
module Launcher {
  import opened Wrappers
  import opened IniDocument
  import opened IniRead
  import opened IniRoundTrip

  /** The launcher's state. A NULL string is `None`. */
  datatype App = App(
    title: Option<string>,
    width: int,
    height: int,
    working: int,
    gamePath: Option<string>,
    editorPath: Option<string>,
    optNoSound: bool,
    optFrameSkip: bool,
    fadeLevel: int)

  /** The title used when `launcher.ini` does not give one. */
  const DefaultTitle: string := "<Untitled game launcher>"

  /** The window size `initApp` sets. */
  const WindowWidth: int := 600
  const WindowHeight: int := 432

  /** `initApp`: nothing loaded, a 600x432 window, not running, fully faded, options off. */
  function InitApp(): (a: App)
    ensures a.title.None? && a.gamePath.None? && a.editorPath.None?
    ensures a.width == WindowWidth && a.height == WindowHeight
    ensures a.working == 0 && a.fadeLevel == 0
    ensures !a.optNoSound && !a.optFrameSkip
  {
    App(None, 600, 432, 0, None, None, false, false, 0)
  }

  /** What one setting reads as in a loaded document: the value without its quotes when
      the section has the key, the default otherwise. */
  function Pick(doc: seq<Section>, section: string, key: string, default: string): string {
    match FindValue(doc, section, key)
    case Some(v) => RemoveQuotes(v).read
    case None => default
  }

  /** What one setting of `launcher.ini` reads as; a missing file gives the default. */
  function Setting(file: Option<string>, section: string, key: string, default: string): string {
    match Load(file)
    case Loaded(doc) => Pick(doc, section, key, default)
    case _ => default
  }

  /** The outcome of `loadSetup`: the process dies inside `ini_load`, or the record is
      configured. */
  datatype Setup = SetupCrashed | Configured(app: App)

  /** The handler `ini_load` returns: NULL when the file cannot be opened. */
  function Handler(file: Option<string>): (h: Option<seq<Section>>)
    requires !Load(file).Crashed?
    ensures h.None? <==> file.None?
    ensures h.Some? ==> Load(file) == Loaded(h.value)
  {
    match Load(file)
    case Loaded(doc) => Some(doc)
    case NoFile => None
  }

  /** `loadSetup`, with the contents of `launcher.ini` given as `file`. Each read works on
      the document the previous read left behind; the three settings are read as the file
      has them all the same, and nothing else of the record changes. */
  function LoadSetup(a: App, file: Option<string>): (r: Setup)
    ensures r.SetupCrashed? <==> Load(file).Crashed?
    ensures r.Configured? ==>
      r.app == a.(title := Some(Setting(file, "main", "title", DefaultTitle)),
                  gamePath := Some(Setting(file, "app", "game", "")),
                  editorPath := Some(Setting(file, "app", "editor", "")))
  {
    if Load(file).Crashed? then SetupCrashed
    else
      var h := Handler(file);
      var t := ReadStr(h, Some("main"), Some("title"), Some(DefaultTitle));
      var g := ReadStr(t.doc, Some("app"), Some("game"), Some(""));
      var e := ReadStr(g.doc, Some("app"), Some("editor"), Some(""));
      SetupReads(file);
      Configured(a.(title := t.value.item, gamePath := g.value.item, editorPath := e.value.item))
  }

  /** One read against a handler that is the loaded file or NULL gives the setting. */
  lemma ReadGivesSetting(file: Option<string>, h: Option<seq<Section>>, section: string,
                         key: string, default: string)
    requires !Load(file).Crashed? && h == Handler(file)
    requires section != []
    ensures ReadStr(h, Some(section), Some(key), Some(default)).value ==
            Wrote(Some(Setting(file, section, key, default)))
  {
  }

  /** The three reads of `loadSetup`, each against the document the previous one left. */
  lemma SetupReads(file: Option<string>)
    requires !Load(file).Crashed?
    ensures var t := ReadStr(Handler(file), Some("main"), Some("title"), Some(DefaultTitle));
            var g := ReadStr(t.doc, Some("app"), Some("game"), Some(""));
            var e := ReadStr(g.doc, Some("app"), Some("editor"), Some(""));
            && t.value == Wrote(Some(Setting(file, "main", "title", DefaultTitle)))
            && g.value == Wrote(Some(Setting(file, "app", "game", "")))
            && e.value == Wrote(Some(Setting(file, "app", "editor", "")))
  {
    var h := Handler(file);
    ReadGivesSetting(file, h, "main", "title", DefaultTitle);
    var t := ReadStr(h, Some("main"), Some("title"), Some(DefaultTitle));
    var g := ReadStr(t.doc, Some("app"), Some("game"), Some(""));
    if h.Some? {
      var doc := h.value;
      ReadStrKeepsOthers(doc, Some("main"), "title", Some(DefaultTitle), "app", "game");
      ReadStrKeepsOthers(doc, Some("main"), "title", Some(DefaultTitle), "app", "editor");
      var d1 := t.doc.value;
      ReadStrKeepsOthers(d1, Some("app"), "game", Some(""), "app", "editor");
    }
  }

  /** Without `launcher.ini` the record gets the default title and two empty paths. */
  lemma SetupWithoutFile(a: App)
    ensures LoadSetup(a, None) ==
            Configured(a.(title := Some(DefaultTitle), gamePath := Some(""), editorPath := Some("")))
  {
  }

  /** A `launcher.ini` written out from a document configures the record with that
      document's settings. */
  lemma SetupFromRendered(a: App, doc: seq<Section>)
    requires Writable(doc)
    ensures LoadSetup(a, Some(Render(doc))) ==
            Configured(a.(title := Some(Pick(doc, "main", "title", DefaultTitle)),
                          gamePath := Some(Pick(doc, "app", "game", "")),
                          editorPath := Some(Pick(doc, "app", "editor", ""))))
  {
    LoadRender(doc);
  }
}

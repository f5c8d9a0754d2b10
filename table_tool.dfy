/**
 * The table designer page: its theme configuration and preset library, the document and
 * configuration it keeps in the browser's local storage, and the single-flight PNG export.
 *
 * Storage is a map from keys to strings; the JSON encoding of a configuration is an abstract
 * stringify/parse pair (a `Codec`); the browser calls the export makes (the rasteriser, the
 * download link, the settle timer, `alert`, `confirm`) are parameters saying how they turned out.
 */
module TableTool {
  import opened Wrappers
  import Text

  // ---------------------------------------------------------------------------------------
  // Theme model
  // ---------------------------------------------------------------------------------------

  /** A named bundle of the five colours. */
  datatype Preset = Preset(
    name: string,
    headerBg: string,
    headerText: string,
    oddRow: string,
    evenRow: string,
    textColor: string)

  /** The fixed preset library, in the order the page offers it. */
  const PRESETS: seq<Preset> := [
    Preset("Classic Blue", "#2563eb", "#ffffff", "#ffffff", "#f1f5f9", "#1e293b"),
    Preset("Elegant Dark", "#1e293b", "#ffffff", "#334155", "#475569", "#f8fafc"),
    Preset("Nature Green", "#059669", "#ffffff", "#ffffff", "#ecfdf5", "#064e3b"),
    Preset("Minimal Gray", "#4b5563", "#ffffff", "#ffffff", "#f3f4f6", "#111827")
  ]

  /** The theme of the rendered table: five colours, a font size in pixels and a zoom factor. */
  datatype Config = Config(
    fontSize: int,
    scale: real,
    headerBg: string,
    headerText: string,
    oddRow: string,
    evenRow: string,
    textColor: string)

  /** The five colour keys the colour pickers edit. */
  datatype ColorField = HeaderBg | HeaderText | OddRow | EvenRow | TextColor

  /** The colour a configuration holds under `f`. */
  function ColorOf(c: Config, f: ColorField): string {
    match f
    case HeaderBg => c.headerBg
    case HeaderText => c.headerText
    case OddRow => c.oddRow
    case EvenRow => c.evenRow
    case TextColor => c.textColor
  }

  /** The colour a preset holds under `f`. */
  function PresetColor(p: Preset, f: ColorField): string {
    match f
    case HeaderBg => p.headerBg
    case HeaderText => p.headerText
    case OddRow => p.oddRow
    case EvenRow => p.evenRow
    case TextColor => p.textColor
  }

  /** The configuration used when none is stored: 16px, zoom 1, the colours of the first preset. */
  function DefaultConfig(): (c: Config)
    ensures c.fontSize == 16 && c.scale == 1.0
    ensures forall f :: ColorOf(c, f) == PresetColor(PRESETS[0], f)
  {
    Config(16, 1.0, PRESETS[0].headerBg, PRESETS[0].headerText, PRESETS[0].oddRow,
           PRESETS[0].evenRow, PRESETS[0].textColor)
  }

  /** The configuration with its colours taken from `p`; size and zoom are kept. */
  function ApplyPreset(c: Config, p: Preset): (r: Config)
    ensures forall f :: ColorOf(r, f) == PresetColor(p, f)
    ensures r.fontSize == c.fontSize && r.scale == c.scale
  {
    c.(headerBg := p.headerBg, headerText := p.headerText, oddRow := p.oddRow,
       evenRow := p.evenRow, textColor := p.textColor)
  }

  /** The configuration with the colour under `f` set to `v` (a colour picker's change). */
  function SetColor(c: Config, f: ColorField, v: string): (r: Config)
    ensures ColorOf(r, f) == v
    ensures forall g :: g != f ==> ColorOf(r, g) == ColorOf(c, g)
    ensures r.fontSize == c.fontSize && r.scale == c.scale
  {
    match f
    case HeaderBg => c.(headerBg := v)
    case HeaderText => c.(headerText := v)
    case OddRow => c.(oddRow := v)
    case EvenRow => c.(evenRow := v)
    case TextColor => c.(textColor := v)
  }

  /** The configuration with a new font size (the size slider's change); no clamping. */
  function SetFontSize(c: Config, n: int): (r: Config)
    ensures r.fontSize == n && r.scale == c.scale
    ensures forall f :: ColorOf(r, f) == ColorOf(c, f)
  {
    c.(fontSize := n)
  }

  /** The configuration with a new zoom factor (the zoom slider's change); no clamping. */
  function SetScale(c: Config, x: real): (r: Config)
    ensures r.scale == x && r.fontSize == c.fontSize
    ensures forall f :: ColorOf(r, f) == ColorOf(c, f)
  {
    c.(scale := x)
  }

  /** The reset's configuration: the first preset, then size 16 and zoom 1, whatever came before. */
  function ResetConfig(c: Config): (r: Config)
    ensures r == DefaultConfig()
  {
    ApplyPreset(c, PRESETS[0]).(fontSize := 16, scale := 1.0)
  }

  /** Applying a preset forgets every earlier preset and colour choice: only the last one shows. */
  lemma LastPresetWins(c: Config, p: Preset, q: Preset, f: ColorField, v: string)
    ensures ApplyPreset(ApplyPreset(c, p), q) == ApplyPreset(c, q)
    ensures ApplyPreset(SetColor(c, f, v), q) == ApplyPreset(c, q)
  {
  }

  /** Applying a preset and then a size changes both and nothing else, in either order. */
  lemma PresetAndSizeCommute(c: Config, p: Preset, n: int)
    ensures SetFontSize(ApplyPreset(c, p), n) == ApplyPreset(SetFontSize(c, n), p)
  {
  }

  /** The slider ranges of the settings panel: size 12 to 24, zoom 0.5 to 1.5. */
  predicate WithinSliders(c: Config) {
    12 <= c.fontSize <= 24 && 0.5 <= c.scale <= 1.5
  }

  /** The default, presets, colour pickers and in-range slider moves keep the slider ranges. */
  lemma EditsKeepSliderRanges(c: Config, p: Preset, f: ColorField, v: string, n: int, x: real)
    requires WithinSliders(c)
    ensures WithinSliders(DefaultConfig())
    ensures WithinSliders(ApplyPreset(c, p)) && WithinSliders(SetColor(c, f, v))
    ensures 12 <= n <= 24 ==> WithinSliders(SetFontSize(c, n))
    ensures 0.5 <= x <= 1.5 ==> WithinSliders(SetScale(c, x))
  {
  }

  // ---------------------------------------------------------------------------------------
  // Session store
  // ---------------------------------------------------------------------------------------

  /** The document shown when nothing usable is stored: a five-row sample table and a note. */
  const DEFAULT_MARKDOWN: string :=
    "\n| Rank | Framework | Stars | Satisfaction |\n|:---|:---|:---:|:---:|\n"
    + "| 1 | React | 200k+ | 85% |\n| 2 | Vue.js | 200k+ | 82% |\n"
    + "| 3 | Svelte | 60k+ | 90% |\n| 4 | Angular | 80k+ | 65% |\n"
    + "| 5 | Solid | 25k+ | 88% |\n\n*Data is for demonstration purposes only.*\n"

  const MARKDOWN_KEY: string := "table-tool-markdown"
  const CONFIG_KEY: string := "table-tool-config"

  /** The browser's local storage: keys to strings. */
  type Storage = map<string, string>

  /** `JSON.stringify` and `JSON.parse` restricted to configurations. */
  datatype Codec = Codec(stringify: Config -> string, parse: string -> Config)

  /**
   * What the model needs of the JSON pair for one configuration: parsing its text gives it back,
   * and the text is never empty (`JSON.stringify` of an object is at least `{}`).
   */
  predicate RoundTrips(codec: Codec, c: Config) {
    codec.parse(codec.stringify(c)) == c && codec.stringify(c) != ""
  }

  /** `localStorage.getItem(key)`: the stored string, or nothing (JavaScript's null). */
  function GetItem(st: Storage, key: string): (r: Option<string>)
    ensures r.Some? <==> key in st
    ensures r.Some? ==> r.value == st[key]
  {
    if key in st then Some(st[key]) else None
  }

  /** A stored value that JavaScript treats as true: present and not the empty string. */
  predicate Truthy(o: Option<string>) {
    o.Some? && o.value != ""
  }

  /** The document at start-up: the stored text when it is a non-empty string, else the default. */
  function LoadMarkdown(st: Storage): (md: string)
    ensures md != ""
    ensures MARKDOWN_KEY in st && st[MARKDOWN_KEY] != "" ==> md == st[MARKDOWN_KEY]
    ensures MARKDOWN_KEY !in st || st[MARKDOWN_KEY] == "" ==> md == DEFAULT_MARKDOWN
  {
    var saved := GetItem(st, MARKDOWN_KEY);
    if Truthy(saved) then saved.value else DEFAULT_MARKDOWN
  }

  /**
   * The configuration at start-up: a non-empty stored text is parsed and used as a whole,
   * with no merging with the defaults; otherwise the default configuration.
   */
  function LoadConfig(st: Storage, codec: Codec): (c: Config)
    ensures CONFIG_KEY in st && st[CONFIG_KEY] != "" ==> c == codec.parse(st[CONFIG_KEY])
    ensures CONFIG_KEY !in st || st[CONFIG_KEY] == "" ==> c == DefaultConfig()
  {
    var saved := GetItem(st, CONFIG_KEY);
    if Truthy(saved) then codec.parse(saved.value) else DefaultConfig()
  }

  /** The write-back of the document, run whenever it changes. */
  function SaveMarkdown(st: Storage, md: string): (r: Storage)
    ensures MARKDOWN_KEY in r && r[MARKDOWN_KEY] == md
    ensures forall k :: k != MARKDOWN_KEY ==> (k in r <==> k in st) && (k in st ==> r[k] == st[k])
  {
    st[MARKDOWN_KEY := md]
  }

  /** The write-back of the configuration as JSON, run whenever it changes. */
  function SaveConfig(st: Storage, c: Config, codec: Codec): (r: Storage)
    ensures CONFIG_KEY in r && r[CONFIG_KEY] == codec.stringify(c)
    ensures forall k :: k != CONFIG_KEY ==> (k in r <==> k in st) && (k in st ==> r[k] == st[k])
  {
    st[CONFIG_KEY := codec.stringify(c)]
  }

  /** Both write-backs, as they run once after the page first renders. */
  function SaveSession(st: Storage, md: string, c: Config, codec: Codec): Storage {
    SaveConfig(SaveMarkdown(st, md), c, codec)
  }

  /** Storage holds exactly what the page shows, under the two fixed keys. */
  predicate Holds(st: Storage, md: string, c: Config, codec: Codec) {
    MARKDOWN_KEY in st && st[MARKDOWN_KEY] == md && CONFIG_KEY in st && st[CONFIG_KEY] == codec.stringify(c)
  }

  /**
   * Save-then-load: storage that holds a non-empty document and a configuration gives both back
   * on the next page load.
   */
  lemma ReloadRestores(st: Storage, md: string, c: Config, codec: Codec)
    requires RoundTrips(codec, c) && Holds(st, md, c, codec) && md != ""
    ensures LoadMarkdown(st) == md && LoadConfig(st, codec) == c
  {
  }

  /** Writing back a document and a configuration makes storage hold them. */
  lemma SavedSessionHolds(st: Storage, md: string, c: Config, codec: Codec)
    ensures Holds(SaveSession(st, md, c, codec), md, c, codec)
  {
    assert MARKDOWN_KEY != CONFIG_KEY;
  }

  /**
   * Loading is stable: load, write back as the page does on mount, load again, and the same
   * document and configuration come back, because a loaded document is never empty.
   */
  lemma LoadIsStable(st: Storage, codec: Codec)
    requires RoundTrips(codec, LoadConfig(st, codec))
    ensures var md, c := LoadMarkdown(st), LoadConfig(st, codec);
            var st' := SaveSession(st, md, c, codec);
            LoadMarkdown(st') == md && LoadConfig(st', codec) == c
  {
    var md, c := LoadMarkdown(st), LoadConfig(st, codec);
    SavedSessionHolds(st, md, c, codec);
    ReloadRestores(SaveSession(st, md, c, codec), md, c, codec);
  }

  /** A cleared document is saved as the empty string, and the next load shows the default instead. */
  lemma ClearedDocumentComesBackAsDefault(st: Storage, c: Config, codec: Codec)
    ensures LoadMarkdown(SaveSession(st, "", c, codec)) == DEFAULT_MARKDOWN
  {
    assert MARKDOWN_KEY != CONFIG_KEY;
  }

  /** A confirmed reset: the default document and the default configuration; otherwise nothing changes. */
  function Reset(md: string, c: Config, confirmed: bool): (r: (string, Config))
    ensures confirmed ==> r == (DEFAULT_MARKDOWN, DefaultConfig())
    ensures !confirmed ==> r == (md, c)
  {
    if confirmed then (DEFAULT_MARKDOWN, ResetConfig(c)) else (md, c)
  }

  /** A confirmed reset gives the session a fresh start: it is what a first visit with empty storage shows. */
  lemma ResetMatchesFirstVisit(md: string, c: Config, codec: Codec)
    ensures Reset(md, c, true) == (LoadMarkdown(map[]), LoadConfig(map[], codec))
  {
  }

  // ---------------------------------------------------------------------------------------
  // Export guard
  // ---------------------------------------------------------------------------------------

  /** The export flag: no export running, or one waiting for its snapshot. */
  datatype ExportState = Idle | Exporting

  /** How an export request ended its synchronous part. */
  datatype RequestOutcome =
    | Ignored   // no preview, or an export already running: nothing happens
    | NoTarget  // the preview has no table container: the flag is raised and dropped again
    | Started   // the flag stays raised until the snapshot settles

  /** The synchronous part of an export request, up to the settle delay. */
  function Request(s: ExportState, hasPreview: bool, hasTarget: bool): (r: (ExportState, RequestOutcome))
    ensures r.1 == Ignored <==> (!hasPreview || s == Exporting)
    ensures r.1 == Ignored ==> r.0 == s
    ensures r.1 == NoTarget <==> hasPreview && s == Idle && !hasTarget
    ensures r.1 != Ignored ==> (r.0 == Exporting <==> r.1 == Started)
  {
    if hasPreview && s == Idle then
      if hasTarget then (Exporting, Started) else (Idle, NoTarget)
    else
      assert !hasPreview || s == Exporting;
      (s, Ignored)
  }

  /** The name of the downloaded file for a timestamp in milliseconds. */
  function FileName(timestamp: nat): string {
    "markdown-table-" + Text.Decimal(timestamp) + ".png"
  }

  /** Download names embed the timestamp: they have the fixed prefix and suffix, and differ when it does. */
  lemma FileNamesDiffer(t1: nat, t2: nat)
    ensures Text.StartsWith(FileName(t1), "markdown-table-")
    ensures |FileName(t1)| > |"markdown-table-.png"|
    ensures FileName(t1)[|FileName(t1)| - 4..] == ".png"
    ensures FileName(t1) == FileName(t2) ==> t1 == t2
  {
    var d1, d2 := Text.Decimal(t1), Text.Decimal(t2);
    if FileName(t1) == FileName(t2) {
      assert |d1| == |d2|;
      assert d1 == FileName(t1)[15..15 + |d1|];
      assert d2 == FileName(t2)[15..15 + |d2|];
      Text.DecimalInjective(t1, t2);
    }
  }

  /**
   * The rest of a started export, once the snapshot settles: a capture that succeeded downloads
   * one file named after the timestamp, one that failed downloads nothing; the flag drops either way.
   */
  function Settle(captured: bool, timestamp: nat): (r: (ExportState, Option<string>))
    ensures r.0 == Idle
    ensures r.1.Some? <==> captured
    ensures captured ==> r.1 == Some(FileName(timestamp))
  {
    if captured then (Idle, Some(FileName(timestamp))) else (Idle, None)
  }

  /** What the user and the browser do: click Export, or let a pending snapshot finish. */
  datatype Event =
    | ExportClicked(hasPreview: bool, hasTarget: bool)
    | SnapshotSettled(captured: bool, timestamp: nat)

  /** One event. A snapshot can only settle for an export that is running; otherwise nothing is pending. */
  function Step(s: ExportState, e: Event): (ExportState, seq<string>) {
    match e
    case ExportClicked(p, t) => (Request(s, p, t).0, [])
    case SnapshotSettled(ok, ts) =>
      if s == Exporting then
        var r := Settle(ok, ts);
        (r.0, if r.1.Some? then [r.1.value] else [])
      else (s, [])
  }

  /** A sequence of events from state `s`: the final state and the files downloaded, in order. */
  function Run(s: ExportState, events: seq<Event>): (ExportState, seq<string>)
    decreases |events|
  {
    if events == [] then (s, [])
    else
      var first := Step(s, events[0]);
      var rest := Run(first.0, events[1..]);
      (rest.0, first.1 + rest.1)
  }

  /** The number of clicks among the events. */
  function Clicks(events: seq<Event>): nat {
    if events == [] then 0 else (if events[0].ExportClicked? then 1 else 0) + Clicks(events[1..])
  }

  /** The number of snapshot completions among the events. */
  function Settles(events: seq<Event>): nat {
    if events == [] then 0 else (if events[0].SnapshotSettled? then 1 else 0) + Settles(events[1..])
  }

  /**
   * Single flight: every download is paid for by its own click (or by the export already running
   * at the start), and by its own completed snapshot; a running export counts against the clicks too.
   */
  lemma {:induction false} DownloadsNeedClicks(s: ExportState, events: seq<Event>)
    ensures var r := Run(s, events);
            |r.1| + (if r.0 == Exporting then 1 else 0) <= Clicks(events) + (if s == Exporting then 1 else 0)
    ensures |Run(s, events).1| <= Settles(events)
    decreases |events|
  {
    if events != [] {
      DownloadsNeedClicks(Step(s, events[0]).0, events[1..]);
    }
  }

  /** Running one event and then the rest. */
  lemma RunCons(s: ExportState, e: Event, rest: seq<Event>)
    ensures Run(s, [e] + rest) == (Run(Step(s, e).0, rest).0, Step(s, e).1 + Run(Step(s, e).0, rest).1)
  {
    assert ([e] + rest)[0] == e && ([e] + rest)[1..] == rest;
  }

  /** Clicking Export again before the first snapshot settles has no effect: one download in all. */
  lemma DoubleClickDownloadsOnce(ts: nat)
    ensures Run(Idle, [ExportClicked(true, true), ExportClicked(true, true), SnapshotSettled(true, ts)])
            == (Idle, [FileName(ts)])
  {
    var click, done := ExportClicked(true, true), SnapshotSettled(true, ts);
    assert Step(Exporting, done) == (Idle, [FileName(ts)]);
    RunCons(Exporting, done, []);
    assert [done] + [] == [done] && Run(Idle, []) == (Idle, []);
    assert [FileName(ts)] + [] == [FileName(ts)];
    assert Run(Exporting, [done]) == (Idle, [FileName(ts)]);
    RunCons(Exporting, click, [done]);
    assert [click] + [done] == [click, done];
    assert [] + [FileName(ts)] == [FileName(ts)];
    assert Step(Exporting, click) == (Exporting, []);
    assert Run(Exporting, [click, done]) == (Idle, [FileName(ts)]);
    RunCons(Idle, click, [click, done]);
    assert Step(Idle, click) == (Exporting, []);
    assert [click, click, done] == [click] + [click, done];
    assert [click, done] == [click] + [done];
  }

  /** Whatever happens to a started export, once its snapshot settles the flag is down again. */
  lemma EveryPathEndsIdle(hasPreview: bool, hasTarget: bool, captured: bool, ts: nat)
    ensures var r := Run(Idle, [ExportClicked(hasPreview, hasTarget), SnapshotSettled(captured, ts)]);
            r.0 == Idle && (|r.1| == 1 <==> hasPreview && hasTarget && captured)
  {
    var click, done := ExportClicked(hasPreview, hasTarget), SnapshotSettled(captured, ts);
    RunCons(Step(Idle, click).0, done, []);
    RunCons(Idle, click, [done]);
    assert [click, done] == [click] + [done];
  }

  // ---------------------------------------------------------------------------------------
  // The page
  // ---------------------------------------------------------------------------------------

  /** The page's state: the document, the theme, the export flag, the storage, and the downloads made. */
  class TableToolPage {
    const codec: Codec
    var markdown: string
    var config: Config
    var exportState: ExportState
    var storage: Storage
    var downloads: seq<string>

    /** Storage holds what the page shows. */
    ghost predicate Valid()
      reads this
    {
      Holds(storage, markdown, config, codec)
    }

    /** Mounting the page: lazy loading from storage, then both write-backs. */
    constructor (stored: Storage, codec: Codec)
      ensures this.codec == codec
      ensures markdown == LoadMarkdown(stored) && config == LoadConfig(stored, codec)
      ensures storage == SaveSession(stored, markdown, config, codec)
      ensures exportState == Idle && downloads == []
      ensures Valid()
    {
      this.codec := codec;
      var md := LoadMarkdown(stored);
      var c := LoadConfig(stored, codec);
      markdown := md;
      config := c;
      storage := SaveSession(stored, md, c, codec);
      exportState := Idle;
      downloads := [];
      new;
      SavedSessionHolds(stored, md, c, codec);
    }

    /** The page as it would open now, in a fresh visit. */
    predicate ReloadShowsSame()
      reads this
    {
      LoadMarkdown(storage) == markdown && LoadConfig(storage, codec) == config
    }

    /** While the document is not empty, a reload shows the page as it is. */
    lemma ReloadShowsCurrentState()
      requires Valid() && RoundTrips(codec, config) && markdown != ""
      ensures ReloadShowsSame()
    {
      ReloadRestores(storage, markdown, config, codec);
    }

    /** Typing in the editor: the document changes and is written back. */
    method EditMarkdown(text: string)
      requires Valid()
      modifies this
      ensures Valid()
      ensures markdown == text && config == old(config) && exportState == old(exportState)
      ensures storage == SaveMarkdown(old(storage), text) && downloads == old(downloads)
    {
      markdown := text;
      storage := SaveMarkdown(storage, markdown);
    }

    /** Replace the configuration and write it back. */
    method UpdateConfig(c: Config)
      requires Valid()
      modifies this
      ensures Valid()
      ensures config == c && markdown == old(markdown) && exportState == old(exportState)
      ensures storage == SaveConfig(old(storage), c, codec) && downloads == old(downloads)
    {
      config := c;
      storage := SaveConfig(storage, config, codec);
    }

    /** The font-size slider. */
    method ChangeFontSize(n: int)
      requires Valid()
      modifies this
      ensures Valid()
      ensures config == SetFontSize(old(config), n) && markdown == old(markdown)
      ensures exportState == old(exportState) && downloads == old(downloads)
      ensures storage == SaveConfig(old(storage), config, codec)
    {
      UpdateConfig(SetFontSize(config, n));
    }

    /** The zoom slider. */
    method ChangeScale(x: real)
      requires Valid()
      modifies this
      ensures Valid()
      ensures config == SetScale(old(config), x) && markdown == old(markdown)
      ensures exportState == old(exportState) && downloads == old(downloads)
      ensures storage == SaveConfig(old(storage), config, codec)
    {
      UpdateConfig(SetScale(config, x));
    }

    /** A colour picker. */
    method ChangeColor(f: ColorField, v: string)
      requires Valid()
      modifies this
      ensures Valid()
      ensures config == SetColor(old(config), f, v) && markdown == old(markdown)
      ensures exportState == old(exportState) && downloads == old(downloads)
      ensures storage == SaveConfig(old(storage), config, codec)
    {
      UpdateConfig(SetColor(config, f, v));
    }

    /** A preset button. */
    method ChoosePreset(p: Preset)
      requires Valid()
      modifies this
      ensures Valid()
      ensures config == ApplyPreset(old(config), p) && markdown == old(markdown)
      ensures exportState == old(exportState) && downloads == old(downloads)
      ensures storage == SaveConfig(old(storage), config, codec)
    {
      UpdateConfig(ApplyPreset(config, p));
    }

    /** The reset button; `confirmed` is the user's answer to the confirmation dialog. */
    method ResetAll(confirmed: bool)
      requires Valid()
      modifies this
      ensures Valid()
      ensures (markdown, config) == Reset(old(markdown), old(config), confirmed)
      ensures confirmed ==> storage == SaveSession(old(storage), DEFAULT_MARKDOWN, DefaultConfig(), codec)
      ensures !confirmed ==> storage == old(storage)
      ensures exportState == old(exportState) && downloads == old(downloads)
    {
      if confirmed {
        EditMarkdown(DEFAULT_MARKDOWN);
        var c := ApplyPreset(config, PRESETS[0]);
        c := c.(fontSize := 16, scale := 1.0);
        UpdateConfig(c);
      }
    }

    /**
     * The Export button, up to the settle delay: nothing while an export runs or without a preview;
     * otherwise the flag goes up, and straight down again when the table container is missing.
     */
    method ClickExport(hasPreview: bool, hasTarget: bool) returns (outcome: RequestOutcome)
      modifies this
      ensures (exportState, outcome) == Request(old(exportState), hasPreview, hasTarget)
      ensures markdown == old(markdown) && config == old(config)
      ensures storage == old(storage) && downloads == old(downloads)
    {
      outcome := Ignored;
      if hasPreview && exportState == Idle {
        exportState := Exporting;
        if !hasTarget {
          exportState := Idle;
          outcome := NoTarget;
          return;
        }
        outcome := Started;
      }
    }

    /**
     * The rest of a running export: on a successful capture one download named after the
     * timestamp, on a failure none (the user is alerted); the flag drops in both cases.
     */
    method FinishExport(captured: bool, timestamp: nat)
      requires exportState == Exporting
      modifies this
      ensures exportState == Idle
      ensures downloads == old(downloads) + (if captured then [FileName(timestamp)] else [])
      ensures markdown == old(markdown) && config == old(config) && storage == old(storage)
    {
      if captured {
        downloads := downloads + [FileName(timestamp)];
      }
      exportState := Idle;
    }
  }

  /** Two quick clicks on Export, then the snapshot: one file, and the page is idle again. */
  method DoubleClickScenario(stored: Storage, codec: Codec, ts: nat)
  {
    var page := new TableToolPage(stored, codec);
    var first := page.ClickExport(true, true);
    var second := page.ClickExport(true, true);
    assert first == Started && second == Ignored;
    page.FinishExport(true, ts);
    assert page.downloads == [FileName(ts)] && page.exportState == Idle;
  }

  /** Elegant Dark after a font size of 20: its header colour shows and the size stays 20. */
  method PresetScenario(stored: Storage, codec: Codec)
  {
    var page := new TableToolPage(stored, codec);
    page.ChangeFontSize(20);
    page.ChoosePreset(PRESETS[1]);
    assert page.config.headerBg == "#1e293b" && page.config.fontSize == 20;
  }
}

# Markdown table designer, publication list and ROI alignment — a Dafny model

This project models three pieces of a personal research website and its tooling, and proves
properties of the model.

- **The markdown table designer page** (`src/pages/MarkdownTableTool.tsx`, module `TableTool`,
  file `table_tool.dfy`). It covers:
  - the theme configuration: five colours, a font size and a zoom factor;
  - the four fixed colour presets;
  - the field setters, the preset button and the confirmed reset;
  - the document and configuration kept in local storage under two fixed keys, loaded lazily
    when the page mounts and written back after every change;
  - the single-flight guard of the PNG export, with the file name it downloads under.

  The page is the class `TableToolPage`. Its fields are the document, the configuration, the
  export flag, the storage map and the downloads made. Its methods are the user's actions. The
  pure record rebuilds (`{...prev, ...}`) are functions. The export runs in two halves. A click
  is handled up to the settle delay. The snapshot settling finishes the export. A trace function
  `Run` over click and settle events states the single-flight property for any interleaving.
- **The publication list** (`markdown_into_table/src/pages/Publications.tsx`, module
  `Publications`, file `publications.dfy`). It covers:
  - initials from given names and sentence case for titles;
  - recognising the site owner for the underline;
  - splitting free-form author strings into family and given names;
  - the APA author list: truncation after 20 authors, separators and underlines;
  - ordering by year, newest first, stably.

  The `\bm\.?\s*cai\b` regular expression is modelled concretely. A greedy matcher is proved
  equal to the pattern's definition.
- **The ROI alignment script** (`align_rois.py`, module `AlignRois`, file `align_rois.dfy`). It
  covers:
  - parsing list A into (name, volume) entries;
  - parsing list B into a name-to-id dictionary where later lines win;
  - the hand-made name fixes;
  - the exact / fixed / right-hemisphere / no-match classification of every list-A entry.

  The three loops of the script are methods with loop invariants. Each is proved equal to a
  specification function. The properties are proved about those functions.

`text.dfy` (module `Text`) holds the string operations the sources get from JavaScript's
`String.prototype` and Python's `str`:
- splitting at a character, and into white-space fields;
- joining and trimming;
- prefix and substring search;
- replace-all;
- ASCII case mapping;
- decimal rendering.

`wrappers.dfy` holds `Option`.

Behaviour of the page worth stating up front:
- The setters do not clamp the font size or the zoom, and do not validate colours. The bounds
  exist only as the sliders' `min`/`max` attributes (`src/pages/MarkdownTableTool.tsx:191-216`).
  They are stated as the predicate `WithinSliders`, which the edits preserve.
- A stored configuration is used as parsed, with no merge with the defaults.
- A corrupt stored configuration makes `JSON.parse` throw, so no fallback is modelled. Parsing is
  an abstract total function.

## Model

| member | source | states |
|---|---|---|
| TableTool.DefaultConfig | src/pages/MarkdownTableTool.tsx:74-82 | the configuration used when none is stored has size 16, zoom 1 and every colour of the first preset |
| TableTool.ApplyPreset | src/pages/MarkdownTableTool.tsx:132-141 | a preset sets all five colours to the preset's and keeps size and zoom |
| TableTool.SetColor | src/pages/MarkdownTableTool.tsx:241 | a colour picker changes exactly its own colour; the other four, size and zoom are unchanged |
| TableTool.SetFontSize | src/pages/MarkdownTableTool.tsx:196 | the size slider sets the size to the value given, unclamped, and changes nothing else |
| TableTool.SetScale | src/pages/MarkdownTableTool.tsx:216 | the zoom slider sets the zoom to the value given, unclamped, and changes nothing else |
| TableTool.ResetConfig | src/pages/MarkdownTableTool.tsx:146-147 | the first preset followed by size 16 and zoom 1 yields the default configuration, whatever came before |
| TableTool.LastPresetWins | src/pages/MarkdownTableTool.tsx:132-141 | after a preset, no earlier preset or colour choice is visible |
| TableTool.PresetAndSizeCommute | src/pages/MarkdownTableTool.tsx:132-141 | a preset and a size change commute |
| TableTool.EditsKeepSliderRanges | src/pages/MarkdownTableTool.tsx:191-216 | the default, presets, colour pickers and in-range slider moves keep size in 12..24 and zoom in 0.5..1.5 |
| TableTool.GetItem | src/pages/MarkdownTableTool.tsx:66-70 | reading a key gives its stored string exactly when the key is present |
| TableTool.LoadMarkdown | src/pages/MarkdownTableTool.tsx:65-67 | the loaded document is the stored one when it is non-empty; otherwise it is the default; it is never empty |
| TableTool.LoadConfig | src/pages/MarkdownTableTool.tsx:69-83 | a non-empty stored configuration is parsed and used whole; otherwise the default is used |
| TableTool.SaveMarkdown | src/pages/MarkdownTableTool.tsx:90-92 | the document is written under its key and every other key is untouched |
| TableTool.SaveConfig | src/pages/MarkdownTableTool.tsx:94-96 | the stringified configuration is written under its key and every other key is untouched |
| TableTool.ReloadRestores | src/pages/MarkdownTableTool.tsx:65-96 | storage holding a non-empty document and a configuration whose JSON text parses back to it loads both back unchanged |
| TableTool.SavedSessionHolds | src/pages/MarkdownTableTool.tsx:90-96 | after both write-backs, storage holds the document and the configuration |
| TableTool.LoadIsStable | src/pages/MarkdownTableTool.tsx:65-96 | load, write back on mount, load again: the same document and configuration, whenever the loaded configuration's JSON text parses back to it |
| TableTool.ClearedDocumentComesBackAsDefault | src/pages/MarkdownTableTool.tsx:65-92 | an emptied document is saved as "" and the next load shows the default |
| TableTool.Reset | src/pages/MarkdownTableTool.tsx:143-149 | a confirmed reset gives the default document and configuration; a declined one changes nothing |
| TableTool.ResetMatchesFirstVisit | src/pages/MarkdownTableTool.tsx:143-149 | a confirmed reset shows what a first visit with empty storage shows |
| TableTool.Request | src/pages/MarkdownTableTool.tsx:98-106 | a click is ignored exactly when there is no preview or an export runs; a missing container drops the flag again; otherwise the flag stays up |
| TableTool.FileNamesDiffer | src/pages/MarkdownTableTool.tsx:120 | the download name `FileName` builds has the fixed prefix and `.png` suffix, and different timestamps give different names |
| TableTool.Settle | src/pages/MarkdownTableTool.tsx:108-128 | a settled export always drops the flag and downloads exactly one file named after the timestamp exactly when the capture succeeded |
| TableTool.DownloadsNeedClicks | src/pages/MarkdownTableTool.tsx:98-130 | over any sequence of clicks and settles, each handled by `Step` and chained by `Run`, downloads plus a still-running export never exceed the clicks, and downloads never exceed the settles |
| TableTool.DoubleClickDownloadsOnce | src/pages/MarkdownTableTool.tsx:98-100 | a second click before the snapshot settles is ignored: one download in all |
| TableTool.EveryPathEndsIdle | src/pages/MarkdownTableTool.tsx:98-130 | a click and a settle always end idle, with one download exactly when there was a preview, a target and a capture |
| TableTool.TableToolPage.constructor | src/pages/MarkdownTableTool.tsx:65-96 | mounting loads the document and configuration lazily, writes both back, and starts idle |
| TableTool.TableToolPage.ReloadShowsCurrentState | src/pages/MarkdownTableTool.tsx:65-96 | while the document is non-empty and the configuration's JSON text parses back to it, a reload shows the page as it is |
| TableTool.TableToolPage.EditMarkdown | src/pages/MarkdownTableTool.tsx:308 | typing replaces the document and writes it back; storage keeps holding the page's state |
| TableTool.TableToolPage.UpdateConfig | src/pages/MarkdownTableTool.tsx:94-96 | a new configuration is kept and written back |
| TableTool.TableToolPage.ChangeFontSize | src/pages/MarkdownTableTool.tsx:196 | the slider's size becomes the page's and is written back under the configuration key, every other stored key and the document untouched |
| TableTool.TableToolPage.ChangeScale | src/pages/MarkdownTableTool.tsx:216 | the slider's zoom becomes the page's and is written back under the configuration key, every other stored key and the document untouched |
| TableTool.TableToolPage.ChangeColor | src/pages/MarkdownTableTool.tsx:241 | the picked colour becomes the page's and is written back under the configuration key, every other stored key and the document untouched |
| TableTool.TableToolPage.ChoosePreset | src/pages/MarkdownTableTool.tsx:170 | the preset's colours become the page's and are written back under the configuration key, every other stored key untouched |
| TableTool.TableToolPage.ResetAll | src/pages/MarkdownTableTool.tsx:143-149 | a confirmed reset shows the defaults and writes both back, every other stored key untouched; a declined one leaves storage as it was |
| TableTool.TableToolPage.ClickExport | src/pages/MarkdownTableTool.tsx:98-106 | the flag and the outcome follow `Request`; nothing else on the page changes |
| TableTool.TableToolPage.FinishExport | src/pages/MarkdownTableTool.tsx:108-128 | a running export ends idle, having downloaded the timestamped file exactly when the capture succeeded |
| Publications.InitialsLayout | markdown_into_table/src/pages/Publications.tsx:6-9 | initials joined by spaces put part k's upper-cased first letter at 3k, a dot at 3k+1, a space between |
| Publications.ToInitials | markdown_into_table/src/pages/Publications.tsx:6-9 | one `X.` per non-empty part split on white space and hyphens, single spaces between; empty exactly when the name is all separators |
| Publications.SentenceCase | markdown_into_table/src/pages/Publications.tsx:11-15 | same length, first character upper-cased after lower-casing, rest lower-cased; empty stays empty |
| Publications.SentenceCaseIdempotent | markdown_into_table/src/pages/Publications.tsx:11-15 | sentence-casing twice equals sentence-casing once |
| Publications.MatchesAt | markdown_into_table/src/pages/Publications.tsx:23 | a greedy scan at one index succeeds exactly when `\bm\.?\s*cai\b` matches there |
| Publications.MatchesFrom | markdown_into_table/src/pages/Publications.tsx:23 | the scan succeeds exactly when some index from the start on matches |
| Publications.MatchesFromStart | markdown_into_table/src/pages/Publications.tsx:23 | the scan from 0 succeeds exactly when the pattern occurs anywhere |
| Publications.IsMengfeiCai | markdown_into_table/src/pages/Publications.tsx:17-25 | owner exactly when trimmed lower-case family is `cai` and given starts with `m` or contains `mengfei`, or the raw string contains `mengfei cai` or the pattern |
| Publications.RecognisesCaiMengfei | markdown_into_table/src/pages/Publications.tsx:21 | family `Cai` with given `Mengfei` is recognised whatever the raw string |
| Publications.RecognisesInitialDotCai | markdown_into_table/src/pages/Publications.tsx:23 | a raw `M. Cai` is recognised through the pattern |
| Publications.OthersNotRecognised | markdown_into_table/src/pages/Publications.tsx:17-25 | with no raw string, a family other than `cai` is never recognised |
| Publications.SplitName | markdown_into_table/src/pages/Publications.tsx:31-45 | the raw author string is kept exactly when the trimmed string has a comma, and then it is the string as given |
| Publications.WordsName | markdown_into_table/src/pages/Publications.tsx:36-44 | a comma-free string never gives a family name with a space, never keeps the raw string, and a single word is all family |
| Publications.SplitNameWithComma | markdown_into_table/src/pages/Publications.tsx:32-35 | with a comma, family is the trimmed text before the first comma, given the trimmed text up to the next one, raw kept |
| Publications.SplitNameWithSpace | markdown_into_table/src/pages/Publications.tsx:36-43 | without a comma but with a space, the string is given-part, a space and a one-word family; dots become spaces when the given part is letters and dots |
| Publications.WordsNameShape | markdown_into_table/src/pages/Publications.tsx:36-43 | splitting at spaces, the last word is the family and the text before the last space the given part |
| Publications.SplitNameSingleWord | markdown_into_table/src/pages/Publications.tsx:44 | a single word is the family with an empty given name |
| Publications.AuthorList | markdown_into_table/src/pages/Publications.tsx:28-45 | the structured list is used when present, even when empty; otherwise each string is split, one name per string, in order |
| Publications.EntryTexts | markdown_into_table/src/pages/Publications.tsx:47-55 | at most 20 authors are all cited in order, each as `Cite` renders it (family, comma, initials, trimmed); more give the first 19, the ellipsis and the last |
| Publications.FormatEntriesShape | markdown_into_table/src/pages/Publications.tsx:47-62 | entry count, the author each entry shows and its underline, the ellipsis never underlined, and the separators |
| Publications.FormatAuthors | markdown_into_table/src/pages/Publications.tsx:47-62 | the same for a publication's author list: each shown author's citation and owner underline, `" & "` before the last entry, `", "` before the others, nothing after the last (the separator rule `Separator` computes) |
| Publications.LongListShape | markdown_into_table/src/pages/Publications.tsx:51-55 | a long list has exactly 21 entries: the first 19 in order, the ellipsis, the last author |
| Publications.EmptyFullListWins | markdown_into_table/src/pages/Publications.tsx:28-29 | an empty structured list gives no entries, whatever the author strings |
| Publications.FormatAuthorsAsWritten | markdown_into_table/src/pages/Publications.tsx:59-62 | the page's own underline rule, with the same texts and separators |
| Publications.LastEntryUnderlinedForHiddenAuthor | markdown_into_table/src/pages/Publications.tsx:60-61 | with 22 authors and the owner 21st, the page underlines the last entry, which shows someone else; the corrected rule does not |
| Publications.InsertByYear | markdown_into_table/src/pages/Publications.tsx:87-88 | inserting into a newest-first list keeps it newest first and adds exactly the one publication |
| Publications.SortByYear | markdown_into_table/src/pages/Publications.tsx:87-88 | the sorted list is newest first, a missing year counting as 0, and a permutation of the input |
| Publications.InsertKeepsYearOrder | markdown_into_table/src/pages/Publications.tsx:87-88 | insertion puts the new publication first among those of its year |
| Publications.SortKeepsYearOrder | markdown_into_table/src/pages/Publications.tsx:87-88 | the sort is stable: publications of one year keep their input order |
| AlignRois.Tokens | align_rois.py:88 | `line.split()` gives non-empty tokens free of white space (list B's line 97 too); which runs they are is pinned by `Text.Fields` and `Text.FieldsAcross` |
| Text.Fields | align_rois.py:88 | the fields are non-empty and separator-free, there are none exactly when the text is all separators, and a separator-free non-empty text is one field |
| Text.FieldsAcross | markdown_into_table/src/pages/Publications.tsx:7 | a separator ends a field: the fields of `a`, a separator, `b` are those of `a` then those of `b`, so fields are maximal runs |
| Text.FieldsConcat | markdown_into_table/src/pages/Publications.tsx:7 | the fields concatenate to the text with its separators removed |
| AlignRois.VolumeOfLine | align_rois.py:88-92 | a line yields one entry exactly when it has at least two white-space tokens |
| AlignRois.VolumesOf | align_rois.py:86-92 | at most one entry per line, names and volumes non-empty |
| AlignRois.VolumesOfAppend | align_rois.py:86-92 | the entries of two blocks of lines are those of the first then those of the second: line order |
| AlignRois.VolumesOfOneLine | align_rois.py:88-92 | a single line contributes exactly its own entry or nothing |
| AlignRois.ParseListA | align_rois.py:86-92 | the loop builds exactly the entries of the stripped text's lines (`Lines`: strip, then split at newlines) |
| AlignRois.IdsOf | align_rois.py:95-101 | every stored name and id is a non-empty token |
| AlignRois.IdsOfAppend | align_rois.py:95-101 | the dictionary of two blocks is the first's overridden by the second's |
| AlignRois.LaterLineWins | align_rois.py:95-101 | a name keeps the id of its last line |
| AlignRois.ParseListB | align_rois.py:95-101 | the loop builds exactly the dictionary of the stripped text's lines |
| AlignRois.ParsedIdsNonEmpty | align_rois.py:97-101 | no parsed id is empty, so an empty id in a row means no id |
| AlignRois.FuzzyKeysAreLeft | align_rois.py:105-110 | no name fix is for a `Right-` name |
| AlignRois.Align | align_rois.py:116-148 | one row per list-A entry, in order, each the row `Aligned` gives: `VerdictOf` picks the first tier that applies (exact, fix, right side, none) and `RowOf` writes its id and note |
| AlignRois.ExactMatchFirst | align_rois.py:124-126 | a listed name gets its own id and "Exact Match", whatever its fix says |
| AlignRois.IdOnlyFromListOrFix | align_rois.py:123-146 | a row has an id exactly when its name is listed or fixed to a listed name, and it is that name's id |
| AlignRois.FixedNameMatched | align_rois.py:129-132 | an unlisted name with a listed fix gets the fixed name's id and a note naming it |
| AlignRois.RightNamesGetNoId | align_rois.py:135-143 | an unlisted `Right-` name never gets an id, only a `Right Side` note |
| AlignRois.LeftEquivalentIsLeft | align_rois.py:137 | the `Left-` equivalent of a `Right-` name starts with `Left-` |
| AlignRois.RightHintIsLeftRowId | align_rois.py:135-143 | the note of an unlisted `Right-` name carries the id its `Left-` equivalent's row gets, or says there is none |
| AlignRois.OthersNoMatch | align_rois.py:145-146 | any other name gets "No Match" and an empty id |

## Left out

- Markdown and GitHub-flavoured table parsing, cell alignment and zebra striping: the page hands
  the document to `react-markdown` with `remark-gfm` and stripes rows with CSS, neither of which
  is part of this model.
- JSON: `JSON.stringify` and `JSON.parse` are an abstract pair of total functions. The reload
  lemmas require the round trip (`RoundTrips`) only of the one configuration being reloaded. A
  corrupt stored configuration, which makes the page throw, is not modelled.
- `Config.scale`: the page's zoom is a JavaScript number (an IEEE double); the model's is a Dafny
  `real`. Rounding, `NaN` and the infinities are not modelled, and whether `JSON.stringify` of a
  given zoom parses back to it is the `RoundTrips` hypothesis rather than a proved fact.
- The browser and library calls of the export (`html2canvas`, `toDataURL`, the download link's
  click, the 100 ms settle delay, `alert`, `console.error`), `confirm`, `useTheme` and
  `localStorage` itself. They become inputs (`hasPreview`, `hasTarget`, `captured`,
  `timestamp`, `confirmed`) or a map field.
- React's asynchronous, batched state updates, and the setters' use of the render-time `config`
  (`{...config, ...}`): each action is modelled as one sequential state change.
- The settings-panel toggle, the dark-mode switch and all rendering (JSX, the underline span, the
  publication cards, their links and keyword chips).
- Full Unicode case mapping: `toUpperCase`/`toLowerCase` are modelled on ASCII letters only. A
  character outside ASCII is left as it is, and a mapping that changes string length is not
  modelled.
- `Publications.ToInitials`: takes the first UTF-16 code unit as a character; surrogate pairs are
  not modelled.
- The embedded data of `align_rois.py` (its two text lists) and of the publication list (the
  JSON file): the operations are modelled over any input text or records.
- `print` formatting and column padding in `align_rois.py`: the rows are modelled as data.
- The site's other pages and components (tutorials, projects, home, hero and about sections, the
  app's routing), which are static presentation; and `markdown_into_table/src/types/index.ts`
  beyond the shape of `Publication`.

## Findings

| source | as written | input that shows it | evidently intended | confidence | as-written member | corrected member |
|---|---|---|---|---|---|---|
| markdown_into_table/src/pages/Publications.tsx:60-61 | entry `i` tests author `min(i, n - 1)` and raw string `i` for the owner underline, whichever author the entry shows | 22 structured authors with the owner 21st and someone else last: the last entry shows the last author but tests author 21 (index 20), so it is underlined | an entry is underlined when the author it shows is the owner; the ellipsis entry never is | not executed | Publications.FormatAuthorsAsWritten | Publications.FormatAuthors |

# Learning Machines banners and theme, modelled in Dafny

This project models the presentation utilities of the *Learning Machines*
notebook series:

- **Banner renderer** (`create_banner.py`), in `banner.dfy`. `CreateBanner`
  builds a fixed-layout figure: the title, the italic book subtitle, a rule,
  a "► "-prefixed topic line and a right-aligned metadata line. That line joins
  the author and the project URL with " · ". Every occurrence of
  `https://` is removed from the URL, and then every occurrence of `http://`. `MarkdownHeader` wraps an encoded image
  payload in the `<div>`/`<img>` markdown template. `GenerateMarkdownHeader`
  chains the two steps. The `__main__` block's sample file names are modelled
  by `SampleFileName` and `SamplePaths`.
- **Notebook patcher** (`insert_banners.py`), in `patcher.dfy`. A notebook is
  a sequence of cells plus its other top-level keys. Patching checks whether
  the first cell's joined source holds the marker `data:image/png;base64`.
  If it does, that cell is replaced by a fresh markdown banner cell. If not,
  the banner cell is inserted in front. `Notebook` is the in-memory document
  that `insert_banner` mutates. The notebooks directory is a map from file
  name to notebook. `Run` walks the fixed twelve-entry registry in order and
  patches every notebook that exists. Each file gets one status:
  inserted, replaced or not found.
- **Plot theme** (`mlone_theme.py`), in `theme.dfy`. It covers:
  - the colour constants and the book and notebook colour families;
  - the module-level active lists, which `set_notebook_mode` and
    `set_book_mode` overwrite (the class `ActivePalette`);
  - `add_line_labels`: where a direct label sits, and which colour it takes.

`strings.dfy` defines the Python string operations the code relies on:
substring `in`, `str.replace`, `''.join` and ASCII `lower()`. `wrappers.dfy`
holds `Option` and `Result`.

Points worth knowing about the code:

- A replaced banner cell is always a fresh markdown cell with empty
  metadata, whatever the old cell's type was (insert_banners.py:35-44).
- The batch prints one status line per file (insert_banners.py:45, 49 and
  65). The model returns these lines as a list of reports.
- A cell's `source` may be a list of lines or a single string. `''.join`
  accepts both: joining a string's characters gives the string back.

## Model

| member | source | states |
|---|---|---|
| Strings.ContainsIff | insert_banners.py:42 | the recursive substring test holds exactly when the needle occurs at some index of the text, which is Python's `in` |
| Strings.Concat | insert_banners.py:42 | joining no lines gives the empty string, one line gives that line, and the join always starts with the first line |
| Strings.ConcatAppend | insert_banners.py:42 | the join of two runs of lines is the join of the first followed by the join of the second, so lines are concatenated in order with nothing between them |
| Strings.Chars | insert_banners.py:42 | iterating a string gives one one-character string per character, in order |
| Strings.ConcatChars | insert_banners.py:42 | joining the characters of a string gives the string back |
| Strings.SplitNeedleJoined | insert_banners.py:42 | a needle split across two adjacent lines, anywhere in the list, occurs in the join |
| Strings.ReplaceAll | create_banner.py:77 | replacing a pattern with a text no longer than it never lengthens the string; with an equal-length text the length is kept |
| Strings.ReplaceAllAbsent | create_banner.py:77 | a string that does not contain the pattern comes back unchanged |
| Strings.ReplaceAllIsJoinSplit | create_banner.py:77 | replacing every occurrence equals splitting on the pattern and joining with the replacement, as `str.replace` is defined |
| Strings.ReplaceCharAt | create_banner.py:134 | replacing one character by another keeps the length and changes exactly the positions holding that character |
| Strings.LowerAscii | create_banner.py:134 | lower-casing keeps the length and maps each character through the ASCII lower-case table |
| Banner.TopicLine | create_banner.py:67-69 | the topic line is exactly "► " followed by the subtitle |
| Banner.DisplayUrl | create_banner.py:77 | stripping the schemes never lengthens the URL |
| Banner.DisplayUrlPlain | create_banner.py:77 | a URL that holds neither `https://` nor `http://` is shown unchanged |
| Banner.DisplayUrlStripsHttps | create_banner.py:77 | `https://` followed by a scheme-free rest is shown as the rest alone |
| Banner.DisplayUrlStripsHttp | create_banner.py:77 | `http://` followed by a colon-free rest is shown as the rest alone |
| Banner.MetaText | create_banner.py:74-78 | the metadata line starts with the author; it is the author alone exactly when the URL is empty, and otherwise continues with " · " and the displayed URL |
| Banner.MetaTextStripsHttps | create_banner.py:74-78 | author "A" with URL `https://` + rest (no colon in rest) gives "A · " + rest |
| Banner.MetaTextStripsHttp | create_banner.py:74-78 | author "A" with URL `http://` + rest (no colon in rest) gives "A · " + rest |
| Banner.CreateBanner | create_banner.py:21-87 | the figure's texts are the title "Learning Machines", the book subtitle, the topic line for the subtitle, and the metadata line for the author and URL |
| Banner.LayoutIsFixed | create_banner.py:44-84 | canvas, colours, positions, font sizes, styles and the rule are the same for every subtitle, author and URL; only the text contents vary |
| Banner.MarkdownHeader | create_banner.py:111-116 | the header opens with the `<div>` tag, ends with `</div>` and a newline, and contains the data-URI `src` carrying the payload, the `alt` text "Learning Machines: " + subtitle, and hence the marker |
| Banner.GenerateMarkdownHeader | create_banner.py:102-117 | whatever the encoder produces, the header for a subtitle holds the marker and that subtitle's alt text |
| Banner.SampleFileName | create_banner.py:134 | the sample file name is the topic with spaces made underscores and ASCII letters lower-cased, followed by `_banner.png`, and it holds no space |
| Banner.SampleFileNamesDistinct | create_banner.py:125-134 | the three sample topics give three different file names, so no sample banner overwrites another |
| Banner.SamplePaths | create_banner.py:132-135 | one output path per sample topic, in order, each the output directory, a slash and that topic's file name |
| Patcher.SourceText | insert_banners.py:42 | a cell without a `source` key reads as the empty text, a single-string source reads as that string, and a one-line list reads as that line |
| Patcher.StartsWithBanner | insert_banners.py:42 | a notebook starts with a banner exactly when it has a first cell and the marker occurs at some index of that cell's joined source |
| Patcher.BannerCell | insert_banners.py:35-39 | the banner cell is a markdown cell with empty metadata whose source is the single header string |
| Patcher.Patch | insert_banners.py:42-48 | the banner cell comes first; if the first cell held the marker the other cells are kept in place and the length is unchanged, otherwise all old cells follow it in order |
| Patcher.MarkerAcrossLines | insert_banners.py:42 | detection runs on the joined source, so a marker split across any two adjacent source lines still counts as a banner |
| Patcher.NoSourceIsNoBanner | insert_banners.py:42 | a first cell without a source is never a banner, so the header is inserted in front of it |
| Patcher.PatchIdempotent | insert_banners.py:42-48 | after patching with a marker-holding header the document starts with a banner, and patching again equals a single patch with the second header |
| Patcher.BannerHeaderHasMarker | create_banner.py:111-116 | the header handed to every notebook holds the marker |
| Patcher.BannerHeaderIdempotent | insert_banners.py:32-48 | after a patch with a generated header, patching again with any renderer's header equals patching once with the second header |
| Patcher.Notebook.constructor | insert_banners.py:28-29 | the loaded notebook holds the file's cells and its other top-level keys |
| Patcher.Notebook.InsertBanner | insert_banners.py:26-49 | the cells become the patched cells, the other top-level keys are untouched, and the outcome is Replaced exactly when the first cell was a banner |
| Patcher.PatchFile | insert_banners.py:41-53 | the other top-level keys come back unchanged; the cell count stays the same when the file starts with a banner and grows by one otherwise |
| Patcher.PatchFileIdempotent | insert_banners.py:41-53 | after a patch with a marker-holding header the file starts with a banner, and patching it again equals patching the original once with the second header |
| Patcher.InsertBannerFile | insert_banners.py:26-53 | only the named file changes; it becomes its patched version, and the outcome is the status StatusOf gives: Replaced or Inserted according to its first cell, never NotFound |
| Patcher.StatusOf | insert_banners.py:41-65 | a file is reported not found exactly when the directory lacks it, and a replaced file has a first cell |
| Patcher.RegistryDistinct | insert_banners.py:11-24 | the twelve registry entries name twelve different notebooks |
| Patcher.ReportAll | insert_banners.py:60-65 | one report line per registry entry, in registry order, naming that entry's file |
| Patcher.PatchAll | insert_banners.py:60-65 | the batch walk neither creates nor deletes files |
| Patcher.PatchAllOther | insert_banners.py:60-65 | a file the registry does not name is left as it was |
| Patcher.PatchAllRegistered | insert_banners.py:60-65 | with distinct names, every registered file that exists ends up patched once with its own subtitle's header |
| Patcher.ReportAllStatus | insert_banners.py:60-65 | with distinct names, each entry reports the status its file had before the batch: not found, replaced or inserted |
| Patcher.PatchAllIdempotent | insert_banners.py:60-65 | after a batch whose headers hold the marker, a second batch with any headers equals one batch with the second headers and reports every existing file as replaced; with the same headers it changes nothing |
| Patcher.InsertAll | insert_banners.py:60-65 | the loop's directory and report log are those of the registry walk specified by PatchAll and ReportAll |
| Patcher.Run | insert_banners.py:55-67 | `main` patches the directory as the registry walk with the generated header and reports, for each registry entry in order, its file's status before the run |
| Patcher.RunIdempotent | insert_banners.py:55-67 | running the batch again, with the same or a different renderer, equals running it once with the second renderer; with the same renderer every notebook stays as the first run left it |
| Theme.PaletteFor | mlone_theme.py:77-84 | each family has seven colours; the short list is its first two colours and the three-colour list adds red; book mode leads with blue and cyan, notebook mode with green and seafoam |
| Theme.ModesDiffer | mlone_theme.py:77-84 | the two modes install different palettes |
| Theme.AfterCalls | mlone_theme.py:95-128 | after a sequence of mode calls the active lists are those of the last call, whatever came before; with no call they are unchanged |
| Theme.TwoStates | mlone_theme.py:87-128 | from the import-time state, every sequence of calls leaves the book or the notebook palette, always family-shaped |
| Theme.ActivePalette.constructor | mlone_theme.py:87-89 | at import the active lists are the book family |
| Theme.ActivePalette.SetNotebookMode | mlone_theme.py:95-110 | all three active lists become the notebook family |
| Theme.ActivePalette.SetBookMode | mlone_theme.py:113-128 | all three active lists become the book family |
| Theme.AnchorFor | mlone_theme.py:278-287 | "end" anchors at the last point, left-aligned, offset (8, 0); "start" anchors at the first point, right-aligned, offset (-8, 0); anything else anchors at the middle point, centred, offset (0, 10); a line without points has no anchor |
| Theme.LabelAt | mlone_theme.py:274-289 | a label fails exactly when non-empty colours run out before its index or the line has no points; otherwise it carries the text and the given colour (or else the line's own), and it sits at AnchorFor's point with AnchorFor's alignment and offset |
| Theme.AddLineLabels | mlone_theme.py:257-289 | labels the zipped lines and labels in order: every placed label is that index's LabelAt; without error all min(lines, labels) are placed; on error the next index's LabelAt is that error |

## Left out

- Drawing: the matplotlib figure, axes and `ax.text` / `ax.plot` calls are
  recorded as figure data (text items and a rule). The font family, vertical
  alignment, `axis('off')` and the figure size and dpi are not recorded.
  Positions are `real` literals, not floating point.
- `banner_to_base64`: rendering to PNG and base64-encoding it is a parameter,
  `encode`. The model does not describe the bytes it produces.
- JSON: reading and writing notebook files (`json.load`, `json.dump` with
  `indent=1`, `ensure_ascii=False`) are not modelled. A file is its parsed
  value. Malformed JSON and a missing `cells` key are not modelled; in the
  code these raise and end the batch.
- File system: `Path.exists` is key membership in the directory map. The
  printed messages are the returned `Report` log. The final "Done!" line and
  the exit status are not modelled.
- `Patcher.Run`: it takes the directory of notebooks as a parameter instead
  of the script's own directory.
- `Banner.SampleFileName`: `str.lower()` is modelled for ASCII letters only.
  Python also lower-cases non-ASCII letters.
- `Theme.ActivePalette.SetNotebookMode` and `Theme.ActivePalette.SetBookMode`:
  the new values are modelled, not that the active lists become the same list
  objects as the family constants (aliasing).
- The `rcParams` colour-cycle updates in both setters are not modelled.
- `Theme.AddLineLabels`: a line's `xdata` and `ydata` are a sequence of
  points, so the model assumes the two are equally long. `colors=None` and
  `colors=[]` are both falsy, and both are the empty sequence. Drawing the
  label (font size, weight, `ax.annotate`) is left out.
- `Theme`: the matplotlib wrappers `apply_economist_style`, `setup_figure`,
  `add_direct_label`'s drawing, `save_figure`, the box and arrow helpers and
  the axis formatters only configure or call the plotting library. They are
  not part of this model.
- `Banner.MetaText`: a falsy non-string URL (`None`) is modelled as the empty
  string.
- `Strings.ReplaceAll`: requires a non-empty pattern. Python's behaviour for
  an empty pattern is never used by this code.
- `Banner`: the default `subtitle` argument of `create_banner` is not
  modelled, because every caller passes a subtitle.
- `Theme`: the colour constants that no colour family uses (`FS_BLUE`,
  `FOREST`, the browns, `GRAY_LIGHT`, `GRID_COLOR`, `TEXT_COLOR` and the
  legacy aliases) are not modelled, because no modelled operation reads them.

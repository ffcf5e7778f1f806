/**
 * The notebook patcher of insert_banners.py: decide whether a notebook's
 * first cell is already a banner, replace it or prepend a new banner cell,
 * and run that over the fixed registry of notebooks.
 *
 * Files are modelled as a map from file name to parsed notebook; reading
 * and writing JSON is not modelled. The banner markdown generator is passed
 * in as `header`; `Run` instantiates it with the banner renderer.
 */
module Patcher {
  import opened Wrappers
  import opened Strings
  import Banner

  /** A JSON value, for the parts of a notebook the patcher never looks into. */
  datatype Json =
    | JNull
    | JBool(b: bool)
    | JNumber(n: int)
    | JString(s: string)
    | JArray(items: seq<Json>)
    | JObject(members: map<string, Json>)

  /** A cell's `source`: a list of lines, or one string (both occur in notebook files). */
  datatype Source = Lines(lines: seq<string>) | Text(text: string)

  /**
   * One notebook cell: its `cell_type`, its `metadata`, its `source`
   * (`None` when the key is absent) and every other key it carries.
   */
  datatype Cell = Cell(
    cellType: string,
    metadata: map<string, Json>,
    source: Option<Source>,
    otherKeys: map<string, Json>)

  /** A notebook file as stored: its `cells` and every other top-level key. */
  datatype NotebookFile = NotebookFile(cells: seq<Cell>, otherFields: map<string, Json>)

  /** What one patch did, or that the file was missing. */
  datatype Status = Inserted | Replaced | NotFound

  /** One line of the batch report. */
  datatype Report = Report(filename: string, status: Status)

  /**
   * `''.join(cell.get('source', []))`: "" when there is no source, the lines
   * joined in order, and for a single string the join of its characters.
   */
  function SourceText(c: Cell): (t: string)
    ensures c.source.None? ==> t == ""
    ensures c.source.Some? && c.source.value.Text? ==> t == c.source.value.text
    ensures c.source.Some? && c.source.value.Lines? && |c.source.value.lines| == 1 ==> t == c.source.value.lines[0]
  {
    match c.source
    case None => ""
    case Some(Lines(lines)) => Concat(lines)
    case Some(Text(text)) => ConcatChars(text); Concat(Chars(text))
  }

  /** The detection rule: there is a first cell and its joined source holds the marker. */
  predicate StartsWithBanner(cells: seq<Cell>)
    ensures StartsWithBanner(cells) <==>
      |cells| > 0 && exists i :: OccursAt(SourceText(cells[0]), Banner.Marker, i)
  {
    |cells| > 0 && (ContainsIff(SourceText(cells[0]), Banner.Marker); Contains(SourceText(cells[0]), Banner.Marker))
  }

  /** The banner cell: markdown, empty metadata, the markdown as its one source line. */
  function BannerCell(md: string): (c: Cell)
    ensures c.cellType == "markdown" && c.metadata == map[] && c.otherKeys == map[]
    ensures c.source == Some(Lines([md])) && SourceText(c) == md
  {
    Cell("markdown", map[], Some(Lines([md])), map[])
  }

  /**
   * The cells after patching with banner markdown `md`: a banner first cell
   * is replaced, otherwise (also for an empty notebook) a banner cell is
   * prepended.
   */
  function Patch(cells: seq<Cell>, md: string): (r: seq<Cell>)
    ensures |r| >= 1 && r[0] == BannerCell(md)
    ensures StartsWithBanner(cells) ==> |r| == |cells| && r[1..] == cells[1..]
    ensures !StartsWithBanner(cells) ==> |r| == |cells| + 1 && r[1..] == cells
  {
    if StartsWithBanner(cells) then cells[0 := BannerCell(md)] else [BannerCell(md)] + cells
  }

  /**
   * Detection works on the joined lines: a marker split over two adjacent
   * lines, anywhere in the source, is found.
   */
  lemma MarkerAcrossLines(cellType: string, before: seq<string>, x: string, y: string, k: nat,
                          after: seq<string>, rest: seq<Cell>)
    requires k <= |Banner.Marker|
    ensures
      var lines := before + [x + Banner.Marker[..k], Banner.Marker[k..] + y] + after;
      StartsWithBanner([Cell(cellType, map[], Some(Lines(lines)), map[])] + rest)
  {
    SplitNeedleJoined(before, x, Banner.Marker, k, y, after);
  }

  /** A first cell without a `source` key is never taken for a banner. */
  lemma NoSourceIsNoBanner(c: Cell, rest: seq<Cell>, md: string)
    requires c.source.None?
    ensures !StartsWithBanner([c] + rest)
    ensures Patch([c] + rest, md) == [BannerCell(md), c] + rest
  {
  }

  /**
   * Patching with markdown that holds the marker leaves a banner first, so a
   * second patch replaces it: patching twice equals patching once with the
   * second markdown.
   */
  lemma PatchIdempotent(cells: seq<Cell>, md1: string, md2: string)
    requires Contains(md1, Banner.Marker)
    ensures StartsWithBanner(Patch(cells, md1))
    ensures Patch(Patch(cells, md1), md2) == Patch(cells, md2)
  {
    var once := Patch(cells, md1);
    assert StartsWithBanner(once);
    var twice := Patch(once, md2);
    assert twice[1..] == once[1..];
    assert twice == [twice[0]] + twice[1..];
    assert Patch(cells, md2) == [Patch(cells, md2)[0]] + Patch(cells, md2)[1..];
  }

  /** The generated banner header, as a function of the subtitle. */
  function BannerHeader(encode: Banner.Figure -> string): string -> string
  {
    subtitle => Banner.GenerateMarkdownHeader(subtitle, encode)
  }

  /** Every generated header holds the marker. */
  lemma BannerHeaderHasMarker(subtitle: string, encode: Banner.Figure -> string)
    ensures Contains(BannerHeader(encode)(subtitle), Banner.Marker)
  {
    assert BannerHeader(encode)(subtitle) == Banner.GenerateMarkdownHeader(subtitle, encode);
  }

  /**
   * So after a patch with a generated header, patching again with any
   * renderer's header equals patching once with the second header.
   */
  lemma BannerHeaderIdempotent(cells: seq<Cell>, subtitle: string,
                               encode1: Banner.Figure -> string, encode2: Banner.Figure -> string)
    ensures
      var md1, md2 := BannerHeader(encode1)(subtitle), BannerHeader(encode2)(subtitle);
      Patch(Patch(cells, md1), md2) == Patch(cells, md2)
  {
    BannerHeaderHasMarker(subtitle, encode1);
    PatchIdempotent(cells, BannerHeader(encode1)(subtitle), BannerHeader(encode2)(subtitle));
  }

  /** A notebook held in memory: `nb['cells']` and the other top-level keys. */
  class Notebook {
    var cells: seq<Cell>
    var otherFields: map<string, Json>

    constructor (cells: seq<Cell>, otherFields: map<string, Json>)
      ensures this.cells == cells && this.otherFields == otherFields
    {
      this.cells := cells;
      this.otherFields := otherFields;
    }

    /** `insert_banner`: patch `cells` in place with the banner for `subtitle`. */
    method InsertBanner(subtitle: string, header: string -> string) returns (outcome: Status)
      modifies this`cells
      ensures outcome == (if StartsWithBanner(old(cells)) then Replaced else Inserted)
      ensures cells == Patch(old(cells), header(subtitle))
      ensures otherFields == old(otherFields)
    {
      var bannerMd := header(subtitle);
      var bannerCell := BannerCell(bannerMd);
      if |cells| > 0 && Contains(SourceText(cells[0]), Banner.Marker) {
        cells := cells[0 := bannerCell];
        outcome := Replaced;
      } else {
        cells := [bannerCell] + cells;
        outcome := Inserted;
      }
    }
  }

  /** The file after `insert_banner` with markdown `md`: only `cells` changes. */
  function PatchFile(f: NotebookFile, md: string): (g: NotebookFile)
    ensures g.otherFields == f.otherFields
    ensures |g.cells| == if StartsWithBanner(f.cells) then |f.cells| else |f.cells| + 1
  {
    NotebookFile(Patch(f.cells, md), f.otherFields)
  }

  /**
   * After a patch with markdown that holds the marker, patching the file
   * again is the same as patching the original once with the new markdown.
   */
  lemma PatchFileIdempotent(f: NotebookFile, md1: string, md2: string)
    requires Contains(md1, Banner.Marker)
    ensures StartsWithBanner(PatchFile(f, md1).cells)
    ensures PatchFile(PatchFile(f, md1), md2) == PatchFile(f, md2)
  {
    PatchIdempotent(f.cells, md1, md2);
  }

  /**
   * `insert_banner` on a file: load it, patch the in-memory notebook and
   * write it back; only that file changes.
   */
  method InsertBannerFile(dir: map<string, NotebookFile>, filename: string, subtitle: string, header: string -> string)
    returns (dir': map<string, NotebookFile>, outcome: Status)
    requires filename in dir
    ensures dir' == dir[filename := PatchFile(dir[filename], header(subtitle))]
    ensures outcome == StatusOf(dir, filename) && outcome != NotFound
  {
    var file := dir[filename];
    var nb := new Notebook(file.cells, file.otherFields);
    outcome := nb.InsertBanner(subtitle, header);
    dir' := dir[filename := NotebookFile(nb.cells, nb.otherFields)];
  }

  /** The status the batch reports for `name` in directory `dir`. */
  function StatusOf(dir: map<string, NotebookFile>, name: string): (s: Status)
    ensures s == NotFound <==> name !in dir
    ensures s == Replaced ==> |dir[name].cells| > 0
  {
    if name !in dir then NotFound
    else if StartsWithBanner(dir[name].cells) then Replaced
    else Inserted
  }

  /** The `NOTEBOOKS` registry: file name and banner subtitle, in insertion order. */
  const Registry: seq<(string, string)> := [
    ("ch02_01_polynomial_regression.ipynb", "Polynomial Regression"),
    ("ch02_02_linear_regression_ols.ipynb", "Linear Regression: OLS"),
    ("ch03_01_gradient_descent.ipynb", "Gradient Descent"),
    ("ch04_01_logistic_regression.ipynb", "Logistic Regression"),
    ("ch04_02_multiclass.ipynb", "Multi-Class Classification"),
    ("ch05_01_bias_variance.ipynb", "Bias-Variance Tradeoff"),
    ("ch06_01_model_evaluation.ipynb", "Model Evaluation"),
    ("ch07_01_regularization.ipynb", "Regularization"),
    ("ch08_01_trees_ensembles.ipynb", "Trees and Ensembles"),
    ("ch09_01_backpropagation.ipynb", "Backpropagation"),
    ("ch10_01_convnets.ipynb", "Convolutional Networks"),
    ("ch11_01_attention_transformers.ipynb", "Attention and Transformers")
  ]

  /** File names in a registry are distinct, as dictionary keys are. */
  ghost predicate DistinctNames(registry: seq<(string, string)>)
  {
    forall i, j :: 0 <= i < j < |registry| ==> registry[i].0 != registry[j].0
  }

  /** The registry's file names are distinct. */
  lemma RegistryDistinct()
    ensures DistinctNames(Registry)
  {
  }

  /** The file names a registry mentions. */
  ghost function Names(registry: seq<(string, string)>): set<string>
  {
    set i | 0 <= i < |registry| :: registry[i].0
  }

  lemma NamesSnoc(registry: seq<(string, string)>, entry: (string, string))
    ensures Names(registry + [entry]) == Names(registry) + {entry.0}
  {
    var longer := registry + [entry];
    forall name | name in Names(longer)
      ensures name in Names(registry) + {entry.0}
    {
      var i :| 0 <= i < |longer| && longer[i].0 == name;
      if i < |registry| {
        assert registry[i].0 == name;
      }
    }
    forall name | name in Names(registry)
      ensures name in Names(longer)
    {
      var i :| 0 <= i < |registry| && registry[i].0 == name;
      assert longer[i].0 == name;
    }
    assert longer[|registry|].0 == entry.0;
  }

  /** With distinct names, the last entry's name is not among the earlier ones. */
  lemma LastNameIsNew(registry: seq<(string, string)>)
    requires DistinctNames(registry) && |registry| > 0
    ensures registry[|registry| - 1].0 !in Names(registry[..|registry| - 1])
    ensures DistinctNames(registry[..|registry| - 1])
  {
    var init := registry[..|registry| - 1];
    forall j | 0 <= j < |init|
      ensures init[j].0 != registry[|registry| - 1].0
    {
      assert init[j] == registry[j];
    }
  }

  /**
   * The directory after walking `registry` in order: each entry whose file
   * exists is patched with the header for its subtitle, the others are
   * skipped.
   */
  function PatchAll(dir: map<string, NotebookFile>, registry: seq<(string, string)>, header: string -> string)
    : (r: map<string, NotebookFile>)
    ensures r.Keys == dir.Keys
    decreases |registry|
  {
    if registry == [] then dir
    else
      var prev := PatchAll(dir, registry[..|registry| - 1], header);
      var (name, subtitle) := registry[|registry| - 1];
      if name in prev then prev[name := PatchFile(prev[name], header(subtitle))] else prev
  }

  /** The report lines of that walk, one per entry, in registry order. */
  function ReportAll(dir: map<string, NotebookFile>, registry: seq<(string, string)>, header: string -> string)
    : (log: seq<Report>)
    ensures |log| == |registry|
    ensures forall i :: 0 <= i < |registry| ==> log[i].filename == registry[i].0
    decreases |registry|
  {
    if registry == [] then []
    else
      var init := registry[..|registry| - 1];
      var name := registry[|registry| - 1].0;
      ReportAll(dir, init, header) + [Report(name, StatusOf(PatchAll(dir, init, header), name))]
  }

  /** A file the registry does not name is left as it was. */
  lemma {:induction false} PatchAllOther(dir: map<string, NotebookFile>, registry: seq<(string, string)>,
                                         header: string -> string, name: string)
    requires name in dir && name !in Names(registry)
    ensures name in PatchAll(dir, registry, header) && PatchAll(dir, registry, header)[name] == dir[name]
    decreases |registry|
  {
    if registry != [] {
      var init := registry[..|registry| - 1];
      assert registry == init + [registry[|registry| - 1]];
      NamesSnoc(init, registry[|registry| - 1]);
      PatchAllOther(dir, init, header, name);
    }
  }

  /** With distinct names, every registered file that exists is patched exactly once. */
  lemma {:induction false} PatchAllRegistered(dir: map<string, NotebookFile>, registry: seq<(string, string)>,
                                              header: string -> string, i: nat)
    requires DistinctNames(registry) && i < |registry| && registry[i].0 in dir
    ensures registry[i].0 in PatchAll(dir, registry, header)
    ensures PatchAll(dir, registry, header)[registry[i].0] == PatchFile(dir[registry[i].0], header(registry[i].1))
    decreases |registry|
  {
    var init := registry[..|registry| - 1];
    var last := registry[|registry| - 1];
    LastNameIsNew(registry);
    if i == |registry| - 1 {
      PatchAllOther(dir, init, header, last.0);
    } else {
      assert init[i] == registry[i];
      PatchAllRegistered(dir, init, header, i);
    }
  }

  /** With distinct names, entry i reports the status its file had before the walk. */
  lemma {:induction false} ReportAllStatus(dir: map<string, NotebookFile>, registry: seq<(string, string)>,
                                           header: string -> string, i: nat)
    requires DistinctNames(registry) && i < |registry|
    ensures ReportAll(dir, registry, header)[i] == Report(registry[i].0, StatusOf(dir, registry[i].0))
    decreases |registry|
  {
    var init := registry[..|registry| - 1];
    var last := registry[|registry| - 1];
    LastNameIsNew(registry);
    if i == |registry| - 1 {
        if last.0 in dir {
        PatchAllOther(dir, init, header, last.0);
      }
    } else {
      assert init[i] == registry[i];
      ReportAllStatus(dir, init, header, i);
    }
  }

  /**
   * After a walk whose headers all hold the marker, a second walk with any
   * headers equals a single walk with the second ones, and it reports every
   * file it finds as replaced. With the same headers twice: the second walk
   * changes nothing.
   */
  lemma PatchAllIdempotent(dir: map<string, NotebookFile>, registry: seq<(string, string)>,
                           header1: string -> string, header2: string -> string)
    requires DistinctNames(registry)
    requires forall i :: 0 <= i < |registry| ==> Contains(header1(registry[i].1), Banner.Marker)
    ensures PatchAll(PatchAll(dir, registry, header1), registry, header2) == PatchAll(dir, registry, header2)
    ensures forall i :: 0 <= i < |registry| && registry[i].0 in dir ==>
      ReportAll(PatchAll(dir, registry, header1), registry, header2)[i].status == Replaced
  {
    var once := PatchAll(dir, registry, header1);
    var twice := PatchAll(once, registry, header2);
    var direct := PatchAll(dir, registry, header2);
    forall name | name in dir
      ensures twice[name] == direct[name]
    {
      if name in Names(registry) {
        var i :| 0 <= i < |registry| && registry[i].0 == name;
        PatchAllRegistered(dir, registry, header1, i);
        PatchAllRegistered(once, registry, header2, i);
        PatchAllRegistered(dir, registry, header2, i);
        PatchFileIdempotent(dir[name], header1(registry[i].1), header2(registry[i].1));
      } else {
        PatchAllOther(dir, registry, header1, name);
        PatchAllOther(once, registry, header2, name);
        PatchAllOther(dir, registry, header2, name);
      }
    }
    forall i | 0 <= i < |registry| && registry[i].0 in dir
      ensures ReportAll(once, registry, header2)[i].status == Replaced
    {
      ReportAllStatus(once, registry, header2, i);
      PatchAllRegistered(dir, registry, header1, i);
      PatchFileIdempotent(dir[registry[i].0], header1(registry[i].1), header2(registry[i].1));
    }
  }

  /**
   * `main`'s loop: walk the registry in order, patch every notebook that
   * exists and report the others as not found.
   */
  method InsertAll(dir: map<string, NotebookFile>, registry: seq<(string, string)>, header: string -> string)
    returns (dir': map<string, NotebookFile>, log: seq<Report>)
    ensures dir' == PatchAll(dir, registry, header)
    ensures log == ReportAll(dir, registry, header)
  {
    dir' := dir;
    log := [];
    var k := 0;
    while k < |registry|
      invariant 0 <= k <= |registry|
      invariant dir' == PatchAll(dir, registry[..k], header)
      invariant log == ReportAll(dir, registry[..k], header)
    {
      var (filename, subtitle) := registry[k];
      assert registry[..k + 1][..k] == registry[..k];
      if filename in dir' {
        var outcome;
        dir', outcome := InsertBannerFile(dir', filename, subtitle, header);
        log := log + [Report(filename, outcome)];
      } else {
        log := log + [Report(filename, NotFound)];
      }
      k := k + 1;
    }
    assert registry[..k] == registry;
  }

  /** `main`: the walk over the fixed registry with the generated banner header. */
  method Run(dir: map<string, NotebookFile>, encode: Banner.Figure -> string)
    returns (dir': map<string, NotebookFile>, log: seq<Report>)
    ensures dir' == PatchAll(dir, Registry, BannerHeader(encode))
    ensures |log| == |Registry|
    ensures forall i :: 0 <= i < |Registry| ==>
      log[i] == Report(Registry[i].0, StatusOf(dir, Registry[i].0))
  {
    var header := BannerHeader(encode);
    dir', log := InsertAll(dir, Registry, header);
    RegistryDistinct();
    forall i | 0 <= i < |Registry|
      ensures log[i] == Report(Registry[i].0, StatusOf(dir, Registry[i].0))
    {
      ReportAllStatus(dir, Registry, header, i);
    }
  }

  /**
   * Running the batch again, even with a renderer that draws differently,
   * is the same as running it once with the second renderer; with the same
   * renderer, the second run leaves every notebook as the first left it.
   */
  lemma RunIdempotent(dir: map<string, NotebookFile>, encode1: Banner.Figure -> string, encode2: Banner.Figure -> string)
    ensures
      var header1, header2 := BannerHeader(encode1), BannerHeader(encode2);
      PatchAll(PatchAll(dir, Registry, header1), Registry, header2) == PatchAll(dir, Registry, header2)
  {
    var header1, header2 := BannerHeader(encode1), BannerHeader(encode2);
    RegistryDistinct();
    forall i | 0 <= i < |Registry|
      ensures Contains(header1(Registry[i].1), Banner.Marker)
    {
      BannerHeaderHasMarker(Registry[i].1, encode1);
    }
    PatchAllIdempotent(dir, Registry, header1, header2);
  }
}

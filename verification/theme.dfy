/**
 * The plain logic of mlone_theme.py: the colour constants, the book/notebook
 * palette switch over the module-level active colour lists, and the choice
 * of anchor point, alignment and offset for direct line labels.
 *
 * Drawing (matplotlib calls) and the colour-cycle setting in rcParams are
 * not modelled.
 */
module Theme {
  import opened Wrappers

  // The colours the two families are built from.
  const Blue := "#076FA1"
  const Cyan := "#2FC1D3"
  const Green := "#4F9E00"
  const Seafoam := "#3EB489"
  const Red := "#E3120B"
  const Orange := "#9E4F00"
  const Gray := "#666666"

  const BookColors: seq<string> := [Blue, Cyan, Green, Seafoam, Red, Orange, Gray]
  const BookColors2: seq<string> := [Blue, Cyan]
  const BookColors3: seq<string> := [Blue, Cyan, Red]

  const NotebookColors: seq<string> := [Green, Seafoam, Blue, Cyan, Red, Orange, Gray]
  const NotebookColors2: seq<string> := [Green, Seafoam]
  const NotebookColors3: seq<string> := [Green, Seafoam, Red]

  datatype Mode = BookMode | NotebookMode

  /** The three active colour lists `COLORS`, `COLORS_2` and `COLORS_3`. */
  datatype Palette = Palette(colors: seq<string>, colors2: seq<string>, colors3: seq<string>)

  /** A family: seven colours, the first two as the short list, then those two and red. */
  predicate FamilyShaped(p: Palette)
  {
    |p.colors| == 7 && p.colors2 == p.colors[..2] && p.colors3 == p.colors2 + [Red]
  }

  /** The lists a mode installs. */
  function PaletteFor(mode: Mode): (p: Palette)
    ensures FamilyShaped(p)
    ensures p.colors[0] == (if mode == BookMode then Blue else Green)
    ensures p.colors[1] == (if mode == BookMode then Cyan else Seafoam)
  {
    match mode
    case BookMode => Palette(BookColors, BookColors2, BookColors3)
    case NotebookMode => Palette(NotebookColors, NotebookColors2, NotebookColors3)
  }

  /** The two modes install different palettes, so the active lists tell the mode. */
  lemma ModesDiffer()
    ensures PaletteFor(BookMode) != PaletteFor(NotebookMode)
  {
    assert PaletteFor(BookMode).colors[0][1] == '0';
    assert PaletteFor(NotebookMode).colors[0][1] == '4';
  }

  /**
   * The active lists after calling the setters in the given order, each call
   * installing its mode's palette. The last call wins, whatever the lists
   * were before it; with no call they are unchanged.
   */
  function AfterCalls(start: Palette, calls: seq<Mode>): (p: Palette)
    ensures calls == [] ==> p == start
    ensures calls != [] ==> p == PaletteFor(calls[|calls| - 1])
    decreases |calls|
  {
    if calls == [] then start else AfterCalls(PaletteFor(calls[0]), calls[1..])
  }

  /** From book mode, every sequence of calls ends in one of the two palettes. */
  lemma {:induction false} TwoStates(calls: seq<Mode>)
    ensures AfterCalls(PaletteFor(BookMode), calls) == PaletteFor(BookMode)
         || AfterCalls(PaletteFor(BookMode), calls) == PaletteFor(NotebookMode)
    ensures FamilyShaped(AfterCalls(PaletteFor(BookMode), calls))
  {
  }

  /** The module-level active colour lists. */
  class ActivePalette {
    var colors: seq<string>
    var colors2: seq<string>
    var colors3: seq<string>

    function Current(): Palette
      reads this
    {
      Palette(colors, colors2, colors3)
    }

    ghost predicate Valid()
      reads this
    {
      Current() == PaletteFor(BookMode) || Current() == PaletteFor(NotebookMode)
    }

    /** Module load: book mode. */
    constructor ()
      ensures Valid() && Current() == PaletteFor(BookMode)
    {
      colors := BookColors;
      colors2 := BookColors2;
      colors3 := BookColors3;
    }

    /** `set_notebook_mode`: overwrite all three lists with the notebook family. */
    method SetNotebookMode()
      modifies this
      ensures Valid() && Current() == PaletteFor(NotebookMode)
    {
      colors := NotebookColors;
      colors2 := NotebookColors2;
      colors3 := NotebookColors3;
    }

    /** `set_book_mode`: overwrite all three lists with the book family. */
    method SetBookMode()
      modifies this
      ensures Valid() && Current() == PaletteFor(BookMode)
    {
      colors := BookColors;
      colors2 := BookColors2;
      colors3 := BookColors3;
    }
  }

  datatype HAlign = Left | Right | Center

  /** Which data point a label sits at, its alignment and its offset in points. */
  datatype Anchor = Anchor(index: nat, ha: HAlign, offset: (int, int))

  /**
   * The per-line choice in `add_line_labels` for data of length `n`: the
   * last point for "end", the first for "start", the middle one otherwise.
   * Python raises IndexError on empty data; that is `None` here.
   */
  function AnchorFor(position: string, n: nat): (a: Option<Anchor>)
    ensures a.Some? <==> n > 0
    ensures a.Some? ==> a.value.index < n
    ensures a.Some? && position == "end" ==> a.value.index + 1 == n && a.value.ha == Left && a.value.offset == (8, 0)
    ensures a.Some? && position == "start" ==> a.value.index == 0 && a.value.ha == Right && a.value.offset == (-8, 0)
    ensures a.Some? && position != "end" && position != "start" ==>
      2 * a.value.index <= n < 2 * a.value.index + 2 && a.value.ha == Center && a.value.offset == (0, 10)
  {
    if n == 0 then None
    else if position == "end" then Some(Anchor(n - 1, Left, (8, 0)))
    else if position == "start" then Some(Anchor(0, Right, (-8, 0)))
    else Some(Anchor(n / 2, Center, (0, 10)))
  }

  /** A plotted line: its data points and its own colour. */
  datatype Line = Line(points: seq<(real, real)>, color: string)

  /** One `add_direct_label` call: position, text, colour, alignment, offset. */
  datatype Label = Label(x: real, y: real, text: string, color: string, ha: HAlign, offset: (int, int))

  /** The IndexError `add_line_labels` can raise, and for which line. */
  datatype LabelError = ColorIndexError(at: nat) | EmptyLineError(at: nat)

  function Min(a: nat, b: nat): nat
  {
    if a < b then a else b
  }

  /**
   * The label for line i: given colours (non-empty) supply its colour, else
   * the line's own colour; the anchor picks the data point.
   */
  function LabelAt(line: Line, text: string, i: nat, colors: seq<string>, position: string)
    : (r: Result<Label, LabelError>)
    ensures r.Err? <==> (|colors| > 0 && i >= |colors|) || |line.points| == 0
    ensures |colors| > 0 && i >= |colors| ==> r == Err(ColorIndexError(i))
    ensures r.Ok? ==> r.value.text == text
    ensures r.Ok? ==> r.value.color == if |colors| > 0 then colors[i] else line.color
    ensures r.Ok? ==> (r.value.x, r.value.y) in line.points
    ensures r.Ok? ==> AnchorFor(position, |line.points|).Some?
    ensures r.Ok? ==>
      (var a := AnchorFor(position, |line.points|).value;
       (r.value.x, r.value.y) == line.points[a.index] && r.value.ha == a.ha && r.value.offset == a.offset)
  {
    if |colors| > 0 && i >= |colors| then Err(ColorIndexError(i))
    else
      var color := if |colors| > 0 then colors[i] else line.color;
      match AnchorFor(position, |line.points|)
      case None => Err(EmptyLineError(i))
      case Some(a) => Ok(Label(line.points[a.index].0, line.points[a.index].1, text, color, a.ha, a.offset))
  }

  /**
   * `add_line_labels`: label the zipped lines and labels in order. On an
   * IndexError the labels placed before it remain and the error is returned.
   */
  method AddLineLabels(lines: seq<Line>, labels: seq<string>, colors: seq<string>, position: string)
    returns (placed: seq<Label>, error: Option<LabelError>)
    ensures |placed| <= Min(|lines|, |labels|)
    ensures error.None? ==> |placed| == Min(|lines|, |labels|)
    ensures forall i :: 0 <= i < |placed| ==> LabelAt(lines[i], labels[i], i, colors, position) == Ok(placed[i])
    ensures error.Some? ==>
      |placed| < Min(|lines|, |labels|) &&
      LabelAt(lines[|placed|], labels[|placed|], |placed|, colors, position) == Err(error.value)
  {
    placed := [];
    error := None;
    var n := Min(|lines|, |labels|);
    var i := 0;
    while i < n
      invariant 0 <= i <= n
      invariant |placed| == i
      invariant forall j :: 0 <= j < i ==> LabelAt(lines[j], labels[j], j, colors, position) == Ok(placed[j])
    {
      var line := lines[i];
      var color: string;
      if |colors| > 0 {
        if i >= |colors| {
          error := Some(ColorIndexError(i));
          return;
        }
        color := colors[i];
      } else {
        color := line.color;
      }
      var anchor := AnchorFor(position, |line.points|);
      if anchor.None? {
        error := Some(EmptyLineError(i));
        return;
      }
      var point := line.points[anchor.value.index];
      placed := placed + [Label(point.0, point.1, labels[i], color, anchor.value.ha, anchor.value.offset)];
      i := i + 1;
    }
  }
}

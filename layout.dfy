/**
 * The stitching step of `processPDF`: the rendered pages of one group are
 * stacked top to bottom (vertical) or left to right (horizontal) on one
 * canvas, each centred across the stacking axis, with an optional gap
 * between neighbours and an optional border around each page. Pixels are
 * not modelled; the canvas is its size plus the drawing commands issued on
 * it, in order.
 */
module Layout {

  datatype Direction = Vertical | Horizontal

  /** The size of a rendered page canvas. */
  datatype Dim = Dim(width: nat, height: nat)

  /** A rectangle in canvas coordinates; a centring offset may be a half pixel. */
  datatype Rect = Rect(x: real, y: real, width: nat, height: nat)

  /** `'#FFFFFF'` for the background and `'#e5e7eb'` (gray-200) for borders. */
  datatype Colour = White | Gray200

  /** One drawing command issued on the stitched canvas. */
  datatype DrawOp =
    | FillRect(rect: Rect, fill: Colour)
    | DrawImage(page: nat, at: Rect)  // `page`: which of the group's canvases is drawn
    | StrokeRect(rect: Rect, stroke: Colour, lineWidth: nat)

  /** The stitched canvas: its size and the commands drawn on it. */
  datatype Composite = Composite(width: nat, height: nat, ops: seq<DrawOp>)

  /** The extent of a page along the stacking axis. */
  function Along(d: Direction, p: Dim): nat {
    if d == Vertical then p.height else p.width
  }

  /** The extent of a page across the stacking axis. */
  function Across(d: Direction, p: Dim): nat {
    if d == Vertical then p.width else p.height
  }

  /** `pages.reduce((sum, c) => sum + <along>, 0)`, folded from the first page. */
  function SumAlong(d: Direction, pages: seq<Dim>): nat {
    if pages == [] then 0 else SumAlong(d, pages[..|pages| - 1]) + Along(d, pages[|pages| - 1])
  }

  /** `Math.max(...pages.map(<across>))`: the largest cross extent. */
  function MaxAcross(d: Direction, pages: seq<Dim>): (m: nat)
    requires |pages| > 0
    ensures forall k :: 0 <= k < |pages| ==> Across(d, pages[k]) <= m
    ensures exists k :: 0 <= k < |pages| && Across(d, pages[k]) == m
  {
    if |pages| == 1 then Across(d, pages[0])
    else
      var m := MaxAcross(d, pages[..|pages| - 1]);
      var last := Across(d, pages[|pages| - 1]);
      assert forall k :: 0 <= k < |pages| - 1 ==> pages[k] == pages[..|pages| - 1][k];
      if m < last then last else m
  }

  /** Where page `k` starts along the stacking axis: the accumulator `currentY`/`currentX`. */
  function Offset(d: Direction, pages: seq<Dim>, gapSize: nat, k: nat): nat
    requires k <= |pages|
  {
    if k == 0 then 0 else Offset(d, pages, gapSize, k - 1) + Along(d, pages[k - 1]) + gapSize
  }

  /** The canvas extent along the stacking axis: every page plus a gap between neighbours. */
  function StackLength(d: Direction, pages: seq<Dim>, gapSize: nat): nat
    requires |pages| > 0
  {
    SumAlong(d, pages) + (|pages| - 1) * gapSize
  }

  /** The canvas size. */
  function CanvasSize(d: Direction, pages: seq<Dim>, gapSize: nat): Dim
    requires |pages| > 0
  {
    if d == Vertical then Dim(MaxAcross(d, pages), StackLength(d, pages, gapSize))
    else Dim(StackLength(d, pages, gapSize), MaxAcross(d, pages))
  }

  /** Where page `k` is drawn: stacked at its offset, centred across. */
  function Placement(d: Direction, pages: seq<Dim>, gapSize: nat, k: nat): Rect
    requires k < |pages|
  {
    var p := pages[k];
    var centred := (MaxAcross(d, pages) - Across(d, p)) as real / 2.0;
    var stacked := Offset(d, pages, gapSize, k) as real;
    if d == Vertical then Rect(centred, stacked, p.width, p.height)
    else Rect(stacked, centred, p.width, p.height)
  }

  /** The commands for page `k`: draw it, then stroke its border when borders are on. */
  function PageOps(d: Direction, pages: seq<Dim>, gapSize: nat, border: bool, lineWidth: nat, k: nat): seq<DrawOp>
    requires k < |pages|
  {
    var at := Placement(d, pages, gapSize, k);
    [DrawImage(k, at)] + (if border then [StrokeRect(at, Gray200, lineWidth)] else [])
  }

  /** The commands for pages 0..m-1, in page order. */
  function PagesOps(d: Direction, pages: seq<Dim>, gapSize: nat, border: bool, lineWidth: nat, m: nat): seq<DrawOp>
    requires m <= |pages|
  {
    if m == 0 then [] else PagesOps(d, pages, gapSize, border, lineWidth, m - 1) + PageOps(d, pages, gapSize, border, lineWidth, m - 1)
  }

  /** The stitched canvas of a group: size, white background, then each page in order. */
  function Layout(d: Direction, pages: seq<Dim>, gapSize: nat, border: bool, lineWidth: nat): Composite
    requires |pages| > 0
  {
    var size := CanvasSize(d, pages, gapSize);
    Composite(size.width, size.height,
              [FillRect(Rect(0.0, 0.0, size.width, size.height), White)]
              + PagesOps(d, pages, gapSize, border, lineWidth, |pages|))
  }

  /** Drawing page `k` at the running offset, centred, extends the commands for the pages before it. */
  lemma StitchStep(d: Direction, pages: seq<Dim>, gapSize: nat, border: bool, lineWidth: nat,
                   k: nat, head: seq<DrawOp>, ops: seq<DrawOp>, current: nat, maxAcross: nat, at: Rect)
    requires k < |pages|
    requires current == Offset(d, pages, gapSize, k) && maxAcross == MaxAcross(d, pages)
    requires ops == head + PagesOps(d, pages, gapSize, border, lineWidth, k)
    requires var centred := (maxAcross - Across(d, pages[k])) as real / 2.0;
             at == if d == Vertical then Rect(centred, current as real, pages[k].width, pages[k].height)
                   else Rect(current as real, centred, pages[k].width, pages[k].height)
    ensures border ==> ops + [DrawImage(k, at)] + [StrokeRect(at, Gray200, lineWidth)]
                       == head + PagesOps(d, pages, gapSize, border, lineWidth, k + 1)
    ensures !border ==> ops + [DrawImage(k, at)] == head + PagesOps(d, pages, gapSize, border, lineWidth, k + 1)
    ensures current + Along(d, pages[k]) + gapSize == Offset(d, pages, gapSize, k + 1)
  {
    assert at == Placement(d, pages, gapSize, k);
    var before := PagesOps(d, pages, gapSize, border, lineWidth, k);
    var here := PageOps(d, pages, gapSize, border, lineWidth, k);
    assert PagesOps(d, pages, gapSize, border, lineWidth, k + 1) == before + here;
    if border {
      assert here == [DrawImage(k, at)] + [StrokeRect(at, Gray200, lineWidth)];
      assert ops + [DrawImage(k, at)] + [StrokeRect(at, Gray200, lineWidth)] == head + (before + here);
    } else {
      assert here == [DrawImage(k, at)];
      assert ops + [DrawImage(k, at)] == head + (before + here);
    }
  }

  /**
   * The stitching branch of `processPDF`: size the canvas from the max/sum of
   * the pages, fill it white, then walk the pages advancing the offset by
   * each page's extent plus the gap, drawing each centred and, when asked,
   * stroking its border.
   */
  method Stitch(d: Direction, pages: seq<Dim>, gapSize: nat, border: bool, lineWidth: nat)
    returns (c: Composite)
    requires |pages| > 0
    ensures c == Layout(d, pages, gapSize, border, lineWidth)
  {
    var maxAcross := MaxAcross(d, pages);
    var total := StackLength(d, pages, gapSize);
    var width := if d == Vertical then maxAcross else total;
    var height := if d == Vertical then total else maxAcross;
    var background := [FillRect(Rect(0.0, 0.0, width, height), White)];
    assert Dim(width, height) == CanvasSize(d, pages, gapSize);
    var ops := background;
    var current := 0;
    var k := 0;
    while k < |pages|
      invariant 0 <= k <= |pages|
      invariant current == Offset(d, pages, gapSize, k)
      invariant ops == background + PagesOps(d, pages, gapSize, border, lineWidth, k)
    {
      var p := pages[k];
      var centred := (maxAcross - Across(d, p)) as real / 2.0;
      var at := if d == Vertical then Rect(centred, current as real, p.width, p.height)
                else Rect(current as real, centred, p.width, p.height);
      StitchStep(d, pages, gapSize, border, lineWidth, k, background, ops, current, maxAcross, at);
      ops := ops + [DrawImage(k, at)];
      if border {
        ops := ops + [StrokeRect(at, Gray200, lineWidth)];
      }
      assert ops == background + PagesOps(d, pages, gapSize, border, lineWidth, k + 1);
      current := current + Along(d, p) + gapSize;
      k := k + 1;
    }
    c := Composite(width, height, ops);
  }

  /** The stacked offset is the sum of the earlier pages' extents plus one gap per earlier page. */
  lemma {:induction false} OffsetClosedForm(d: Direction, pages: seq<Dim>, gapSize: nat, k: nat)
    requires k <= |pages|
    ensures Offset(d, pages, gapSize, k) == SumAlong(d, pages[..k]) + k * gapSize
  {
    if k > 0 {
      OffsetClosedForm(d, pages, gapSize, k - 1);
      assert pages[..k][..k - 1] == pages[..k - 1];
      assert k * gapSize == (k - 1) * gapSize + gapSize;
    }
  }

  /** Pages later in the stack start after earlier ones end, with at least one gap between. */
  lemma {:induction false} OffsetsSeparated(d: Direction, pages: seq<Dim>, gapSize: nat, j: nat, k: nat)
    requires j < k <= |pages|
    ensures Offset(d, pages, gapSize, j) + Along(d, pages[j]) + gapSize <= Offset(d, pages, gapSize, k)
  {
    if j < k - 1 {
      OffsetsSeparated(d, pages, gapSize, j, k - 1);
    }
  }

  /** The end of the last page is the canvas extent along the stacking axis. */
  lemma StackEnd(d: Direction, pages: seq<Dim>, gapSize: nat)
    requires |pages| > 0
    ensures Offset(d, pages, gapSize, |pages|) == StackLength(d, pages, gapSize) + gapSize
  {
    OffsetClosedForm(d, pages, gapSize, |pages|);
    assert pages[..|pages|] == pages;
    assert |pages| * gapSize == (|pages| - 1) * gapSize + gapSize;
  }

  /** A page with both sides positive makes a canvas with both sides positive. */
  lemma PagesFillCanvas(d: Direction, pages: seq<Dim>, gapSize: nat)
    requires |pages| > 0
    requires forall k :: 0 <= k < |pages| ==> pages[k].width > 0 && pages[k].height > 0
    ensures CanvasSize(d, pages, gapSize).width > 0 && CanvasSize(d, pages, gapSize).height > 0
  {
    var last := pages[|pages| - 1];
    var across, length := MaxAcross(d, pages), StackLength(d, pages, gapSize);
    assert Across(d, last) <= across;
    assert SumAlong(d, pages) == SumAlong(d, pages[..|pages| - 1]) + Along(d, last);
    assert length >= SumAlong(d, pages) > 0;
    assert CanvasSize(d, pages, gapSize) == if d == Vertical then Dim(across, length) else Dim(length, across);
  }

  /**
   * Every page lies inside the canvas and is centred across it: the space
   * left on either side of it is the same.
   */
  lemma PlacedInsideCanvas(d: Direction, pages: seq<Dim>, gapSize: nat, k: nat)
    requires k < |pages|
    ensures var r := Placement(d, pages, gapSize, k);
            var size := CanvasSize(d, pages, gapSize);
            && r.width == pages[k].width && r.height == pages[k].height
            && 0.0 <= r.x && r.x + r.width as real <= size.width as real
            && 0.0 <= r.y && r.y + r.height as real <= size.height as real
            && (if d == Vertical then r.x == size.width as real - (r.x + r.width as real)
                else r.y == size.height as real - (r.y + r.height as real))
  {
    StackEnd(d, pages, gapSize);
    if k < |pages| - 1 {
      OffsetsSeparated(d, pages, gapSize, k, |pages|);
    }
  }

  /** Along the stacking axis pages never overlap: page j ends a gap before page k starts. */
  lemma PlacementsDisjoint(d: Direction, pages: seq<Dim>, gapSize: nat, j: nat, k: nat)
    requires j < k < |pages|
    ensures var a, b := Placement(d, pages, gapSize, j), Placement(d, pages, gapSize, k);
            if d == Vertical then a.y + a.height as real + gapSize as real <= b.y
            else a.x + a.width as real + gapSize as real <= b.x
  {
    OffsetsSeparated(d, pages, gapSize, j, k);
  }

  /** A single page fills the canvas exactly: no gap is added and nothing is offset. */
  lemma SinglePage(d: Direction, p: Dim, gapSize: nat)
    ensures CanvasSize(d, [p], gapSize) == p
    ensures Placement(d, [p], gapSize, 0) == Rect(0.0, 0.0, p.width, p.height)
  {
    assert [p][..0] == [];
    assert SumAlong(d, [p]) == Along(d, p);
  }

  /** Each border, when drawn, is stroked exactly on the rectangle its page was just drawn at. */
  lemma {:induction false} BordersOnPages(d: Direction, pages: seq<Dim>, gapSize: nat, border: bool, lineWidth: nat, m: nat, t: nat)
    requires m <= |pages|
    requires t < |PagesOps(d, pages, gapSize, border, lineWidth, m)|
    ensures |PagesOps(d, pages, gapSize, border, lineWidth, m)| == if border then 2 * m else m
    ensures var op := PagesOps(d, pages, gapSize, border, lineWidth, m)[t];
            if border then
              if t % 2 == 0 then op == DrawImage(t / 2, Placement(d, pages, gapSize, t / 2))
              else op == StrokeRect(Placement(d, pages, gapSize, t / 2), Gray200, lineWidth)
            else op == DrawImage(t, Placement(d, pages, gapSize, t))
  {
    var ops := PagesOps(d, pages, gapSize, border, lineWidth, m);
    var before := PagesOps(d, pages, gapSize, border, lineWidth, m - 1);
    var n := if border then 2 * (m - 1) else m - 1;
    PagesOpsLength(d, pages, gapSize, border, lineWidth, m - 1);
    if t < n {
      BordersOnPages(d, pages, gapSize, border, lineWidth, m - 1, t);
      assert ops[t] == before[t];
    }
  }

  lemma {:induction false} PagesOpsLength(d: Direction, pages: seq<Dim>, gapSize: nat, border: bool, lineWidth: nat, m: nat)
    requires m <= |pages|
    ensures |PagesOps(d, pages, gapSize, border, lineWidth, m)| == if border then 2 * m else m
  {
    if m > 0 {
      PagesOpsLength(d, pages, gapSize, border, lineWidth, m - 1);
    }
  }

  /** The page size with width and height exchanged. */
  function Transpose(p: Dim): Dim {
    Dim(p.height, p.width)
  }

  function TransposeAll(pages: seq<Dim>): (t: seq<Dim>)
    ensures |t| == |pages|
  {
    seq(|pages|, k requires 0 <= k < |pages| => Transpose(pages[k]))
  }

  /** The rectangle mirrored in the canvas diagonal. */
  function TransposeRect(r: Rect): Rect {
    Rect(r.y, r.x, r.height, r.width)
  }

  function TransposeOp(op: DrawOp): DrawOp {
    match op
    case FillRect(r, colour) => FillRect(TransposeRect(r), colour)
    case DrawImage(k, r) => DrawImage(k, TransposeRect(r))
    case StrokeRect(r, colour, w) => StrokeRect(TransposeRect(r), colour, w)
  }

  function TransposeOps(ops: seq<DrawOp>): (t: seq<DrawOp>)
    ensures |t| == |ops|
  {
    seq(|ops|, i requires 0 <= i < |ops| => TransposeOp(ops[i]))
  }

  /** The canvas mirrored in its diagonal: size swapped, every command mirrored. */
  function TransposeComposite(c: Composite): Composite {
    Composite(c.height, c.width, TransposeOps(c.ops))
  }

  lemma TransposeOpsAppend(a: seq<DrawOp>, b: seq<DrawOp>)
    ensures TransposeOps(a + b) == TransposeOps(a) + TransposeOps(b)
  {
  }

  lemma {:induction false} SumAlongMirror(pages: seq<Dim>)
    ensures SumAlong(Horizontal, pages) == SumAlong(Vertical, TransposeAll(pages))
  {
    if pages != [] {
      SumAlongMirror(pages[..|pages| - 1]);
      assert TransposeAll(pages)[..|pages| - 1] == TransposeAll(pages[..|pages| - 1]);
    }
  }

  lemma {:induction false} MaxAcrossMirror(pages: seq<Dim>)
    requires |pages| > 0
    ensures MaxAcross(Horizontal, pages) == MaxAcross(Vertical, TransposeAll(pages))
  {
    if |pages| > 1 {
      MaxAcrossMirror(pages[..|pages| - 1]);
      assert TransposeAll(pages)[..|pages| - 1] == TransposeAll(pages[..|pages| - 1]);
    }
  }

  lemma {:induction false} OffsetMirror(pages: seq<Dim>, gapSize: nat, k: nat)
    requires k <= |pages|
    ensures Offset(Horizontal, pages, gapSize, k) == Offset(Vertical, TransposeAll(pages), gapSize, k)
  {
    if k > 0 {
      OffsetMirror(pages, gapSize, k - 1);
    }
  }

  lemma PlacementMirror(pages: seq<Dim>, gapSize: nat, k: nat)
    requires k < |pages|
    ensures Placement(Horizontal, pages, gapSize, k) == TransposeRect(Placement(Vertical, TransposeAll(pages), gapSize, k))
  {
    MaxAcrossMirror(pages);
    OffsetMirror(pages, gapSize, k);
  }

  lemma {:induction false} PagesOpsMirror(pages: seq<Dim>, gapSize: nat, border: bool, lineWidth: nat, m: nat)
    requires m <= |pages|
    ensures PagesOps(Horizontal, pages, gapSize, border, lineWidth, m)
         == TransposeOps(PagesOps(Vertical, TransposeAll(pages), gapSize, border, lineWidth, m))
  {
    if m > 0 {
      var t := TransposeAll(pages);
      PagesOpsMirror(pages, gapSize, border, lineWidth, m - 1);
      PlacementMirror(pages, gapSize, m - 1);
      TransposeOpsAppend(PagesOps(Vertical, t, gapSize, border, lineWidth, m - 1),
                         PageOps(Vertical, t, gapSize, border, lineWidth, m - 1));
    }
  }

  /**
   * Horizontal stitching is vertical stitching of the transposed pages,
   * mirrored in the diagonal: the two branches of the stitcher agree.
   */
  lemma HorizontalMirrorsVertical(pages: seq<Dim>, gapSize: nat, border: bool, lineWidth: nat)
    requires |pages| > 0
    ensures Layout(Horizontal, pages, gapSize, border, lineWidth)
         == TransposeComposite(Layout(Vertical, TransposeAll(pages), gapSize, border, lineWidth))
  {
    var t := TransposeAll(pages);
    SumAlongMirror(pages);
    MaxAcrossMirror(pages);
    PagesOpsMirror(pages, gapSize, border, lineWidth, |pages|);
    var size := CanvasSize(Vertical, t, gapSize);
    TransposeOpsAppend([FillRect(Rect(0.0, 0.0, size.width, size.height), White)],
                       PagesOps(Vertical, t, gapSize, border, lineWidth, |pages|));
  }
}

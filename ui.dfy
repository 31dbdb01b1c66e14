/** Drawing the switcher (src/ui.rs) as the rectangles, lines and strings the
    X requests would carry: the grid of cells, the pixels of each icon split
    into a black and a white batch, the selection box, the title bar and the
    shortening of long titles. */
module Ui {
  import opened Base
  import opened Utf8
  import opened XServer
  import opened Icons

  /** A window shown in the switcher. */
  datatype WindowInfo = WindowInfo(wid: Window, title: string, icon: BwIcon)

  /** The grid parameters chosen by the layout calculation. */
  datatype Layout = Layout(cols: u16, iconSize: u16, padding: u16, winWidth: u16)

  /** The two graphics contexts: black ink (`gc`) and white ink (`gc_inv`). */
  datatype Gc = Normal | Inverted

  datatype Rect = Rect(x: int, y: int, width: int, height: int)

  /** One drawing request: `poly_fill_rectangle`, `poly_line` or `image_text8`. */
  datatype DrawOp =
    | FillRects(gc: Gc, rects: seq<Rect>)
    | Line(gc: Gc, x0: int, y0: int, x1: int, y1: int)
    | Text(gc: Gc, x: int, y: int, bytes: seq<byte>)

  const TitleHeight: nat := 24
  const IconPadding: nat := 2

  predicate Overlap(a: Rect, b: Rect) {
    a.x < b.x + b.width && b.x < a.x + a.width && a.y < b.y + b.height && b.y < a.y + a.height
  }

  /** An index below r*c lies in one of the first r rows of a c-wide grid. */
  lemma RowBelow(i: nat, r: nat, c: int)
    requires c > 0 && i < r * c
    ensures 0 <= i / c < r && 0 <= i % c < c
  {
  }

  /** The row and column of an index determine it. */
  lemma IndexOfRowColumn(k: nat, w: nat)
    requires w > 0
    ensures k == (k / w) * w + k % w
  {
  }

  /** The bottom of a cell in row i / c is within r rows when i < r*c. */
  lemma RowBottom(i: nat, r: nat, c: int, p: nat)
    requires c > 0 && i < r * c
    ensures 0 <= (i / c) * p && (i / c) * p + p <= r * p
  {
    MulLeMono(0, i / c, p);
    RowBelow(i, r, c);
    MulLeMono(i / c + 1, r, p);
    assert (i / c + 1) * p == (i / c) * p + p;
  }

  // ---------------------------------------------------------------------
  // Grid geometry (`draw_switcher`, `draw_title_bar`)

  /** Distance between the origins of neighbouring cells. */
  function Pitch(l: Layout): nat { l.iconSize + l.padding }

  /** Origin of window i's cell: column i mod cols, row i / cols. */
  function CellX(i: nat, l: Layout): int
    requires l.cols >= 1
  {
    l.padding + (i % l.cols) * Pitch(l)
  }

  function CellY(i: nat, l: Layout): int
    requires l.cols >= 1
  {
    l.padding + (i / l.cols) * Pitch(l)
  }

  /** The square cleared for window i before its icon is drawn. */
  function CellRect(i: nat, l: Layout): Rect
    requires l.cols >= 1
  {
    Rect(CellX(i, l), CellY(i, l), l.iconSize, l.iconSize)
  }

  /** Two different windows never share a pixel of their cells. */
  lemma CellsDisjoint(i: nat, j: nat, l: Layout)
    requires l.cols >= 1 && i != j
    ensures !Overlap(CellRect(i, l), CellRect(j, l))
  {
    var c := l.cols as int;
    var p := Pitch(l);
    var a, b := CellRect(i, l), CellRect(j, l);
    DistinctRowOrColumn(i, j, c);
    if i / c != j / c {
      ApartByPitch(i / c, j / c, p);
      assert a.y == l.padding + (i / c) * p && b.y == l.padding + (j / c) * p;
      assert a.y + a.height <= b.y || b.y + b.height <= a.y;
    } else {
      ApartByPitch(i % c, j % c, p);
      assert a.x == l.padding + (i % c) * p && b.x == l.padding + (j % c) * p;
      assert a.x + a.width <= b.x || b.x + b.width <= a.x;
    }
  }

  /** Different indices differ in their row or in their column. */
  lemma DistinctRowOrColumn(i: nat, j: nat, c: int)
    requires c > 0 && i != j
    ensures i / c != j / c || i % c != j % c
    ensures 0 <= i / c && 0 <= j / c
  {
    IndexOfRowColumn(i, c);
    IndexOfRowColumn(j, c);
  }

  /** Two different slots of a row or column are at least a pitch apart. */
  lemma ApartByPitch(a: nat, b: nat, p: nat)
    requires a != b
    ensures a * p + p <= b * p || b * p + p <= a * p
  {
    if a < b {
      MulLeMono(a + 1, b, p);
      assert (a + 1) * p == a * p + p;
    } else {
      MulLeMono(b + 1, a, p);
      assert (b + 1) * p == b * p + p;
    }
  }

  /** `rows` in `draw_title_bar`: n / cols rounded up, at least one (n read as a u16). */
  function Rows(n: nat, cols: u16): nat
    requires cols >= 1
  {
    Max(1, (TruncU16(n) + cols - 1) / cols)
  }

  /** The row count is the ceiling of n / cols: just enough rows for n windows. */
  lemma RowsIsCeiling(n: nat, cols: u16)
    requires cols >= 1 && n < 0x1_0000
    ensures n == 0 ==> Rows(n, cols) == 1
    ensures n >= 1 ==> (Rows(n, cols) - 1) * cols < n <= Rows(n, cols) * cols
  {
    if n >= 1 {
      var c := cols as int;
      var q := (n + c - 1) / c;
      assert q * c + (n + c - 1) % c == n + c - 1;
      assert (n + c - 1) / c >= 1;
      assert Rows(n, cols) == q;
      assert (q - 1) * c == q * c - c;
    }
  }

  lemma RowsCover(n: nat, cols: u16)
    requires cols >= 1 && n < 0x1_0000
    ensures n <= Rows(n, cols) * cols
  {
    RowsIsCeiling(n, cols);
  }

  /** The top of the title bar: below every row of cells and one padding. */
  function TitleY(n: nat, l: Layout): int
    requires l.cols >= 1
  {
    Rows(n, l.cols) * Pitch(l) + l.padding
  }

  /** Every cell lies inside the window's width and above the title bar, with
      a padding's margin on every side. */
  lemma CellInsideGrid(i: nat, n: nat, l: Layout)
    requires l.cols >= 1 && i < n < 0x1_0000
    requires l.winWidth == l.cols * Pitch(l) + l.padding
    ensures l.padding <= CellX(i, l) && CellX(i, l) + l.iconSize + l.padding <= l.winWidth
    ensures l.padding <= CellY(i, l) && CellY(i, l) + l.iconSize + l.padding <= TitleY(n, l)
  {
    CellXInside(i, l);
    CellYInside(i, n, l);
  }

  lemma CellXInside(i: nat, l: Layout)
    requires l.cols >= 1
    requires l.winWidth == l.cols * Pitch(l) + l.padding
    ensures l.padding <= CellX(i, l) && CellX(i, l) + l.iconSize + l.padding <= l.winWidth
  {
    var c := l.cols as int;
    var p := Pitch(l);
    var col := i % c;
    MulLeMono(col + 1, c, p);
    assert CellX(i, l) == l.padding + col * p;
    assert (col + 1) * p == col * p + p;
  }

  lemma CellYInside(i: nat, n: nat, l: Layout)
    requires l.cols >= 1 && i < n < 0x1_0000
    ensures l.padding <= CellY(i, l) && CellY(i, l) + l.iconSize + l.padding <= TitleY(n, l)
  {
    var r := Rows(n, l.cols);
    RowsCover(n, l.cols);
    RowBottom(i, r, l.cols, Pitch(l));
    assert TitleY(n, l) == r * Pitch(l) + l.padding;
    assert CellY(i, l) == l.padding + (i / l.cols) * Pitch(l);
  }

  // ---------------------------------------------------------------------
  // Drawing one icon (`draw_icon`)

  /** Offset that centres an icon of width w in a cell (Rust's `/` on i16). */
  function CentreOffset(cell: int, w: int): int {
    Quot(cell - w, 2)
  }

  /** An icon no wider than its cell sits inside it, with the two margins
      differing by at most one pixel. */
  lemma CentredInCell(cell: int, w: int)
    requires 0 <= w <= cell
    ensures 0 <= CentreOffset(cell, w) && CentreOffset(cell, w) + w <= cell
    ensures 0 <= (cell - w - CentreOffset(cell, w)) - CentreOffset(cell, w) <= 1
  {
  }

  /** Whether pixel k of the icon is black; an index beyond `data` reads as white. */
  predicate InkAt(icon: BwIcon, k: nat) {
    k < |icon.data| && icon.data[k]
  }

  /** The 1x1 rectangle of row-major pixel k, with the icon's corner at (ox, oy). */
  function PixelRect(icon: BwIcon, ox: int, oy: int, k: nat): Rect
    requires icon.width > 0
  {
    Rect(ox + k % icon.width, oy + k / icon.width, 1, 1)
  }

  /** The rectangles of the black pixels among the first n, in row-major order. */
  function InkRects(icon: BwIcon, ox: int, oy: int, n: nat): (rs: seq<Rect>)
    requires icon.width > 0 || n == 0
    ensures forall r :: r in rs ==> r.width == 1 && r.height == 1
  {
    if n == 0 then []
    else InkRects(icon, ox, oy, n - 1) + (if InkAt(icon, n - 1) then [PixelRect(icon, ox, oy, n - 1)] else [])
  }

  /** The selection box: the icon's square grown by two pixels on every side. */
  function SelectionBox(ox: int, oy: int, w: int): Rect {
    Rect(ox - IconPadding, oy - IconPadding, w + 2 * IconPadding, w + 2 * IconPadding)
  }

  /** What `draw_icon` sends for an icon in the cell at (x, y): the selection
      box first when selected, then the black pixels in black, or, when
      selected, in white on the box. An empty batch is not sent. */
  function IconOps(icon: BwIcon, x: int, y: int, cell: int, selected: bool): seq<DrawOp>
  {
    var w := icon.width as int;
    var ox, oy := x + CentreOffset(cell, w), y + CentreOffset(cell, w);
    var ink := InkRects(icon, ox, oy, icon.width * icon.height);
    if selected then
      [FillRects(Normal, [SelectionBox(ox, oy, w)])] + (if ink == [] then [] else [FillRects(Inverted, ink)])
    else if ink == [] then []
    else [FillRects(Normal, ink)]
  }

  /** One more pixel of row iy: its square is appended exactly when it is black. */
  lemma InkRectsStep(icon: BwIcon, ox: int, oy: int, ix: nat, iy: nat, k: nat)
    requires ix < icon.width && k == iy * icon.width + ix
    ensures InkRects(icon, ox, oy, k + 1)
         == InkRects(icon, ox, oy, k) + (if InkAt(icon, k) then [SquareAt(ox, oy, ix, iy)] else [])
  {
    RowMajor(ix, iy, icon.width);
  }

  /** `draw_icon`: nested loops collecting the black pixels into the batch
      of the colour they are drawn in. */
  method DrawIcon(x: int, y: int, cell: int, icon: BwIcon, selected: bool) returns (ops: seq<DrawOp>)
    ensures ops == IconOps(icon, x, y, cell, selected)
  {
    var w: nat := icon.width;
    var iconX := x + Quot(cell - w, 2);
    var iconY := y + Quot(cell - w, 2);
    ops := [];
    if selected {
      ops := [FillRects(Normal, [Rect(iconX - IconPadding, iconY - IconPadding, w + 2 * IconPadding, w + 2 * IconPadding)])];
    }
    var black: seq<Rect>, white: seq<Rect> := [], [];
    // the black pixels visited so far, whichever batch they went to
    ghost var ink: seq<Rect>, done := [], 0;
    var iy := 0;
    while iy < icon.height
      invariant 0 <= iy <= icon.height && done == iy * w
      invariant ink == InkRects(icon, iconX, iconY, done)
      invariant selected ==> white == ink && black == []
      invariant !selected ==> black == ink && white == []
    {
      var ix := 0;
      while ix < icon.width
        invariant 0 <= ix <= icon.width && done == iy * w + ix
        invariant ink == InkRects(icon, iconX, iconY, done)
        invariant selected ==> white == ink && black == []
        invariant !selected ==> black == ink && white == []
      {
        var idx := iy * w + ix;
        var isBlack := idx < |icon.data| && icon.data[idx];
        var rect := Rect(iconX + ix, iconY + iy, 1, 1);
        if selected {
          if isBlack {
            white := white + [rect];
          }
        } else if isBlack {
          black := black + [rect];
        }
        InkRectsStep(icon, iconX, iconY, ix, iy, done);
        ink := ink + if isBlack then [rect] else [];
        ix := ix + 1;
        done := done + 1;
      }
      assert iy * w + w == (iy + 1) * w;
      iy := iy + 1;
    }
    assert icon.height * w == icon.width * icon.height;
    assert ink == InkRects(icon, iconX, iconY, icon.width * icon.height);
    assert iconX == x + CentreOffset(cell, w) && iconY == y + CentreOffset(cell, w);
    if black != [] {
      ops := ops + [FillRects(Normal, black)];
    }
    if white != [] {
      ops := ops + [FillRects(Inverted, white)];
    }
  }

  /** The batch holds exactly the rectangles of black pixels among the first n. */
  lemma {:induction false} InkRectsMembers(icon: BwIcon, ox: int, oy: int, n: nat)
    requires icon.width > 0
    ensures forall r :: r in InkRects(icon, ox, oy, n) <==>
      exists k :: 0 <= k < n && InkAt(icon, k) && r == PixelRect(icon, ox, oy, k)
  {
    if n > 0 {
      InkRectsMembers(icon, ox, oy, n - 1);
    }
  }

  /** The 1x1 square of pixel (ix, iy) of an icon whose corner is at (ox, oy). */
  function SquareAt(ox: int, oy: int, ix: nat, iy: nat): Rect {
    Rect(ox + ix, oy + iy, 1, 1)
  }

  /** Pixel batching in two dimensions: the square at (ox + ix, oy + iy) is
      in the batch exactly when pixel (ix, iy) is black, and nothing outside
      the icon's w-by-h area is. */
  lemma InkRectsAreBlackPixels(icon: BwIcon, ox: int, oy: int)
    requires icon.width > 0
    ensures forall ix: nat, iy: nat :: ix < icon.width && iy < icon.height ==>
      (SquareAt(ox, oy, ix, iy) in InkRects(icon, ox, oy, icon.width * icon.height)
       <==> InkAt(icon, iy * icon.width + ix))
    ensures forall r :: r in InkRects(icon, ox, oy, icon.width * icon.height) ==>
      ox <= r.x < ox + icon.width && oy <= r.y < oy + icon.height
  {
    forall ix: nat, iy: nat | ix < icon.width && iy < icon.height
      ensures SquareAt(ox, oy, ix, iy) in InkRects(icon, ox, oy, icon.width * icon.height)
          <==> InkAt(icon, iy * icon.width + ix)
    {
      SquareInBatch(icon, ox, oy, ix, iy);
    }
    InkRectsInsideIcon(icon, ox, oy);
  }

  lemma InkRectsInsideIcon(icon: BwIcon, ox: int, oy: int)
    requires icon.width > 0
    ensures forall r :: r in InkRects(icon, ox, oy, icon.width * icon.height) ==>
      ox <= r.x < ox + icon.width && oy <= r.y < oy + icon.height
  {
    var n := icon.width * icon.height;
    assert n == icon.height * icon.width;
    InkRectsMembers(icon, ox, oy, n);
    forall r | r in InkRects(icon, ox, oy, n)
      ensures ox <= r.x < ox + icon.width && oy <= r.y < oy + icon.height
    {
      var k :| 0 <= k < n && InkAt(icon, k) && r == PixelRect(icon, ox, oy, k);
      RowBelow(k, icon.height, icon.width);
    }
  }

  lemma SquareInBatch(icon: BwIcon, ox: int, oy: int, ix: nat, iy: nat)
    requires ix < icon.width && iy < icon.height
    ensures SquareAt(ox, oy, ix, iy) in InkRects(icon, ox, oy, icon.width * icon.height)
        <==> InkAt(icon, iy * icon.width + ix)
  {
    var w := icon.width as int;
    var n := icon.width * icon.height;
    var k0 := iy * w + ix;
    var sq := SquareAt(ox, oy, ix, iy);
    assert PixelRect(icon, ox, oy, k0) == sq by {
      RowMajor(ix, iy, w);
    }
    assert k0 < n by {
      IndexInGrid(ix, iy, w, icon.height);
    }
    InkRectsMembers(icon, ox, oy, n);
    if sq in InkRects(icon, ox, oy, n) {
      var k :| 0 <= k < n && InkAt(icon, k) && sq == PixelRect(icon, ox, oy, k);
      PixelRectInjective(icon, ox, oy, k, k0);
    }
  }

  /** Different pixels have different squares. */
  lemma PixelRectInjective(icon: BwIcon, ox: int, oy: int, k: nat, k': nat)
    requires icon.width > 0 && PixelRect(icon, ox, oy, k) == PixelRect(icon, ox, oy, k')
    ensures k == k'
  {
    IndexOfRowColumn(k, icon.width);
    IndexOfRowColumn(k', icon.width);
  }

  /** Whether some black fill carries a rectangle larger than a pixel. */
  predicate Highlighted(ops: seq<DrawOp>) {
    exists j, r :: 0 <= j < |ops| && ops[j].FillRects? && ops[j].gc == Normal && r in ops[j].rects && r.width > 1
  }

  /** The selection box is drawn exactly when the icon is the selected one. */
  lemma HighlightMarksSelection(icon: BwIcon, x: int, y: int, cell: int, selected: bool)
    ensures Highlighted(IconOps(icon, x, y, cell, selected)) <==> selected
  {
    var w := icon.width as int;
    var ox, oy := x + CentreOffset(cell, w), y + CentreOffset(cell, w);
    var ops := IconOps(icon, x, y, cell, selected);
    if selected {
      assert SelectionBox(ox, oy, w) in ops[0].rects;
    }
  }

  // ---------------------------------------------------------------------
  // Drawing the whole switcher (`draw_switcher`)

  /** What is sent for window i: its cell cleared in white, then its icon,
      highlighted when i is the selection. */
  function CellOps(wins: seq<WindowInfo>, i: nat, selected: nat, l: Layout): seq<DrawOp>
    requires l.cols >= 1 && i < |wins|
  {
    [FillRects(Inverted, [CellRect(i, l)])]
    + IconOps(wins[i].icon, CellX(i, l), CellY(i, l), l.iconSize, i == selected)
  }

  /** Exactly the cell whose index is the selection is drawn highlighted. */
  lemma CellHighlightedIffSelected(wins: seq<WindowInfo>, i: nat, selected: nat, l: Layout)
    requires l.cols >= 1 && i < |wins|
    ensures Highlighted(CellOps(wins, i, selected, l)) <==> i == selected
  {
    var icon := IconOps(wins[i].icon, CellX(i, l), CellY(i, l), l.iconSize, i == selected);
    var ops := CellOps(wins, i, selected, l);
    HighlightMarksSelection(wins[i].icon, CellX(i, l), CellY(i, l), l.iconSize, i == selected);
    assert forall j :: 1 <= j < |ops| ==> ops[j] == icon[j - 1];
    if Highlighted(ops) {
      var j, r :| 0 <= j < |ops| && ops[j].FillRects? && ops[j].gc == Normal && r in ops[j].rects && r.width > 1;
      assert j >= 1;
      assert icon[j - 1] == ops[j];
    }
    if i == selected {
      var j, r :| 0 <= j < |icon| && icon[j].FillRects? && icon[j].gc == Normal && r in icon[j].rects && r.width > 1;
      assert ops[j + 1] == icon[j];
    }
  }

  /** The operations for the first n cells, in window order. */
  function CellsOps(wins: seq<WindowInfo>, selected: nat, l: Layout, n: nat): seq<DrawOp>
    requires l.cols >= 1 && n <= |wins|
  {
    if n == 0 then [] else CellsOps(wins, selected, l, n - 1) + CellOps(wins, n - 1, selected, l)
  }

  /** x of the title text: centred on its 6-pixel-wide glyphs, at least 4. */
  function TextX(len: nat, w: int): int {
    Max(4, Quot(w - 6 * len, 2))
  }

  /** What `draw_title_bar` sends: the cleared bar, its separator line and,
      when the selection is a real window, its shortened title. */
  function TitleBarOps(wins: seq<WindowInfo>, selected: nat, l: Layout): seq<DrawOp>
    requires l.cols >= 1
  {
    var ty := TitleY(|wins|, l);
    [FillRects(Inverted, [Rect(0, ty, l.winWidth, TitleHeight)]), Line(Normal, 0, ty, l.winWidth, ty)]
    + (if selected < |wins| then
         var shown := Encode(TruncateTitle(wins[selected].title, l.winWidth));
         [Text(Normal, TextX(|shown|, l.winWidth), ty + 16, shown)]
       else [])
  }

  /** Everything one `draw_switcher` call sends. */
  function SwitcherOps(wins: seq<WindowInfo>, selected: nat, l: Layout): seq<DrawOp>
    requires l.cols >= 1
  {
    CellsOps(wins, selected, l, |wins|) + TitleBarOps(wins, selected, l)
  }

  /** `draw_switcher`: one cell after another, then the title bar. */
  method DrawSwitcher(wins: seq<WindowInfo>, selected: nat, l: Layout) returns (ops: seq<DrawOp>)
    requires l.cols >= 1
    ensures ops == SwitcherOps(wins, selected, l)
  {
    ops := DrawCells(wins, selected, l);
    ops := ops + TitleBarOps(wins, selected, l);
  }

  /** The loop of `draw_switcher` over the windows: each cell cleared, then its icon. */
  method DrawCells(wins: seq<WindowInfo>, selected: nat, l: Layout) returns (ops: seq<DrawOp>)
    requires l.cols >= 1
    ensures ops == CellsOps(wins, selected, l, |wins|)
  {
    ops := [];
    for i := 0 to |wins|
      invariant ops == CellsOps(wins, selected, l, i)
    {
      var cx, cy := CellX(i, l), CellY(i, l);
      var iconOps := DrawIcon(cx, cy, l.iconSize, wins[i].icon, i == selected);
      var cell := [FillRects(Inverted, [Rect(cx, cy, l.iconSize, l.iconSize)])] + iconOps;
      assert cell == CellOps(wins, i, selected, l);
      ops := ops + cell;
    }
  }

  /** A title shortened for a window at least 56 pixels wide is drawn inside
      it, at least 4 pixels from either edge. */
  lemma TitleTextInsideWindow(title: string, w: u16)
    requires w >= 56
    ensures var n := |Encode(TruncateTitle(title, w))|;
      4 <= TextX(n, w) && TextX(n, w) + 6 * n <= w - 4
  {
  }

  // ---------------------------------------------------------------------
  // Shortening titles (`truncate_title`)

  function SaturatingSub(a: nat, b: nat): nat {
    if a >= b then a - b else 0
  }

  /** The longest prefix of `s` whose UTF-8 encoding has at most k bytes. */
  function FloorPrefix(s: string, k: nat): (p: string)
    ensures |p| <= |s| && p == s[..|p|]
    ensures |Encode(p)| <= k
    ensures |p| < |s| ==> k < |Encode(p)| + |EncodeChar(s[|p|])|
    decreases |s|
  {
    if s == [] || |EncodeChar(s[0])| > k then []
    else
      var q := FloorPrefix(s[1..], k - |EncodeChar(s[0])|);
      assert ([s[0]] + q)[1..] == q;
      [s[0]] + q
  }

  /** `&s[..k]` in Rust: the prefix whose encoding is exactly the first k
      bytes, or `None` (a panic) when byte k is not a character boundary. */
  function BytePrefix(s: string, k: nat): (r: Option<string>)
    ensures r.Some? ==> |Encode(r.value)| == k && |r.value| <= |s| && r.value == s[..|r.value|]
    decreases |s|
  {
    if k == 0 then Some([])
    else if s == [] || |EncodeChar(s[0])| > k then None
    else match BytePrefix(s[1..], k - |EncodeChar(s[0])|)
      case None => None
      case Some(q) =>
        assert ([s[0]] + q)[1..] == q;
        Some([s[0]] + q)
  }

  /** Where slicing succeeds, it cuts where the longest fitting prefix ends;
      where it would panic, the longest fitting prefix stops short of k. */
  lemma BytePrefixIsFloorPrefix(s: string, k: nat)
    ensures BytePrefix(s, k).Some? ==> BytePrefix(s, k).value == FloorPrefix(s, k)
    ensures BytePrefix(s, k).None? && k <= |Encode(s)| ==> |Encode(FloorPrefix(s, k))| < k
  {
    if BytePrefix(s, k).Some? {
      BytePrefixSomeIsFloor(s, k);
    } else if k <= |Encode(s)| {
      BytePrefixNoneFallsShort(s, k);
    }
  }

  lemma {:induction false} BytePrefixSomeIsFloor(s: string, k: nat)
    requires BytePrefix(s, k).Some?
    ensures BytePrefix(s, k).value == FloorPrefix(s, k)
    decreases |s|
  {
    if k > 0 {
      BytePrefixSomeIsFloor(s[1..], k - |EncodeChar(s[0])|);
    }
  }

  lemma {:induction false} BytePrefixNoneFallsShort(s: string, k: nat)
    requires BytePrefix(s, k).None? && k <= |Encode(s)|
    ensures |Encode(FloorPrefix(s, k))| < k
    decreases |s|
  {
    var c := s[0];
    if |EncodeChar(c)| <= k {
      var k' := k - |EncodeChar(c)|;
      assert |Encode(s)| == |EncodeChar(c)| + |Encode(s[1..])|;
      BytePrefixNoneFallsShort(s[1..], k');
      var q := FloorPrefix(s[1..], k');
      assert ([c] + q)[0] == c && ([c] + q)[1..] == q;
      assert |Encode([c] + q)| == |EncodeChar(c)| + |Encode(q)|;
    }
  }

  /** In a title of ASCII characters every byte offset is a boundary. */
  lemma {:induction false} AsciiBytePrefix(s: string, k: nat)
    requires forall i :: 0 <= i < |s| ==> (s[i] as int) < 0x80
    requires k <= |s|
    ensures BytePrefix(s, k).Some?
    decreases |s|
  {
    if k > 0 {
      AsciiBytePrefix(s[1..], k - 1);
    }
  }

  /** `truncate_title` as written: `None` stands for the panic of slicing
      inside a multi-byte character. */
  function TruncateTitleAsWritten(title: string, w: u16): Option<string>
  {
    var maxChars := w / 7;
    if |Encode(title)| > maxChars then
      match BytePrefix(title, SaturatingSub(maxChars, 3))
      case None => None
      case Some(p) => Some(p + "...")
    else Some(title)
  }

  /** `truncate_title` with the cut moved back to the previous character
      boundary: a title that fits is kept; a longer one becomes its longest
      prefix of at most w/7 - 3 bytes followed by "...". */
  function TruncateTitle(title: string, w: u16): (r: string)
    ensures |Encode(title)| <= w / 7 ==> r == title
    ensures |Encode(r)| <= Max(w / 7, 3)
    ensures |Encode(title)| > w / 7 ==>
      3 <= |r| && |r| - 3 < |title| && r[|r| - 3..] == "..." && r[..|r| - 3] == title[..|r| - 3]
      && |Encode(r)| + 3 >= Max(w / 7, 3)
  {
    var maxChars := w / 7;
    if |Encode(title)| > maxChars then
      var p := FloorPrefix(title, SaturatingSub(maxChars, 3));
      assert |p| < |title| by {
        if |p| == |title| {
          assert p == title;
        }
      }
      EncodeAppend(p, "...");
      assert |Encode("...")| == 3;
      assert (p + "...")[..|p|] == p;
      p + "..."
    else title
  }

  /** Shortening twice is shortening once. */
  lemma TruncateTitleIdempotent(title: string, w: u16)
    ensures TruncateTitle(TruncateTitle(title, w), w) == TruncateTitle(title, w)
  {
  }

  /** Where the code as written does not panic, it agrees with the corrected
      definition; for ASCII titles it never panics. */
  lemma TruncateTitleAgrees(title: string, w: u16)
    ensures TruncateTitleAsWritten(title, w).Some? ==> TruncateTitleAsWritten(title, w).value == TruncateTitle(title, w)
    ensures (forall i :: 0 <= i < |title| ==> (title[i] as int) < 0x80) ==> TruncateTitleAsWritten(title, w).Some?
  {
    BytePrefixIsFloorPrefix(title, SaturatingSub(w / 7, 3));
    if forall i :: 0 <= i < |title| ==> (title[i] as int) < 0x80 {
      if |Encode(title)| > w / 7 {
        AsciiEncodeLength(title);
        AsciiBytePrefix(title, SaturatingSub(w / 7, 3));
      }
    }
  }

  lemma {:induction false} AsciiEncodeLength(s: string)
    requires forall i :: 0 <= i < |s| ==> (s[i] as int) < 0x80
    ensures |Encode(s)| == |s|
  {
    if s != [] {
      AsciiEncodeLength(s[1..]);
    }
  }

  /** What the code as written returns when it does not panic: a title that
      fits unchanged; a longer one cut to exactly max(w/7, 3) bytes, the last
      three being "...". */
  lemma TruncateTitleAsWrittenLength(title: string, w: u16)
    ensures |Encode(title)| <= w / 7 ==> TruncateTitleAsWritten(title, w) == Some(title)
    ensures |Encode(title)| > w / 7 && TruncateTitleAsWritten(title, w).Some? ==>
      var r := TruncateTitleAsWritten(title, w).value;
      && |Encode(r)| == Max(w / 7, 3)
      && 3 <= |r| <= |title| + 3 && r[|r| - 3..] == "..." && r[..|r| - 3] == title[..|r| - 3]
  {
    var k := SaturatingSub(w / 7, 3);
    if |Encode(title)| > w / 7 && BytePrefix(title, k).Some? {
      var p := BytePrefix(title, k).value;
      EncodeAppend(p, "...");
      assert |Encode("...")| == 3;
      assert (p + "...")[..|p|] == p;
    }
  }

  /** The panic: "aéééééé" is 13 bytes, more than the 9 a 64-pixel window
      allows, and byte 6 falls inside the third "é". */
  lemma TruncateTitleAsWrittenPanics()
    ensures TruncateTitleAsWritten("a\U{E9}\U{E9}\U{E9}\U{E9}\U{E9}\U{E9}", 64).None?
  {
    var title := "a\U{E9}\U{E9}\U{E9}\U{E9}\U{E9}\U{E9}";
    assert |EncodeChar('\U{E9}')| == 2 && |EncodeChar('a')| == 1;
    assert title[1..][1..][1..][1..] == "\U{E9}\U{E9}\U{E9}";
    assert BytePrefix(title[1..][1..][1..], 1).None?;
    assert BytePrefix(title[1..][1..], 3).None?;
    assert BytePrefix(title[1..], 5).None?;
    assert BytePrefix(title, 6).None?;
    assert |Encode(title)| >= 13;
    assert SaturatingSub(64 / 7, 3) == 6;
  }
}

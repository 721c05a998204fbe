/**
 * The window arrangement of the curses interface: live windows in slot order are cut into groups, groups into rows,
 * and rows into frames.
 */
module Tiling {
  import Bits

  const MIN_WIN_HEIGHT := 3
  const MIN_WIN_WIDTH := 30

  /** What the arrangement looks at in a window; `height` is 0 for windows of flexible height. */
  datatype Pane = Pane(oneline: bool, height: nat)

  datatype Rect = Rect(y: nat, x: nat, h: int, w: int)

  predicate Disjoint(a: Rect, b: Rect) {
    a.y + a.h <= b.y || b.y + b.h <= a.y || a.x + a.w <= b.x || b.x + b.w <= a.x
  }

  predicate OnScreen(a: Rect, lines: nat, cols: nat) {
    0 <= a.h && 0 <= a.w && a.y + a.h <= lines && a.x + a.w <= cols
  }

  // ----- groups and rows -----

  function Close(open: nat): seq<nat> {
    if open > 0 then [open] else []
  }

  /** `split[]`: a full-width window is a group of its own, the windows between two of them share a group. */
  function Groups(live: seq<Pane>, open: nat): seq<nat> {
    if live == [] then Close(open)
    else if live[0].oneline then Close(open) + [1] + Groups(live[1..], 0)
    else Groups(live[1..], open + 1)
  }

  /** The rows of one group: full rows of `maxCols` windows and what is left over. */
  function RowsOf(n: nat, maxCols: nat): (r: seq<nat>)
    requires maxCols > 0
    decreases n
  {
    if n == 0 then [] else if n <= maxCols then [n] else [maxCols] + RowsOf(n - maxCols, maxCols)
  }

  /** `ncols[]` */
  function Rows(groups: seq<nat>, maxCols: nat): seq<nat>
    requires maxCols > 0
  {
    if groups == [] then [] else RowsOf(groups[0], maxCols) + Rows(groups[1..], maxCols)
  }

  /**
   * The rows cut the live windows into consecutive stretches, none wider than `maxCols`, and a window that wants the
   * full width is alone in its row.
   */
  predicate Cuts(rows: seq<nat>, live: seq<Pane>, maxCols: nat) {
    if rows == [] then live == []
    else
      1 <= rows[0] <= |live| && rows[0] <= maxCols &&
      (rows[0] > 1 ==> forall k | 0 <= k < rows[0] :: !live[k].oneline) &&
      Cuts(rows[1..], live[rows[0]..], maxCols)
  }

  lemma {:induction false} CutsConcat(r0: seq<nat>, l0: seq<Pane>, r1: seq<nat>, l1: seq<Pane>, maxCols: nat)
    requires Cuts(r0, l0, maxCols) && Cuts(r1, l1, maxCols)
    ensures Cuts(r0 + r1, l0 + l1, maxCols)
  {
    if r0 == [] {
      assert r0 + r1 == r1 && l0 + l1 == l1;
    } else {
      var n := r0[0];
      assert (r0 + r1)[1..] == r0[1..] + r1;
      assert (l0 + l1)[n..] == l0[n..] + l1;
      CutsConcat(r0[1..], l0[n..], r1, l1, maxCols);
    }
  }

  lemma {:induction false} RowsOfCuts(stretch: seq<Pane>, maxCols: nat)
    requires maxCols > 0
    requires |stretch| > 1 ==> forall k | 0 <= k < |stretch| :: !stretch[k].oneline
    ensures Cuts(RowsOf(|stretch|, maxCols), stretch, maxCols)
    decreases |stretch|
  {
    var n := |stretch|;
    if 0 < n <= maxCols {
      assert Cuts([], stretch[n..], maxCols);
      assert [n][1..] == [];
    } else if n > 0 {
      var rest := stretch[maxCols..];
      RowsOfCuts(rest, maxCols);
      assert ([maxCols] + RowsOf(n - maxCols, maxCols))[1..] == RowsOf(|rest|, maxCols);
    }
  }

  lemma {:induction false} RowsCutLive(live: seq<Pane>, open: seq<Pane>, maxCols: nat)
    requires maxCols > 0 && forall k | 0 <= k < |open| :: !open[k].oneline
    ensures Cuts(Rows(Groups(live, |open|), maxCols), open + live, maxCols)
    decreases |live|
  {
    hide *;
    GroupsAre(live, |open|);
    if live == [] {
      RowsOfCuts(open, maxCols);
      RowsOfClose(|open|, maxCols);
      assert open + live == open;
    } else if live[0].oneline {
      RowsCutLive(live[1..], [], maxCols);
      assert [] + live[1..] == live[1..];
      WideRow(live, open, Groups(live[1..], 0), maxCols);
    } else {
      var wider := open + [live[0]];
      RowsCutLive(live[1..], wider, maxCols);
      assert wider + live[1..] == open + live;
    }
  }

  lemma GroupsAre(live: seq<Pane>, open: nat)
    ensures Groups(live, open) ==
            if live == [] then Close(open)
            else if live[0].oneline then Close(open) + [1] + Groups(live[1..], 0)
            else Groups(live[1..], open + 1)
  {
    hide Close;
  }

  /** A full-width window closes the open group and makes a row of its own. */
  lemma WideRow(live: seq<Pane>, open: seq<Pane>, tail: seq<nat>, maxCols: nat)
    requires maxCols > 0 && live != [] && forall k | 0 <= k < |open| :: !open[k].oneline
    requires Cuts(Rows(tail, maxCols), live[1..], maxCols)
    ensures Cuts(Rows(Close(|open|) + [1] + tail, maxCols), open + live, maxCols)
  {
    hide *;
    RowsOfCuts(live[..1], maxCols);
    RowsOfClose(1, maxCols);
    RowsAppend([1], tail, maxCols);
    CutsConcat(Rows([1], maxCols), live[..1], Rows(tail, maxCols), live[1..], maxCols);
    assert live[..1] + live[1..] == live;
    RowsOfCuts(open, maxCols);
    RowsOfClose(|open|, maxCols);
    RowsAppend(Close(|open|), [1] + tail, maxCols);
    CutsConcat(Rows(Close(|open|), maxCols), open, Rows([1] + tail, maxCols), live, maxCols);
    assert Close(|open|) + [1] + tail == Close(|open|) + ([1] + tail);
  }

  lemma RowsOfClose(open: nat, maxCols: nat)
    requires maxCols > 0
    ensures Rows(Close(open), maxCols) == RowsOf(open, maxCols)
    ensures open > 0 ==> Close(open) == [open]
  {
    if open > 0 {
      assert [open][1..] == [];
    }
  }

  lemma {:induction false} RowsAppend(g0: seq<nat>, g1: seq<nat>, maxCols: nat)
    requires maxCols > 0
    ensures Rows(g0 + g1, maxCols) == Rows(g0, maxCols) + Rows(g1, maxCols)
  {
    if g0 == [] {
      assert g0 + g1 == g1;
    } else {
      assert (g0 + g1)[1..] == g0[1..] + g1;
      RowsAppend(g0[1..], g1, maxCols);
    }
  }

  // ----- frames -----

  function HeightOf(p: Pane, flex: nat): nat {
    if p.height > 0 then p.height else flex
  }

  /** The width of each of `n` columns. */
  function ColumnWidth(cols: nat, n: nat): nat
    requires n > 0
  {
    cols / n
  }

  /** Frames of the first `n` windows of a row of `width`-wide columns. */
  function RowFrames(row: seq<Pane>, flex: nat, width: nat, y: nat): (r: seq<Rect>)
    ensures |r| == |row|
    ensures forall j | 0 <= j < |r| :: r[j] == Rect(y, j * width, HeightOf(row[j], flex), width)
  {
    seq(|row|, j requires 0 <= j < |row| => Rect(y, j * width, HeightOf(row[j], flex), width))
  }

  /** The frames of all windows, the first row starting at screen line `y`. */
  function Frames(live: seq<Pane>, rows: seq<nat>, flex: nat, cols: nat, maxCols: nat, y: nat): (r: seq<Rect>)
    requires Cuts(rows, live, maxCols)
    ensures |r| == |live|
    decreases |rows|
  {
    if rows == [] then []
    else
      var n := rows[0];
      RowFrames(live[..n], flex, ColumnWidth(cols, n), y)
      + Frames(live[n..], rows[1..], flex, cols, maxCols, y + HeightOf(live[n - 1], flex))
  }

  /** Screen lines taken by all rows. */
  function Total(live: seq<Pane>, rows: seq<nat>, flex: nat, maxCols: nat): nat
    requires Cuts(rows, live, maxCols)
    decreases |rows|
  {
    if rows == [] then 0
    else HeightOf(live[rows[0] - 1], flex) + Total(live[rows[0]..], rows[1..], flex, maxCols)
  }

  function FixedSum(live: seq<Pane>): nat {
    if live == [] then 0 else live[0].height + FixedSum(live[1..])
  }

  function FixedCount(live: seq<Pane>): nat {
    if live == [] then 0 else (if live[0].height > 0 then 1 else 0) + FixedCount(live[1..])
  }

  /** Windows of fixed height always ask for the full width. */
  predicate FixedAreWide(live: seq<Pane>) {
    forall k | 0 <= k < |live| :: live[k].height > 0 ==> live[k].oneline
  }

  lemma {:induction false} NoneFixed(live: seq<Pane>, n: nat)
    requires n <= |live| && forall k | 0 <= k < n :: live[k].height == 0
    ensures FixedSum(live) == FixedSum(live[n..]) && FixedCount(live) == FixedCount(live[n..])
  {
    if n > 0 {
      NoneFixed(live[1..], n - 1);
      assert live[1..][n - 1..] == live[n..];
    } else {
      assert live[0..] == live;
    }
  }

  /** The first row takes the fixed height of its only window, or the flexible height. */
  lemma FirstRowHeight(live: seq<Pane>, n: nat, flex: nat)
    requires 1 <= n <= |live| && FixedAreWide(live)
    requires n > 1 ==> forall k | 0 <= k < n :: !live[k].oneline
    ensures FixedAreWide(live[n..])
    ensures var fixed := live[n - 1].height > 0;
            FixedCount(live) == (if fixed then 1 else 0) + FixedCount(live[n..]) &&
            FixedSum(live) == (if fixed then HeightOf(live[n - 1], flex) else 0) + FixedSum(live[n..]) &&
            (!fixed ==> HeightOf(live[n - 1], flex) == flex)
  {
    hide HeightOf;
    if n > 1 {
      NoneFixed(live, n);
    }
    HeightIs(live[n - 1], flex);
  }

  lemma HeightIs(p: Pane, flex: nat)
    ensures HeightOf(p, flex) == if p.height > 0 then p.height else flex
  {
  }

  /** Every fixed-height window has a row to itself, so the flexible rows can be counted by subtraction. */
  lemma {:induction false} RowHeights(live: seq<Pane>, rows: seq<nat>, flex: nat, maxCols: nat)
    requires Cuts(rows, live, maxCols) && FixedAreWide(live)
    ensures FixedCount(live) <= |rows|
    ensures Total(live, rows, flex, maxCols) == FixedSum(live) + (|rows| - FixedCount(live)) * flex
    decreases |rows|
  {
    hide FixedCount, FixedSum, FixedAreWide, HeightOf;
    if rows == [] {
      NothingFixed();
    } else {
      var n := rows[0];
      FirstRowHeight(live, n, flex);
      RowHeights(live[n..], rows[1..], flex, maxCols);
      var free := |rows[1..]| - FixedCount(live[n..]);
      assert (free + 1) * flex == free * flex + flex;
    }
  }

  lemma NothingFixed()
    ensures FixedCount([]) == 0 && FixedSum([]) == 0
  {
  }

  lemma WidthBounds(cols: nat, n: nat)
    requires n > 0
    ensures n * ColumnWidth(cols, n) <= cols < n * (ColumnWidth(cols, n) + 1)
    ensures n == 1 ==> ColumnWidth(cols, n) == cols
  {
    var w := cols / n;
    assert cols == n * w + cols % n;
    assert n * (w + 1) == n * w + n;
  }

  /** As many columns as the screen width allows are each at least the minimal width, and end on the screen. */
  lemma ColumnsFit(cols: nat, n: nat, j: nat)
    requires 0 <= j < n <= cols / MIN_WIN_WIDTH
    ensures ColumnWidth(cols, n) >= MIN_WIN_WIDTH
    ensures (j + 1) * ColumnWidth(cols, n) <= cols
    ensures n == 1 ==> ColumnWidth(cols, n) == cols
  {
    hide ColumnWidth;
    var w := ColumnWidth(cols, n);
    WidthBounds(cols, n);
    Bits.ProductOrder(j + 1, n, w);
    if w < MIN_WIN_WIDTH {
      Bits.ProductOrder(w + 1, MIN_WIN_WIDTH, n);
    }
  }

  // ----- geometry -----

  /** `f` arranges `live` from screen line `y` to `bottom`: the frames stay in the band and do not overlap. */
  ghost predicate Arranged(f: seq<Rect>, live: seq<Pane>, flex: nat, cols: nat, y: nat, bottom: nat) {
    |f| == |live| &&
    (forall k | 0 <= k < |f| :: y <= f[k].y && f[k].h == HeightOf(live[k], flex) && f[k].y + f[k].h <= bottom) &&
    (forall k | 0 <= k < |f| :: MIN_WIN_WIDTH <= f[k].w && f[k].x + f[k].w <= cols) &&
    (forall k | 0 <= k < |f| :: live[k].oneline ==> f[k].x == 0 && f[k].w == cols) &&
    (forall i, j | 0 <= i < j < |f| :: Disjoint(f[i], f[j])) &&
    (f != [] ==> f[|f| - 1].y + f[|f| - 1].h == bottom)
  }

  lemma RowArranged(row: seq<Pane>, flex: nat, cols: nat, y: nat)
    requires 1 <= |row| <= cols / MIN_WIN_WIDTH && FixedAreWide(row)
    requires |row| > 1 ==> forall k | 0 <= k < |row| :: !row[k].oneline
    ensures var n := |row|;
            Arranged(RowFrames(row, flex, ColumnWidth(cols, n), y), row, flex, cols, y, y + HeightOf(row[n - 1], flex))
  {
    var n := |row|;
    hide ColumnWidth;
    var width := ColumnWidth(cols, n);
    var f := RowFrames(row, flex, width, y);
    ColumnsFit(cols, n, 0);
    forall j | 0 <= j < n
      ensures MIN_WIN_WIDTH <= width && f[j].x + f[j].w <= cols && f[j].h == HeightOf(row[n - 1], flex)
    {
      ColumnsFit(cols, n, j);
      NextColumn(j, j + 1, width);
    }
    forall i, j | 0 <= i < j < n
      ensures Disjoint(f[i], f[j])
    {
      NextColumn(i, j, width);
    }
  }

  lemma {:induction false} NextColumn(i: nat, j: nat, width: nat)
    requires i < j
    ensures i * width + width <= j * width
    ensures j == i + 1 ==> i * width + width == j * width
  {
    var p := j - 1;
    assert j * width == (p + 1) * width == p * width + width;
    if i < p {
      NextColumn(i, p, width);
    }
  }

  lemma ArrangedAbove(f: seq<Rect>, live: seq<Pane>, g: seq<Rect>, below: seq<Pane>,
                      flex: nat, cols: nat, y: nat, mid: nat, bottom: nat)
    requires live != [] && y <= mid <= bottom
    requires Arranged(f, live, flex, cols, y, mid) && Arranged(g, below, flex, cols, mid, bottom)
    requires below == [] ==> mid == bottom
    ensures Arranged(f + g, live + below, flex, cols, y, bottom)
  {
    var u, l := f + g, live + below;
    forall i, j | 0 <= i < j < |u|
      ensures Disjoint(u[i], u[j])
    {
      if j < |f| {
        assert Disjoint(f[i], f[j]);
      } else if i >= |f| {
        assert Disjoint(g[i - |f|], g[j - |f|]);
      } else {
        assert u[j] == g[j - |f|];
        assert f[i].y + f[i].h <= mid <= g[j - |f|].y;
      }
    }
    forall k | 0 <= k < |u|
      ensures u[k] == (if k < |f| then f[k] else g[k - |f|]) && l[k] == (if k < |f| then live[k] else below[k - |f|])
    {
    }
  }

  /** All windows are arranged between the first screen line and the total height. */
  lemma {:induction false} FramesArranged(live: seq<Pane>, rows: seq<nat>, flex: nat, cols: nat, maxCols: nat, y: nat)
    requires Cuts(rows, live, maxCols) && maxCols == cols / MIN_WIN_WIDTH && FixedAreWide(live)
    ensures Arranged(Frames(live, rows, flex, cols, maxCols, y), live, flex, cols, y, y + Total(live, rows, flex, maxCols))
    decreases |rows|
  {
    hide *;
    CutsUnfold(rows, live, flex, cols, maxCols, y);
    if rows == [] {
      NothingArranged(flex, cols, y);
    } else {
      var n := rows[0];
      var row, below, width, h := live[..n], live[n..], ColumnWidth(cols, n), HeightOf(live[n - 1], flex);
      WideParts(live, n);
      RowArranged(row, flex, cols, y);
      FramesArranged(below, rows[1..], flex, cols, maxCols, y + h);
      var g, total := Frames(below, rows[1..], flex, cols, maxCols, y + h), Total(below, rows[1..], flex, maxCols);
      RowAbove(RowFrames(row, flex, width, y), live, n, g, flex, cols, y, h, total);
    }
  }

  /** A row `h` lines high on top of rows of `total` lines. */
  lemma RowAbove(f: seq<Rect>, live: seq<Pane>, n: nat, g: seq<Rect>, flex: nat, cols: nat, y: nat, h: nat, total: nat)
    requires 1 <= n <= |live| && (live[n..] == [] ==> total == 0)
    requires Arranged(f, live[..n], flex, cols, y, y + h) && Arranged(g, live[n..], flex, cols, y + h, y + h + total)
    ensures Arranged(f + g, live, flex, cols, y, y + (h + total))
  {
    hide *;
    ArrangedAbove(f, live[..n], g, live[n..], flex, cols, y, y + h, y + h + total);
    assert live[..n] + live[n..] == live;
  }

  lemma CutsUnfold(rows: seq<nat>, live: seq<Pane>, flex: nat, cols: nat, maxCols: nat, y: nat)
    requires Cuts(rows, live, maxCols)
    ensures rows == [] ==> live == [] && Frames(live, rows, flex, cols, maxCols, y) == [] && Total(live, rows, flex, maxCols) == 0
    ensures rows != [] ==>
              var n := rows[0];
              && 1 <= n <= |live| && n <= maxCols && Cuts(rows[1..], live[n..], maxCols)
              && (n > 1 ==> forall k | 0 <= k < n :: !live[k].oneline)
              && (live[n..] == [] ==> Total(live[n..], rows[1..], flex, maxCols) == 0)
              && Frames(live, rows, flex, cols, maxCols, y) ==
                 RowFrames(live[..n], flex, ColumnWidth(cols, n), y)
                 + Frames(live[n..], rows[1..], flex, cols, maxCols, y + HeightOf(live[n - 1], flex))
              && Total(live, rows, flex, maxCols) == HeightOf(live[n - 1], flex) + Total(live[n..], rows[1..], flex, maxCols)
  {
    hide RowFrames, HeightOf;
  }

  lemma WideParts(live: seq<Pane>, n: nat)
    requires n <= |live| && FixedAreWide(live)
    ensures FixedAreWide(live[..n]) && FixedAreWide(live[n..])
  {
  }

  lemma NothingArranged(flex: nat, cols: nat, y: nat)
    ensures Arranged([], [], flex, cols, y, y)
  {
  }

  // ----- what win_resize computes -----

  function U32(v: int): nat {
    v % 0x1_0000_0000
  }

  /** A difference below zero becomes a large number. */
  lemma UnsignedDifference(lines: nat, fixed: nat)
    requires lines < 0x1_0000_0000 && fixed < 0x1_0000_0000
    ensures U32(lines - fixed) == if fixed <= lines then lines - fixed else 0x1_0000_0000 - (fixed - lines)
  {
  }

  function RowCount(live: seq<Pane>, cols: nat): nat
    requires cols >= MIN_WIN_WIDTH
  {
    |Rows(Groups(live, 0), cols / MIN_WIN_WIDTH)|
  }

  /** The height of flexible windows; the difference of screen and fixed heights is unsigned in the program. */
  function FlexHeight(live: seq<Pane>, lines: nat, cols: nat): nat
    requires cols >= MIN_WIN_WIDTH
  {
    var free := RowCount(live, cols) - FixedCount(live);
    if free > 0 then U32(lines - FixedSum(live)) / free else 0
  }

  /** The only failure `win_resize` reports: some row is flexible and would be lower than the minimum. */
  predicate TooLow(live: seq<Pane>, lines: nat, cols: nat)
    requires cols >= MIN_WIN_WIDTH
  {
    RowCount(live, cols) != FixedCount(live) && FlexHeight(live, lines, cols) < MIN_WIN_HEIGHT
  }

  lemma LiveAreCut(live: seq<Pane>, cols: nat)
    requires cols >= MIN_WIN_WIDTH
    ensures Cuts(Rows(Groups(live, 0), cols / MIN_WIN_WIDTH), live, cols / MIN_WIN_WIDTH)
  {
    RowsCutLive(live, [], cols / MIN_WIN_WIDTH);
    assert [] + live == live;
  }

  function Arrangement(live: seq<Pane>, lines: nat, cols: nat): (r: seq<Rect>)
    requires cols >= MIN_WIN_WIDTH
    ensures |r| == |live|
  {
    LiveAreCut(live, cols);
    var maxCols := cols / MIN_WIN_WIDTH;
    Frames(live, Rows(Groups(live, 0), maxCols), FlexHeight(live, lines, cols), cols, maxCols, 0)
  }

  /**
   * Windows never overlap, keep the minimal width, and full-width windows span the screen. When `win_resize`
   * succeeds they are all on the screen exactly if the fixed heights fit on it: the program's own test for that
   * compares an unsigned number with zero and never fires.
   */
  lemma TilesTheScreen(live: seq<Pane>, lines: nat, cols: nat)
    requires cols >= MIN_WIN_WIDTH && lines < 0x8000_0000 && FixedSum(live) < 0x1_0000_0000
    requires FixedAreWide(live) && !TooLow(live, lines, cols)
    ensures var f := Arrangement(live, lines, cols);
            && (forall i, j | 0 <= i < j < |f| :: Disjoint(f[i], f[j]))
            && (forall k | 0 <= k < |f| :: f[k].w >= MIN_WIN_WIDTH && f[k].x + f[k].w <= cols)
            && (forall k | 0 <= k < |f| :: live[k].height == 0 ==> f[k].h >= MIN_WIN_HEIGHT)
            && (forall k | 0 <= k < |f| :: live[k].height > 0 ==> f[k].h == live[k].height)
            && (forall k | 0 <= k < |f| :: live[k].oneline ==> f[k].x == 0 && f[k].w == cols)
    ensures var f := Arrangement(live, lines, cols);
            (forall k | 0 <= k < |f| :: OnScreen(f[k], lines, cols)) <==> FixedSum(live) <= lines
  {
    hide Frames, Rows, Groups, Total, FixedSum, FixedCount, FixedAreWide, FlexHeight;
    LiveAreCut(live, cols);
    var maxCols := cols / MIN_WIN_WIDTH;
    var rows := Rows(Groups(live, 0), maxCols);
    var flex := FlexHeight(live, lines, cols);
    FramesArranged(live, rows, flex, cols, maxCols, 0);
    FlexibleRowExists(live, rows, maxCols);
    TotalHeight(live, lines, cols);
    var f := Arrangement(live, lines, cols);
    if FixedSum(live) > lines {
      EmptyHasNoHeight(live);
      assert !OnScreen(f[|f| - 1], lines, cols);
    }
  }

  lemma TotalHeight(live: seq<Pane>, lines: nat, cols: nat)
    requires cols >= MIN_WIN_WIDTH && lines < 0x8000_0000 && FixedSum(live) < 0x1_0000_0000 && FixedAreWide(live)
    ensures var maxCols := cols / MIN_WIN_WIDTH;
            var rows := Rows(Groups(live, 0), maxCols);
            Cuts(rows, live, maxCols) &&
            (Total(live, rows, FlexHeight(live, lines, cols), maxCols) <= lines <==> FixedSum(live) <= lines)
  {
    hide Cuts, Frames, Rows, Groups, Total, FixedSum, FixedCount, FixedAreWide, FlexHeight;
    LiveAreCut(live, cols);
    var maxCols := cols / MIN_WIN_WIDTH;
    var rows := Rows(Groups(live, 0), maxCols);
    var flex := FlexHeight(live, lines, cols);
    RowHeights(live, rows, flex, maxCols);
    FreeHeight(live, lines, cols);
  }

  /** What the flexible rows take together. */
  lemma FreeHeight(live: seq<Pane>, lines: nat, cols: nat)
    requires cols >= MIN_WIN_WIDTH && lines < 0x8000_0000 && FixedCount(live) <= RowCount(live, cols)
    ensures var maxCols := cols / MIN_WIN_WIDTH;
            var taken := (|Rows(Groups(live, 0), maxCols)| - FixedCount(live)) * FlexHeight(live, lines, cols);
            taken >= 0 && (FixedSum(live) <= lines ==> taken <= lines - FixedSum(live))
  {
    hide Rows, Groups, FixedSum, FixedCount;
    var free := RowCount(live, cols) - FixedCount(live);
    if free > 0 {
      Shares(U32(lines - FixedSum(live)), free);
    }
  }

  lemma Shares(n: nat, k: nat)
    requires k > 0
    ensures 0 <= k * (n / k) <= n
  {
    assert n == k * (n / k) + n % k;
    assert k * (n / k) >= 0;
  }

  lemma EmptyHasNoHeight(live: seq<Pane>)
    ensures live == [] ==> FixedSum(live) == 0
  {
  }

  /** A window of flexible height makes the number of rows exceed the number of fixed-height windows. */
  lemma {:induction false} FlexibleRowExists(live: seq<Pane>, rows: seq<nat>, maxCols: nat)
    requires Cuts(rows, live, maxCols) && FixedAreWide(live)
    ensures FixedCount(live) <= |rows|
    ensures (exists k | 0 <= k < |live| :: live[k].height == 0) ==> FixedCount(live) < |rows|
    decreases |rows|
  {
    if rows != [] {
      var n := rows[0];
      FirstRowHeight(live, n, 0);
      FlexibleRowExists(live[n..], rows[1..], maxCols);
      if k :| 0 <= k < |live| && live[k].height == 0 {
        if k >= n {
          assert live[n..][k - n] == live[k];
        } else if n == 1 {
          assert live[n - 1].height == 0;
        }
      }
    }
  }
}

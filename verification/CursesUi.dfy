/** The curses interface: a table of window slots and the resize that gives every window its place. */
module CursesUi {
  import Bits
  import opened Tiling

  class Window {
    const title: string
    const oneline: bool
    const height: nat
    var frame: Rect
    var text: Rect

    constructor (title: string, oneline: bool, height: nat)
      ensures this.title == title && this.oneline == oneline && this.height == height
    {
      this.title, this.oneline, this.height := title, oneline, height;
      frame, text := Rect(0, 0, 2, 2), Rect(0, 0, 2, 2);
    }
  }

  /** The windows behind the used slots, in slot order. */
  function Live(slots: seq<Window?>): seq<Window> {
    if slots == [] then []
    else if slots[0] == null then Live(slots[1..])
    else [slots[0]] + Live(slots[1..])
  }

  function Panes(live: seq<Window>): (r: seq<Pane>)
    ensures |r| == |live|
    ensures forall k | 0 <= k < |r| :: r[k] == Pane(live[k].oneline, live[k].height)
  {
    seq(|live|, k requires 0 <= k < |live| => Pane(live[k].oneline, live[k].height))
  }

  lemma LiveUnfold(slots: seq<Window?>, i: nat)
    requires i < |slots|
    ensures Live(slots[i..]) == (if slots[i] == null then [] else [slots[i]]) + Live(slots[i + 1..])
    ensures slots[i] != null ==>
              Panes(Live(slots[i..])) == [Pane(slots[i].oneline, slots[i].height)] + Panes(Live(slots[i + 1..]))
    ensures slots[i] == null ==> Live(slots[i..]) == Live(slots[i + 1..])
  {
    assert slots[i..][1..] == slots[i + 1..];
  }

  lemma {:induction false} LiveMembers(slots: seq<Window?>)
    ensures |Live(slots)| <= |slots|
    ensures forall w: Window :: w in Live(slots) <==> w in slots
  {
    if slots != [] {
      LiveMembers(slots[1..]);
    }
  }

  lemma {:induction false} LiveIndex(slots: seq<Window?>, k: nat) returns (i: nat)
    requires k < |Live(slots)|
    ensures i < |slots| && slots[i] == Live(slots)[k]
  {
    if slots[0] == null {
      i := LiveIndex(slots[1..], k);
      i := i + 1;
    } else if k == 0 {
      i := 0;
    } else {
      i := LiveIndex(slots[1..], k - 1);
      i := i + 1;
    }
  }

  lemma GroupsUnfold(live: seq<Pane>, open: nat)
    ensures live == [] ==> Groups(live, open) == Close(open)
    ensures live != [] ==>
              Groups(live, open) ==
              (if live[0].oneline then Close(open) + [1] + Groups(live[1..], 0) else Groups(live[1..], open + 1))
    ensures live != [] ==> FixedSum(live) == live[0].height + FixedSum(live[1..])
    ensures live != [] ==> FixedCount(live) == (if live[0].height > 0 then 1 else 0) + FixedCount(live[1..])
    ensures live == [] ==> FixedSum(live) == 0 && FixedCount(live) == 0
  {
  }

  /** Where the groups still to come start after one more window. */
  lemma GroupsStep(groups: seq<nat>, n: nat, open: nat, todo: seq<Pane>)
    requires n <= |groups| && groups[n..] == Groups(todo, open) && todo != []
    ensures FixedSum(todo) == todo[0].height + FixedSum(todo[1..])
    ensures FixedCount(todo) == (if todo[0].height > 0 then 1 else 0) + FixedCount(todo[1..])
    ensures !todo[0].oneline ==> groups[n..] == Groups(todo[1..], open + 1)
    ensures todo[0].oneline && open == 0 ==>
              n + 1 <= |groups| && groups[n] == 1 && groups[n + 1..] == Groups(todo[1..], 0)
    ensures todo[0].oneline && open > 0 ==>
              n + 2 <= |groups| && groups[n] == open && groups[n + 1] == 1 && groups[n + 2..] == Groups(todo[1..], 0)
  {
    hide *;
    GroupsUnfold(todo, open);
    CloseIs(open);
    if todo[0].oneline {
      var rest := groups[n..];
      var c := |Close(open)|;
      assert rest[c + 1..] == Groups(todo[1..], 0);
      assert rest[c + 1..] == groups[n + c + 1..];
      assert rest[c] == 1 == groups[n + c];
      assert rest[0] == groups[n];
    }
  }

  lemma {:induction false} GroupsPositive(live: seq<Pane>, open: nat)
    ensures forall k | 0 <= k < |Groups(live, open)| :: Groups(live, open)[k] >= 1
    decreases |live|
  {
    if live != [] {
      GroupsPositive(live[1..], 0);
      GroupsPositive(live[1..], open + 1);
    }
  }

  lemma {:induction false} SomeGroup(live: seq<Pane>, open: nat)
    requires live != [] || open > 0
    ensures Groups(live, open) != []
    decreases |live|
  {
    if live != [] && !live[0].oneline {
      SomeGroup(live[1..], open + 1);
    }
  }

  lemma Columns(cols: nat)
    ensures cols / MIN_WIN_WIDTH == 0 <==> cols < MIN_WIN_WIDTH
  {
  }

  /** The height computed for the rows of flexible windows. */
  lemma Heights(live: seq<Pane>, lines: nat, cols: nat)
    requires cols >= MIN_WIN_WIDTH
    ensures var nlines, nfixed := |Rows(Groups(live, 0), cols / MIN_WIN_WIDTH)|, FixedCount(live);
            nfixed <= nlines ==>
              && FlexHeight(live, lines, cols) == (if nlines > nfixed then U32(lines - FixedSum(live)) / (nlines - nfixed) else 0)
              && (TooLow(live, lines, cols) <==> nlines > nfixed && FlexHeight(live, lines, cols) < MIN_WIN_HEIGHT)
  {
    hide Groups, Rows, FixedSum, FixedCount, U32;
  }

  /** With no column at all the first group is already too long, and is divided by the number of columns. */
  lemma FirstGroupDivides(live: seq<Pane>)
    requires live != []
    ensures Groups(live, 0) != [] && Groups(live, 0)[0] > 0
  {
    SomeGroup(live, 0);
    GroupsPositive(live, 0);
  }

  lemma {:induction false} RowsAreFew(rows: seq<nat>, live: seq<Pane>, maxCols: nat)
    requires Cuts(rows, live, maxCols)
    ensures |rows| <= |live| && forall k | 0 <= k < |rows| :: 1 <= rows[k] <= maxCols
    decreases |rows|
  {
    if rows != [] {
      RowsAreFew(rows[1..], live[rows[0]..], maxCols);
      assert forall k | 1 <= k < |rows| :: rows[k] == rows[1..][k - 1];
    }
  }

  /** One window joins the open group or, asking for the full width, closes it and becomes a group itself. */
  method AddWindow(split: array<nat>, nsplit: nat, oneline: bool) returns (n: nat)
    requires nsplit < split.Length && nsplit + (if split[nsplit] > 0 then 1 else 0) + 1 < split.Length
    requires forall m | nsplit < m < split.Length :: split[m] == 0
    modifies split
    ensures n < split.Length && forall m | n < m < split.Length :: split[m] == 0
    ensures forall m | 0 <= m < nsplit :: split[m] == old(split[m])
    ensures !oneline ==> n == nsplit && split[n] == old(split[n]) + 1
    ensures oneline && old(split[nsplit]) == 0 ==> n == nsplit + 1 && split[nsplit] == 1 && split[n] == 0
    ensures oneline && old(split[nsplit]) > 0 ==>
              n == nsplit + 2 && split[nsplit] == old(split[nsplit]) && split[nsplit + 1] == 1 && split[n] == 0
  {
    n := nsplit;
    if oneline {
      if split[n] != 0 {
        n := n + 1;
      }
      split[n] := 1;
      n := n + 1;
    } else {
      split[n] := split[n] + 1;
    }
  }

  /** The first loop of `win_resize`: groups of windows and the heights that are fixed. */
  method SplitWindows(windows: array<Window?>, nwin: nat) returns (split: array<nat>, nsplit: nat, fixed: nat, nfixed: nat)
    requires nwin == |Live(windows[..])|
    ensures fresh(split) && split.Length == nwin + 1 && nsplit <= nwin
    ensures var live := Panes(Live(windows[..]));
            split[..nsplit] == Groups(live, 0) && fixed == FixedSum(live) && nfixed == FixedCount(live)
  {
    hide *;
    ghost var slots := windows[..];
    ghost var all := Panes(Live(slots));
    ghost var groups, todo := Groups(all, 0), all;
    split := new nat[nwin + 1](_ => 0);
    nsplit, fixed, nfixed := 0, 0, 0;
    CloseIs(0);
    assert slots[0..] == slots;
    var i := 0;
    while i < windows.Length
      invariant 0 <= i <= windows.Length && split.Length == nwin + 1 && slots == windows[..]
      invariant todo == Panes(Live(slots[i..]))
      invariant nsplit <= nwin && nsplit + |Close(split[nsplit])| + |todo| <= nwin
      invariant nsplit <= |groups| && groups[nsplit..] == Groups(todo, split[nsplit])
      invariant forall m | 0 <= m < nsplit :: split[m] == groups[m]
      invariant forall m | nsplit < m <= nwin :: split[m] == 0
      invariant fixed + FixedSum(todo) == FixedSum(all) && nfixed + FixedCount(todo) == FixedCount(all)
    {
      LiveUnfold(slots, i);
      var w := windows[i];
      i := i + 1;
      if w == null {
        continue;
      }
      CloseIs(split[nsplit]);
      CloseIs(split[nsplit] + 1);
      GroupsStep(groups, nsplit, split[nsplit], todo);
      nsplit := AddWindow(split, nsplit, w.oneline);
      if w.height > 0 {
        fixed := fixed + w.height;
        nfixed := nfixed + 1;
      }
      todo := todo[1..];
    }
    GroupsUnfold(todo, split[nsplit]);
    LiveOfNothing(slots);
    CloseIs(split[nsplit]);
    if split[nsplit] > 0 {
      nsplit := nsplit + 1;
    }
  }

  lemma CloseIs(open: nat)
    ensures Close(open) == if open > 0 then [open] else []
  {
  }

  lemma LiveOfNothing(slots: seq<Window?>)
    ensures Live(slots[|slots|..]) == []
  {
  }

  lemma RowsUnfold(groups: seq<nat>, i: nat, maxCols: nat)
    requires i <= |groups| && maxCols > 0
    ensures i < |groups| ==> Rows(groups[i..], maxCols) == RowsOf(groups[i], maxCols) + Rows(groups[i + 1..], maxCols)
    ensures i == |groups| ==> Rows(groups[i..], maxCols) == []
  {
    if i < |groups| {
      assert groups[i..][1..] == groups[i + 1..];
    }
  }

  lemma RowsOfUnfold(n: nat, maxCols: nat)
    requires maxCols > 0
    ensures n == 0 ==> RowsOf(n, maxCols) == []
    ensures 0 < n <= maxCols ==> RowsOf(n, maxCols) == [n]
    ensures n >= maxCols ==> RowsOf(n, maxCols) == [maxCols] + RowsOf(n - maxCols, maxCols)
  {
  }

  /** What is left of `n` after `j` full rows. */
  ghost function Left(n: nat, m: nat, j: nat): int {
    n - j * m
  }

  lemma LeftIs(n: nat, m: nat, j: nat)
    requires m > 0 && j <= n / m
    ensures Left(n, m, 0) == n && Left(n, m, j) >= 0
    ensures j < n / m ==> Left(n, m, j + 1) == Left(n, m, j) - m >= 0
    ensures j == n / m ==> Left(n, m, j) == n % m
  {
    assert (j + 1) * m == j * m + m;
    Bits.ProductOrder(j, n / m, m);
    if j < n / m {
      Bits.ProductOrder(j + 1, n / m, m);
    }
  }

  /** The rows of one group. */
  method FillRows(ncols: array<nat>, first: nat, n: nat, maxCols: nat) returns (nlines: nat)
    requires n >= 1 && maxCols > 0 && first + |RowsOf(n, maxCols)| < ncols.Length
    requires forall m | first <= m < ncols.Length :: ncols[m] == 0
    modifies ncols
    ensures nlines < ncols.Length && ncols[..nlines] == old(ncols[..first]) + RowsOf(n, maxCols)
    ensures forall m | nlines <= m < ncols.Length :: ncols[m] == 0
  {
    hide *;
    RowsOfUnfold(n, maxCols);
    nlines := first;
    if n <= maxCols {
      ncols[nlines] := n;
      nlines := nlines + 1;
      return;
    }
    ghost var all := ncols[..first] + RowsOf(n, maxCols);
    var j := 0;
    LeftIs(n, maxCols, 0);
    while j < n / maxCols
      invariant 0 <= j <= n / maxCols && nlines < ncols.Length && Left(n, maxCols, j) >= 0
      invariant |all| < ncols.Length && all == ncols[..nlines] + RowsOf(Left(n, maxCols, j), maxCols)
      invariant forall m | nlines <= m < ncols.Length :: ncols[m] == 0
    {
      LeftIs(n, maxCols, j);
      RowsOfUnfold(Left(n, maxCols, j), maxCols);
      ncols[nlines] := maxCols;
      nlines, j := nlines + 1, j + 1;
    }
    LeftIs(n, maxCols, j);
    RowsOfUnfold(n % maxCols, maxCols);
    if n % maxCols != 0 {
      ncols[nlines] := n % maxCols;
      nlines := nlines + 1;
    }
  }

  /** The second loop: how many windows each row holds. */
  method CountRows(split: array<nat>, nsplit: nat, maxCols: nat, nwin: nat) returns (ncols: array<nat>, nlines: nat)
    requires nsplit < split.Length && maxCols > 0
    requires |Rows(split[..nsplit], maxCols)| <= nwin
    requires forall k | 0 <= k < nsplit :: split[k] >= 1
    ensures fresh(ncols) && ncols.Length == nwin + 1 && nlines <= nwin
    ensures ncols[..nlines] == Rows(split[..nsplit], maxCols)
  {
    hide *;
    ghost var groups := split[..nsplit];
    ghost var all := Rows(groups, maxCols);
    ncols := new nat[nwin + 1](_ => 0);
    nlines := 0;
    var i := 0;
    assert groups[0..] == groups;
    while i < nsplit
      invariant i <= nsplit && ncols.Length == nwin + 1 && nlines <= nwin
      invariant split[..nsplit] == groups
      invariant all == ncols[..nlines] + Rows(groups[i..], maxCols)
      invariant forall m | nlines <= m <= nwin :: ncols[m] == 0
    {
      RowsUnfold(groups, i, maxCols);
      assert split[i] == groups[i];
      nlines := FillRows(ncols, nlines, split[i], maxCols);
      i := i + 1;
    }
    RowsUnfold(groups, i, maxCols);
    // the program would count one more row here, but every row has been counted when it was written
    assert ncols[nlines] == 0;
  }

  /** No window sits in two slots. */
  ghost predicate Unshared(slots: seq<Window?>) {
    forall i, j | 0 <= i < j < |slots| && slots[i] != null :: slots[i] != slots[j]
  }

  lemma {:induction false} LiveDistinct(slots: seq<Window?>)
    requires Unshared(slots)
    ensures forall i, j | 0 <= i < j < |Live(slots)| :: Live(slots)[i] != Live(slots)[j]
  {
    if slots != [] {
      LiveDistinct(slots[1..]);
      LiveMembers(slots[1..]);
      assert slots[0] != null ==> slots[0] !in slots[1..];
    }
  }

  /** The text area of a window. */
  function Inner(frame: Rect): Rect {
    Rect(frame.y + 1, frame.x + 1, frame.h - 2, frame.w - 2)
  }

  predicate Covers(r: Rect, y: int, x: int) {
    r.y <= y < r.y + r.h && r.x <= x < r.x + r.w
  }

  /** The text area is all of the frame but its border; windows of fixed height 1 or 2 have none. */
  lemma TextInsideFrame(f: Rect)
    ensures forall y: int, x: int ::
              Covers(Inner(f), y, x) <==>
              Covers(f, y, x) && y != f.y && y != f.y + f.h - 1 && x != f.x && x != f.x + f.w - 1
    ensures (exists y: int, x: int :: Covers(Inner(f), y, x)) <==> f.h >= 3 && f.w >= 3
  {
    if f.h >= 3 && f.w >= 3 {
      assert Covers(Inner(f), f.y + 1, f.x + 1);
    }
  }

  lemma InnerIs(f: Rect)
    ensures Inner(f) == Rect(f.y + 1, f.x + 1, f.h - 2, f.w - 2)
  {
  }

  function PaneHeight(w: Window, flex: nat): nat {
    HeightOf(Pane(w.oneline, w.height), flex)
  }

  /** One row of frames: the next live windows `row`, found by running over the slots from `first`. */
  method PlaceRow(windows: array<Window?>, first: nat, n: nat, line: nat, flex: nat, width: nat,
                  ghost row: seq<Window>, ghost rest: seq<Window>) returns (win: nat)
    requires n == |row| >= 1 && first <= windows.Length && Live(windows[first..]) == row + rest
    requires forall i, j | 0 <= i < j < n :: row[i] != row[j]
    modifies set w | w in row
    ensures 1 <= win <= windows.Length && windows[win - 1] == row[n - 1]
    ensures Live(windows[win..]) == rest
    ensures forall j | 0 <= j < n :: row[j].frame == Rect(line, j * width, PaneHeight(row[j], flex), width)
    ensures forall j | 0 <= j < n :: row[j].text == Inner(row[j].frame)
  {
    hide *;
    ghost var slots, todo := windows[..], row + rest;
    assert slots[first..] == windows[first..];
    win := first;
    var j := 0;
    while j < n
      invariant 0 <= j <= n && 0 <= win <= windows.Length && slots == windows[..]
      invariant todo[j..] == Live(slots[win..])
      invariant j > 0 ==> win > 0 && slots[win - 1] == row[j - 1]
      invariant forall c | 0 <= c < j :: row[c].frame == Rect(line, c * width, PaneHeight(row[c], flex), width)
      invariant forall c | 0 <= c < j :: row[c].text == Inner(row[c].frame)
    {
      win := NextSlot(windows, win, slots);
      LiveUnfold(slots, win);
      var w := windows[win];
      assert todo[j..][0] == w == row[j];
      PaneHeightIs(w, flex);
      w.frame := Rect(line, j * width, if w.height > 0 then w.height else flex, width);
      w.text := Rect(line + 1, j * width + 1, (if w.height > 0 then w.height else flex) - 2, width - 2);
      InnerIs(w.frame);
      assert todo[j..][1..] == todo[j + 1..];
      win, j := win + 1, j + 1;
    }
    assert slots[win..] == windows[win..];
    assert todo[n..] == rest;
  }

  lemma PaneHeightIs(w: Window, flex: nat)
    ensures PaneHeight(w, flex) == if w.height > 0 then w.height else flex
  {
  }

  method NextSlot(windows: array<Window?>, first: nat, ghost slots: seq<Window?>) returns (win: nat)
    requires slots == windows[..] && first <= windows.Length && Live(slots[first..]) != []
    ensures first <= win < windows.Length && windows[win] != null
    ensures Live(slots[win..]) == Live(slots[first..])
  {
    hide Live;
    win := first;
    LiveOfNothing(slots);
    while win < windows.Length && windows[win] == null
      invariant 0 <= win <= windows.Length && Live(slots[first..]) == Live(slots[win..])
    {
      LiveUnfold(slots, win);
      win := win + 1;
    }
  }

  /** The first `n` windows have the frames `f` gives them. */
  ghost predicate Framed(live: seq<Window>, f: seq<Rect>, n: nat)
    reads set w | w in live
  {
    n <= |live| == |f| && forall k | 0 <= k < n :: live[k].frame == f[k] && live[k].text == Inner(f[k])
  }

  lemma RowIsFramed(live: seq<Window>, f: seq<Rect>, k: nat, row: seq<Window>, flex: nat, width: nat, y: nat)
    requires Framed(live, f, k) && k + |row| <= |live|
    requires row == live[k..][..|row|] && f[k..][..|row|] == RowFrames(Panes(row), flex, width, y)
    requires forall j | 0 <= j < |row| :: row[j].frame == Rect(y, j * width, PaneHeight(row[j], flex), width)
    requires forall j | 0 <= j < |row| :: row[j].text == Inner(row[j].frame)
    ensures Framed(live, f, k + |row|)
  {
    var g := RowFrames(Panes(row), flex, width, y);
    forall m | k <= m < k + |row|
      ensures live[m].frame == f[m] && live[m].text == Inner(f[m])
    {
      assert live[m] == row[m - k] && f[m] == g[m - k];
    }
  }

  lemma PanesSlice(live: seq<Window>, n: nat)
    requires n <= |live|
    ensures Panes(live)[..n] == Panes(live[..n]) && Panes(live)[n..] == Panes(live[n..])
  {
  }

  /** Places the row behind the first `k` windows, as `all` wants it. */
  method PlaceNext(windows: array<Window?>, first: nat, n: nat, line: nat, flex: nat, width: nat,
                   ghost live: seq<Window>, ghost all: seq<Rect>, ghost k: nat) returns (win: nat)
    requires n >= 1 && k + n <= |live| == |all| && first <= windows.Length && Live(windows[first..]) == live[k..]
    requires forall i, j | 0 <= i < j < |live| :: live[i] != live[j]
    requires Framed(live, all, k)
    requires all[k..][..n] == RowFrames(Panes(live[k..][..n]), flex, width, line)
    modifies set w | w in live
    ensures 1 <= win <= windows.Length && windows[win - 1] == live[k + n - 1]
    ensures Live(windows[win..]) == live[k + n..]
    ensures Framed(live, all, k + n)
  {
    hide Live, Panes, RowFrames, PaneHeight, Inner;
    ghost var row, rest := live[k..][..n], live[k + n..];
    assert live[k..] == row + rest;
    RowDistinct(live, k, n);
    win := PlaceRow(windows, first, n, line, flex, width, row, rest);
    assert Framed(live, all, k);
    RowIsFramed(live, all, k, row, flex, width, line);
  }

  /** What is left to do in the last loop of `win_resize` when `k` windows have been placed. */
  ghost predicate Pending(slots: seq<Window?>, live: seq<Window>, all: seq<Rect>, rows: seq<nat>,
                          flex: nat, cols: nat, line: nat, k: nat)
    requires cols >= MIN_WIN_WIDTH
  {
    k <= |live| == |all| && Live(slots) == live[k..] && Cuts(rows, Panes(live[k..]), cols / MIN_WIN_WIDTH) &&
    all[k..] == Frames(Panes(live[k..]), rows, flex, cols, cols / MIN_WIN_WIDTH, line)
  }

  method PlaceLine(windows: array<Window?>, first: nat, n: nat, line: nat, flex: nat, cols: nat,
                   ghost live: seq<Window>, ghost all: seq<Rect>, ghost rows: seq<nat>, ghost k: nat)
    returns (win: nat, next: nat)
    requires cols >= MIN_WIN_WIDTH && first <= windows.Length && rows != [] && rows[0] == n
    requires forall i, j | 0 <= i < j < |live| :: live[i] != live[j]
    requires Pending(windows[first..], live, all, rows, flex, cols, line, k) && Framed(live, all, k)
    modifies set w | w in live
    ensures win <= windows.Length
    ensures Pending(windows[win..], live, all, rows[1..], flex, cols, next, k + n) && Framed(live, all, k + n)
  {
    hide Frames, RowFrames, Cuts, Panes, Live, Framed;
    ghost var here, left := live[k..], all[k..];
    RowStep(rows, here, flex, cols, cols / MIN_WIN_WIDTH, line);
    var width := ColumnWidth(cols, n);
    // the program gives up here if `width` is below the minimum, which never happens
    assert width >= MIN_WIN_WIDTH;
    assert left[..n] == RowFrames(Panes(here[..n]), flex, width, line);
    assert left[n..] == all[k + n..] && here[n..] == live[k + n..];
    win := PlaceNext(windows, first, n, line, flex, width, live, all, k);
    assert windows[win - 1] == here[n - 1];
    next := line + (if windows[win - 1].height > 0 then windows[win - 1].height else flex);
  }

  /** The last loop of `win_resize`: the rows below each other, every row filled with equally wide frames. */
  method PlaceRows(windows: array<Window?>, ncols: array<nat>, nlines: nat, flex: nat, cols: nat)
    requires cols >= MIN_WIN_WIDTH && nlines <= ncols.Length && Unshared(windows[..])
    requires Cuts(ncols[..nlines], Panes(Live(windows[..])), cols / MIN_WIN_WIDTH)
    modifies set w | w in Live(windows[..])
    ensures var live := Live(windows[..]);
            Framed(live, Frames(Panes(live), ncols[..nlines], flex, cols, cols / MIN_WIN_WIDTH, 0), |live|)
  {
    hide Frames, RowFrames, Cuts, Panes, Live, Framed, Pending, Unshared;
    ghost var slots, rows := windows[..], ncols[..nlines];
    ghost var live := Live(slots);
    ghost var all := Frames(Panes(live), rows, flex, cols, cols / MIN_WIN_WIDTH, 0);
    ghost var k := 0;
    LiveDistinct(slots);
    NothingFramed(live, all);
    PendingAtStart(slots, rows, flex, cols);
    assert slots[0..] == slots && rows[0..] == rows;
    var win, line: nat, i := 0, 0, 0;
    while i < nlines
      invariant 0 <= i <= nlines && 0 <= win <= windows.Length
      invariant slots == windows[..] && rows == ncols[..nlines]
      invariant Pending(slots[win..], live, all, rows[i..], flex, cols, line, k) && Framed(live, all, k)
    {
      var n := ncols[i];
      assert rows[i..][0] == n && rows[i..][1..] == rows[i + 1..];
      assert slots[win..] == windows[win..];
      win, line := PlaceLine(windows, win, n, line, flex, cols, live, all, rows[i..], k);
      assert slots[win..] == windows[win..];
      i, k := i + 1, k + n;
    }
    assert rows[i..] == [];
    PendingAtEnd(slots[win..], live, all, flex, cols, line, k);
  }

  lemma PendingAtStart(slots: seq<Window?>, rows: seq<nat>, flex: nat, cols: nat)
    requires cols >= MIN_WIN_WIDTH && Cuts(rows, Panes(Live(slots)), cols / MIN_WIN_WIDTH)
    ensures var live := Live(slots);
            Pending(slots, live, Frames(Panes(live), rows, flex, cols, cols / MIN_WIN_WIDTH, 0), rows, flex, cols, 0, 0)
  {
    hide Frames, Cuts, Panes, Live;
    var live := Live(slots);
    assert live[0..] == live;
  }

  lemma PendingAtEnd(slots: seq<Window?>, live: seq<Window>, all: seq<Rect>, flex: nat, cols: nat, line: nat, k: nat)
    requires cols >= MIN_WIN_WIDTH && Pending(slots, live, all, [], flex, cols, line, k)
    ensures k == |live|
  {
  }

  lemma RowStep(rows: seq<nat>, here: seq<Window>, flex: nat, cols: nat, maxCols: nat, line: nat)
    requires rows != [] && maxCols == cols / MIN_WIN_WIDTH && Cuts(rows, Panes(here), maxCols)
    ensures var n := rows[0];
            && 1 <= n <= |here| && ColumnWidth(cols, n) >= MIN_WIN_WIDTH
            && Cuts(rows[1..], Panes(here[n..]), maxCols)
            && Frames(Panes(here), rows, flex, cols, maxCols, line) ==
               RowFrames(Panes(here[..n]), flex, ColumnWidth(cols, n), line)
               + Frames(Panes(here[n..]), rows[1..], flex, cols, maxCols,
                        line + if here[n - 1].height > 0 then here[n - 1].height else flex)
  {
    hide Frames, RowFrames, Cuts, Panes;
    CutsUnfold(rows, Panes(here), flex, cols, maxCols, line);
    var n := rows[0];
    ColumnsFit(cols, n, 0);
    PanesSlice(here, n);
  }

  lemma NothingFramed(live: seq<Window>, f: seq<Rect>)
    requires |live| == |f|
    ensures Framed(live, f, 0)
  {
  }

  lemma RowDistinct(live: seq<Window>, k: nat, n: nat)
    requires k + n <= |live| && forall i, j | 0 <= i < j < |live| :: live[i] != live[j]
    ensures forall i, j | 0 <= i < j < n :: live[k..][..n][i] != live[k..][..n][j]
    ensures forall i | 0 <= i < k :: live[i] !in live[k..][..n]
  {
  }

  /** Titles identify windows, and a window of fixed height asks for the full width. */
  ghost predicate WellFormed(slots: seq<Window?>) {
    Unshared(slots) &&
    (forall i | 0 <= i < |slots| && slots[i] != null :: slots[i].height > 0 ==> slots[i].oneline) &&
    (forall i, j | 0 <= i < j < |slots| && slots[i] != null && slots[j] != null :: slots[i].title != slots[j].title)
  }

  lemma {:induction false} LiveCount(slots: seq<Window?>, id: nat, w: Window?)
    requires id < |slots|
    ensures |Live(slots[id := w])| + (if slots[id] == null then 0 else 1) == |Live(slots)| + (if w == null then 0 else 1)
  {
    if id > 0 {
      assert slots[id := w][1..] == slots[1..][id - 1 := w];
      LiveCount(slots[1..], id - 1, w);
    } else {
      assert slots[id := w][1..] == slots[1..];
    }
  }

  lemma {:induction false} LiveOfGrown(slots: seq<Window?>, more: seq<Window?>)
    requires forall i | 0 <= i < |more| :: more[i] == null
    ensures Live(slots + more) == Live(slots)
    decreases |slots|, |more|
  {
    if slots != [] {
      assert (slots + more)[1..] == slots[1..] + more;
      LiveOfGrown(slots[1..], more);
    } else if more != [] {
      assert slots + more == more;
      assert [] + more[1..] == more[1..];
      LiveOfGrown([], more[1..]);
    }
  }

  lemma WideWhenWellFormed(slots: seq<Window?>)
    requires WellFormed(slots)
    ensures FixedAreWide(Panes(Live(slots)))
  {
    hide Live;
    var live := Live(slots);
    forall k | 0 <= k < |live|
      ensures Panes(live)[k].height > 0 ==> Panes(live)[k].oneline
    {
      var i := LiveIndex(slots, k);
    }
  }

  /** A slot table after growing to `n` slots. */
  function Padded(slots: seq<Window?>, n: nat): (r: seq<Window?>)
    requires |slots| <= n
    ensures |r| == n
    ensures forall i | 0 <= i < n :: r[i] == if i < |slots| then slots[i] else null
  {
    slots + seq(n - |slots|, _ => null)
  }

  /** The last free slot, -1 if there is none. */
  ghost function FreeSlot(slots: seq<Window?>): (r: int)
    ensures -1 <= r < |slots| && (r >= 0 ==> slots[r] == null) && forall k | r < k < |slots| :: slots[k] != null
  {
    if slots == [] then -1
    else if slots[|slots| - 1] == null then |slots| - 1
    else FreeSlot(slots[..|slots| - 1])
  }

  /** The windows with one more in the last free slot. */
  ghost function PanesWith(slots: seq<Window?>, pane: Pane): seq<Pane>
    requires FreeSlot(slots) >= 0
  {
    var f := FreeSlot(slots);
    Panes(Live(slots[..f])) + [pane] + Panes(Live(slots[f + 1..]))
  }

  lemma {:induction false} LiveConcat(a: seq<Window?>, b: seq<Window?>)
    ensures Live(a + b) == Live(a) + Live(b)
    ensures Panes(Live(a + b)) == Panes(Live(a)) + Panes(Live(b))
  {
    if a == [] {
      assert a + b == b;
    } else {
      assert (a + b)[1..] == a[1..] + b;
      LiveConcat(a[1..], b);
    }
  }

  lemma PutIntoFree(slots: seq<Window?>, id: nat, w: Window)
    requires id < |slots| && slots[id] == null && forall k | id < k < |slots| :: slots[k] != null
    ensures FreeSlot(slots) == id && Panes(Live(slots[id := w])) == PanesWith(slots, Pane(w.oneline, w.height))
  {
    hide *;
    FreeSlotIs(slots, id);
    PanesWithIs(slots, Pane(w.oneline, w.height));
    var front, rest := slots[..id], slots[id + 1..];
    assert slots[id := w] == front + ([w] + rest);
    LiveConcat(front, [w] + rest);
    LiveConcat([w], rest);
    PanesOfOne(w);
    Associative(Panes(Live(front)), [Pane(w.oneline, w.height)], Panes(Live(rest)));
  }

  lemma FreeSlotIs(slots: seq<Window?>, id: nat)
    requires id < |slots| && slots[id] == null && forall k | id < k < |slots| :: slots[k] != null
    ensures FreeSlot(slots) == id
  {
    var f := FreeSlot(slots);
    if f > id {
      assert false;
    }
  }

  lemma PanesWithIs(slots: seq<Window?>, pane: Pane)
    requires FreeSlot(slots) >= 0
    ensures var f := FreeSlot(slots);
            PanesWith(slots, pane) == Panes(Live(slots[..f])) + [pane] + Panes(Live(slots[f + 1..]))
  {
  }

  lemma Associative(a: seq<Pane>, b: seq<Pane>, c: seq<Pane>)
    ensures a + (b + c) == a + b + c
  {
  }

  lemma PanesOfOne(w: Window)
    ensures Panes(Live([w])) == [Pane(w.oneline, w.height)]
  {
    assert [w][1..] == [];
  }

  /** The first window fits every screen of at least 3 lines and 30 columns, and is too low exactly below 3 lines. */
  lemma FirstWindowFits(slots: seq<Window?>, pane: Pane, lines: nat, cols: nat)
    requires FreeSlot(slots) >= 0 && Live(slots) == [] && cols >= 30 && lines < 0x1_0000_0000
    requires pane.height > 0 ==> pane.oneline
    ensures PanesWith(slots, pane) == [pane]
    ensures TooLow([pane], lines, cols) <==> pane.height == 0 && lines < 3
  {
    hide *;
    NothingAround(slots, FreeSlot(slots), pane);
    OneTooLow(pane, lines, cols);
  }

  lemma NothingAround(slots: seq<Window?>, f: nat, pane: Pane)
    requires f == FreeSlot(slots) && Live(slots) == []
    ensures PanesWith(slots, pane) == [pane]
  {
    hide Live, Panes, FreeSlot;
    var front, back := slots[..f], slots[f + 1..];
    assert slots == front + ([slots[f]] + back);
    LiveConcat(front, [slots[f]] + back);
    LiveConcat([slots[f]], back);
    assert Live(front) == [] && Live(back) == [] && Panes([]) == [];
    assert [] + [pane] + [] == [pane];
  }

  lemma OneTooLow(pane: Pane, lines: nat, cols: nat)
    requires cols >= 30 && lines < 0x1_0000_0000
    ensures TooLow([pane], lines, cols) <==> pane.height == 0 && lines < 3
  {
    hide Rows, Groups, FixedSum, FixedCount, FlexHeight;
    OneRow(pane, cols / MIN_WIN_WIDTH);
    Heights([pane], lines, cols);
    assert U32(lines) / 1 == lines;
  }

  lemma OneRow(pane: Pane, maxCols: nat)
    requires maxCols >= 1
    ensures |Rows(Groups([pane], 0), maxCols)| == 1 && FixedSum([pane]) == pane.height
    ensures FixedCount([pane]) == if pane.height > 0 then 1 else 0
  {
    assert [pane][1..] == [] && [1][1..] == [];
    assert Groups([pane], 0) == [1];
    assert RowsOf(1, maxCols) == [1];
  }

  ghost predicate Knows(slots: seq<Window?>, name: string) {
    exists i | 0 <= i < |slots| && slots[i] != null :: slots[i].title == name
  }

  class Curses {
    /** The slot table; its length is the program's `max_win`. */
    var windows: array<Window?>
    var nwin: nat

    ghost predicate Valid()
      reads this, windows
    {
      windows.Length > 0 && nwin == |Live(windows[..])| && WellFormed(windows[..])
    }

    ghost function Objects(): set<Window>
      reads this, windows
    {
      set w | w in Live(windows[..])
    }

    /** All windows have the places that the arrangement gives them. */
    ghost predicate Arranged(lines: nat, cols: nat)
      requires cols >= MIN_WIN_WIDTH
      reads this, windows, Objects()
    {
      var live := Live(windows[..]);
      Framed(live, Arrangement(Panes(live), lines, cols), |live|)
    }

    constructor ()
      ensures Valid() && windows.Length == 2 && Live(windows[..]) == [] && fresh(windows)
    {
      windows := new Window?[2](_ => null);
      nwin := 0;
      new;
      assert windows[..] == [] + windows[..];
      LiveOfGrown([], windows[..]);
    }

    /** `win_resize`; on a screen narrower than one column it divides by zero as soon as there is a window. */
    method WinResize(lines: nat, cols: nat) returns (divided: bool, r: int)
      requires Valid()
      modifies Objects()
      ensures divided <==> nwin > 0 && cols < MIN_WIN_WIDTH
      ensures divided ==> forall i | 0 <= i < windows.Length && windows[i] != null :: windows[i].frame == old(windows[i].frame)
      ensures nwin == 0 ==> r == 0
      ensures nwin > 0 && !divided ==> r == if TooLow(Panes(Live(windows[..])), lines, cols) then -1 else 0
      ensures nwin > 0 && !divided && r == 0 ==> Arranged(lines, cols)
    {
      hide Live, Panes, Framed, Groups, Rows, Cuts, Frames, FixedSum, FixedCount, FixedAreWide, FlexHeight, TooLow, RowCount;
      hide Arrangement, Arranged, Unshared, WellFormed, U32;
      TableMeans();
      if nwin == 0 {
        return false, 0;
      }
      ghost var live := Panes(Live(windows[..]));
      var split, nsplit, fixed, nfixed := SplitWindows(windows, nwin);
      var maxCols := cols / MIN_WIN_WIDTH;
      Columns(cols);
      if maxCols == 0 {
        FirstGroupDivides(live);
        return true, -1;
      }
      LiveAreCut(live, cols);
      RowsAreFew(Rows(Groups(live, 0), maxCols), live, maxCols);
      GroupsPositive(live, 0);
      assert forall k | 0 <= k < nsplit :: split[k] == split[..nsplit][k];
      var ncols, nlines := CountRows(split, nsplit, maxCols, nwin);
      FlexibleRowExists(live, Rows(Groups(live, 0), maxCols), maxCols);
      Heights(live, lines, cols);
      var height: nat := 0;
      if nlines != nfixed {
        height := U32(lines - fixed) / (nlines - nfixed);
        if height < MIN_WIN_HEIGHT {
          return false, -1;
        }
      }
      PlaceRows(windows, ncols, nlines, height, cols);
      ArrangedIs(lines, cols);
      return false, 0;
    }

    /** What `Valid` says of the table, and how many windows are live. */
    lemma TableMeans()
      requires Valid()
      ensures windows.Length > 0 && nwin == |Live(windows[..])| == |Panes(Live(windows[..]))|
      ensures Unshared(windows[..]) && FixedAreWide(Panes(Live(windows[..])))
    {
      WideWhenWellFormed(windows[..]);
    }

    lemma ArrangedIs(lines: nat, cols: nat)
      requires cols >= MIN_WIN_WIDTH
      ensures var live := Live(windows[..]);
              Arranged(lines, cols) <==> Framed(live, Arrangement(Panes(live), lines, cols), |live|)
      ensures var live := Panes(Live(windows[..]));
              var maxCols := cols / MIN_WIN_WIDTH;
              Cuts(Rows(Groups(live, 0), maxCols), live, maxCols) &&
              Arrangement(live, lines, cols) ==
              Frames(live, Rows(Groups(live, 0), maxCols), FlexHeight(live, lines, cols), cols, maxCols, 0)
    {
      hide Live, Panes, Framed, Groups, Rows, Cuts, Frames, FlexHeight;
      LiveAreCut(Panes(Live(windows[..])), cols);
    }

    /** The table doubles when it is full; the new slots are empty. */
    method Grow()
      requires Valid()
      modifies `windows
      ensures Valid() && nwin < windows.Length && (windows == old(windows) || fresh(windows))
      ensures windows.Length == if nwin == old(windows.Length) then 2 * old(windows.Length) else old(windows.Length)
      ensures nwin < old(windows.Length) ==> windows == old(windows)
      ensures |old(windows[..])| <= windows.Length && windows[..] == Padded(old(windows[..]), windows.Length)
    {
      LiveMembers(windows[..]);
      if nwin + 1 > windows.Length {
        hide Live;
        ghost var slots := windows[..];
        var table := new Window?[windows.Length * 2](_ => null);
        forall i | 0 <= i < windows.Length {
          table[i] := windows[i];
        }
        LiveOfGrown(slots, table[windows.Length..]);
        assert table[..] == slots + table[windows.Length..];
        windows := table;
      }
      assert windows[..] == Padded(old(windows[..]), windows.Length);
    }

    /** The last free slot, and the slot of the window with the title if there is one before it is found. */
    method FindSlot(name: string) returns (found: bool, id: nat)
      requires Valid() && nwin < windows.Length
      ensures id < windows.Length
      ensures found ==> windows[id] != null && windows[id].title == name
      ensures !found ==> windows[id] == null && !Knows(windows[..], name)
      ensures !found ==> forall k | id < k < windows.Length :: windows[k] != null
    {
      hide Live;
      var free: int := -1;
      var i := 0;
      while i < windows.Length
        invariant 0 <= i <= windows.Length && -1 <= free < i
        invariant free >= 0 ==> windows[free] == null
        invariant forall k | free < k < i :: windows[k] != null
        invariant forall k | 0 <= k < i && windows[k] != null :: windows[k].title != name
      {
        if windows[i] == null {
          free := i;
        } else if windows[i].title == name {
          return true, i;
        }
        i := i + 1;
      }
      if free == -1 {
        FullTable(windows[..]);
      }
      return false, free;
    }

    /**
     * `win_destroy`. There is no test for negative numbers, with which the program looks in front of the table; and on a
     * screen narrower than one column the arrangement of the windows that are left divides by zero.
     */
    method WinDestroy(id: int, lines: nat, cols: nat) returns (broken: bool, r: int)
      requires Valid()
      modifies this, windows, Objects()
      ensures Valid() && windows == old(windows)
      ensures var known := 0 <= id < windows.Length && old(windows[id]) != null;
              && (broken <==> id < 0 || (known && nwin > 0 && cols < MIN_WIN_WIDTH))
              && (!broken ==> r == if known then 0 else -1)
              && (known ==> windows[..] == old(windows[..])[id := null] && nwin == old(nwin) - 1)
              && (!known ==> windows[..] == old(windows[..]) && nwin == old(nwin))
              && (known && !broken && nwin > 0 && !TooLow(Panes(Live(windows[..])), lines, cols) ==> Arranged(lines, cols))
    {
      hide Live, Arranged, Panes, TooLow;
      if id >= windows.Length {
        return false, -1;
      }
      if id < 0 {
        return true, -1;
      }
      if windows[id] == null {
        return false, -1;
      }
      ghost var slots := windows[..];
      LiveCount(slots, id, null);
      windows[id] := null;
      assert windows[..] == slots[id := null];
      nwin := nwin - 1;
      LiveMembers(slots);
      LiveMembers(windows[..]);
      var divided, resized := WinResize(lines, cols);
      return divided, 0;
    }

    method Put(slot: nat, name: string, oneline: bool, height: nat)
      requires Valid() && slot < windows.Length && windows[slot] == null && !Knows(windows[..], name)
      modifies `nwin, windows
      ensures Valid() && windows[slot] != null && fresh(windows[slot]) && nwin == old(nwin) + 1
      ensures windows[..] == old(windows[..])[slot := windows[slot]]
      ensures windows[slot].title == name && windows[slot].height == height
      ensures windows[slot].oneline == (height > 0 || oneline)
    {
      hide Live;
      ghost var slots := windows[..];
      var w := new Window(name, if height > 0 then true else oneline, height);
      assert w !in slots;
      windows[slot] := w;
      LiveCount(slots, slot, w);
      assert windows[..] == slots[slot := w];
      nwin := nwin + 1;
    }

    /**
     * `win_create`: a known title gives its slot; otherwise a window is created if it can be arranged. On a screen
     * narrower than one column the arrangement divides by zero.
     */
    method WinCreate(name: string, oneline: bool, height: nat, lines: nat, cols: nat) returns (divided: bool, id: int)
      requires Valid()
      modifies this, windows, Objects()
      ensures Valid() && (windows == old(windows) || fresh(windows)) && |old(windows[..])| <= windows.Length
      ensures -1 <= id < windows.Length
      ensures var slots := Padded(old(windows[..]), windows.Length);
              // without a new window the slots are as before
              if divided then true
              else if id == -1 || slots[id] != null then windows[..] == slots && nwin == old(nwin)
              else windows[id] != null && windows[..] == slots[id := windows[id]] && nwin == old(nwin) + 1 &&
                   fresh(windows[id]) && windows[id].height == height && windows[id].oneline == (height > 0 || oneline) &&
                   cols >= MIN_WIN_WIDTH && Arranged(lines, cols)
      ensures id >= 0 ==> windows[id] != null && windows[id].title == name
      ensures Knows(Padded(old(windows[..]), windows.Length), name) <==>
                id >= 0 && Padded(old(windows[..]), windows.Length)[id] != null
      ensures divided <==> cols < MIN_WIN_WIDTH && !Knows(Padded(old(windows[..]), windows.Length), name)
      // a new title gets the last free slot, unless the windows with the new one are too low for the screen
      ensures var slots := Padded(old(windows[..]), windows.Length);
              !divided && !Knows(slots, name) ==>
                && FreeSlot(slots) >= 0
                && var panes := PanesWith(slots, Pane(height > 0 || oneline, height));
                   id == if TooLow(panes, lines, cols) then -1 else FreeSlot(slots)
      // and then the others are arranged again without it
      ensures !divided && id == -1 && nwin > 0 && !TooLow(Panes(Live(windows[..])), lines, cols) ==> Arranged(lines, cols)
    {
      hide Live, Arranged, Panes, PanesWith, FreeSlot, TooLow, WellFormed, Padded;
      LiveMembers(windows[..]);
      Grow();
      ghost var slots := windows[..];
      LiveMembers(slots);
      var found, slot := FindSlot(name);
      if found {
        return false, slot;
      }
      Put(slot, name, oneline, height);
      PutIntoFree(slots, slot, windows[slot]);
      LiveMembers(windows[..]);
      var r;
      divided, r := WinResize(lines, cols);
      if divided {
        return true, -1;
      }
      if r == 0 {
        divided, r := WinResize(lines, cols);
      }
      if r < 0 {
        var broken, destroyed := WinDestroy(slot, lines, cols);
        assert windows[..] == slots;
        return false, -1;
      }
      return false, slot;
    }
  }

  lemma {:induction false} FullTable(slots: seq<Window?>)
    requires forall k | 0 <= k < |slots| :: slots[k] != null
    ensures |Live(slots)| == |slots|
  {
    if slots != [] {
      FullTable(slots[1..]);
    }
  }

  /** After a successful resize no two windows overlap, and they fit the screen exactly if their fixed heights do. */
  lemma WindowsTile(ui: Curses, lines: nat, cols: nat)
    requires ui.Valid() && cols >= MIN_WIN_WIDTH && lines < 0x8000_0000
    requires FixedSum(Panes(Live(ui.windows[..]))) < 0x1_0000_0000
    requires !TooLow(Panes(Live(ui.windows[..])), lines, cols) && ui.Arranged(lines, cols)
    ensures var live := Live(ui.windows[..]);
            && (forall i, j | 0 <= i < j < |live| :: Disjoint(live[i].frame, live[j].frame))
            && (forall k | 0 <= k < |live| && live[k].oneline :: live[k].frame.x == 0 && live[k].frame.w == cols)
            && ((forall k | 0 <= k < |live| :: OnScreen(live[k].frame, lines, cols)) <==> FixedSum(Panes(live)) <= lines)
  {
    hide TooLow, Live, FixedSum, Arrangement, FixedAreWide, WellFormed;
    WideWhenWellFormed(ui.windows[..]);
    var live := Live(ui.windows[..]);
    TilesTheScreen(Panes(live), lines, cols);
    var f := Arrangement(Panes(live), lines, cols);
    assert forall k | 0 <= k < |live| :: live[k].frame == f[k];
  }
}

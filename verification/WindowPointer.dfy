/** What the pointer does to a window: resizing, dragging, snapping; and the animation offset. */
module WindowPointer {
  import opened Bytes
  import opened Window

  // --- Which edges ---

  /** Two opposite edges are never grabbed together, and none is in the middle of the window. */
  lemma EdgesExactly(g: Rect, px: int, py: int)
    ensures var e := EdgesAt(g, px, py);
            && !(e.left && e.right) && !(e.top && e.bottom)
            && (e == NO_EDGES <==>
                RESIZE_MARGIN <= px < g.w - RESIZE_MARGIN && RESIZE_MARGIN <= py < g.h - RESIZE_MARGIN)
  {
  }

  // --- Resizing ---

  /** The side dragged is the pointer's, but never shorter than the minimum; the side not dragged stays. */
  lemma HorizontalExactly(from: Rect, e: Edges, dx: int, minW: int)
    ensures var (x, w) := Horizontal(from, e, dx, minW);
            && (!e.left ==> x == from.x)
            && (e.left ==> x + w == from.x + from.w && w == Max(from.w - dx, minW))
            && (!e.left && e.right ==> w == Max(from.w + dx, minW))
            && (!e.left && !e.right ==> w == from.w)
  {
  }

  /** The same upright; a dragged top also stops at the top of the screen. */
  lemma VerticalExactly(from: Rect, e: Edges, dy: int, minH: int)
    ensures var (y, h) := Vertical(from, e, dy, minH);
            var bottom := from.y + from.h;
            && (!e.top ==> y == from.y)
            && (e.top ==> y + h == bottom && y == Max(bottom - Max(from.h - dy, minH), 0))
            && (!e.top && e.bottom ==> h == Max(from.h + dy, minH))
            && (!e.top && !e.bottom ==> h == from.h)
  {
  }

  /**
   A resize never goes below the minimum if and only if the undragged sides started above it
   and, for a dragged top, the bottom edge leaves room for it below the top of the screen.
   */
  lemma MinimumKeptExactly(from: Rect, e: Edges, dx: int, dy: int, minW: int, minH: int)
    ensures Resized(from, e, dx, dy, minW, minH).w >= minW <==> e.left || e.right || from.w >= minW
    ensures Resized(from, e, dx, dy, minW, minH).h >= minH <==>
            if e.top then from.y + from.h >= minH else e.bottom || from.h >= minH
    ensures Resized(from, e, dx, dy, minW, minH).y >= 0 <==> e.top || from.y >= 0
  {
    HorizontalExactly(from, e, dx, minW);
    VerticalExactly(from, e, dy, minH);
  }

  ghost predicate Resizing(win: Win) { win.open && !win.minimized && win.grab.edges != NO_EDGES }

  /** Pointer positions one after another. */
  function Motions(win: Win, at: seq<(real, real)>): Win
    decreases |at|
  {
    if at == [] then win
    else
      var p := at[|at| - 1];
      Motion(Motions(win, at[..|at| - 1]), p.0, p.1)
  }

  /** However the pointer got there, a resize depends on where it started and where the pointer is. */
  lemma {:induction false} ResizeDependsOnLast(win: Win, at: seq<(real, real)>)
    requires Resizing(win) && at != []
    ensures Motions(win, at).(panel := win.panel)
         == ProcessResize(win, at[|at| - 1].0, at[|at| - 1].1).(panel := win.panel)
    decreases |at|
  {
    hide Resized, Trunc, PanelResize, MinW, MinH;
    if |at| > 1 {
      ResizeDependsOnLast(win, at[..|at| - 1]);
    } else {
      assert Motions(win, at[..0]) == win;
    }
  }

  /** What a resize from g to r keeps: the edges not dragged, the minimum and the top of the screen. */
  ghost predicate Promises(g: Rect, r: Rect, e: Edges, minW: int, minH: int)
  {
    && (!e.left ==> r.x == g.x) && (!e.right ==> r.x + r.w == g.x + g.w)
    && (!e.top ==> r.y == g.y) && (!e.bottom ==> r.y + r.h == g.y + g.h)
    && (g.w >= minW ==> r.w >= minW)
    && (g.y >= 0 && g.h >= minH ==> r.y >= 0 && r.h >= minH)
  }

  lemma ResizedPromises(g: Rect, e: Edges, dx: int, dy: int, minW: int, minH: int)
    requires !(e.left && e.right) && !(e.top && e.bottom)
    ensures Promises(g, Resized(g, e, dx, dy, minW, minH), e, minW, minH)
  {
    hide Horizontal, Vertical;
    HorizontalExactly(g, e, dx, minW);
    VerticalExactly(g, e, dy, minH);
  }

  lemma PressGrabs(win: Win, lx: real, ly: real, hit: Hit, e: Edges)
    requires win.open && !win.minimized && !win.maximized && Inside(win.geo, lx, ly)
    requires e == EdgesAt(win.geo, Trunc(lx) - win.geo.x, Trunc(ly) - win.geo.y) && e != NO_EDGES
    ensures Press(win, lx, ly, hit) == win.(grab := Grab(e, lx, ly, win.geo))
  {
    hide EdgesAt, Trunc, Inside;
  }

  /** A whole resize, from the press to any motion after any others: where it ends, and what it keeps. */
  lemma ResizeKeepsPromises(win: Win, lx: real, ly: real, hit: Hit, e: Edges, at: seq<(real, real)>)
    requires win.open && !win.minimized && !win.maximized && Inside(win.geo, lx, ly) && at != []
    requires e == EdgesAt(win.geo, Trunc(lx) - win.geo.x, Trunc(ly) - win.geo.y) && e != NO_EDGES
    ensures var g := Motions(Press(win, lx, ly, hit), at).geo;
            && g == Resized(win.geo, e, Trunc(at[|at| - 1].0 - lx), Trunc(at[|at| - 1].1 - ly), MinW(win.impl),
               MinH(win.impl))
            && Promises(win.geo, g, e, MinW(win.impl), MinH(win.impl))
  {
    EdgesExactly(win.geo, Trunc(lx) - win.geo.x, Trunc(ly) - win.geo.y);
    hide EdgesAt, Trunc, Inside, Press, Motions, Promises, Resized, MinW, MinH;
    PressGrabs(win, lx, ly, hit, e);
    ResizeDependsOnLast(Press(win, lx, ly, hit), at);
    ResizedPromises(win.geo, e, Trunc(at[|at| - 1].0 - lx), Trunc(at[|at| - 1].1 - ly), MinW(win.impl), MinH(win.impl));
  }

  /** Hiding or minimizing a window does not end a resize: it goes on, without a press, when the window is back. */
  lemma ResizeOutlivesHide(win: Win, lx: real, ly: real)
    requires Resizing(win) && win.restored
    ensures Resizing(Show(Hide(win))) && Resizing(Unminimize(MinimizeWin(win)))
    ensures Motion(Show(Hide(win)), lx, ly).geo == ProcessResize(win, lx, ly).geo
    ensures !Resizing(SetDesktopShowing(SetDesktopShowing(win, true), false))
  {
    hide Resized, Trunc, MinW, MinH, CDiv;
  }

  // --- Dragging ---

  ghost predicate Moving(win: Win) { win.open && !win.minimized && win.grab.edges == NO_EDGES && win.drag.on }

  /** However the pointer got there, a drag depends on where it was taken up and where the pointer is. */
  lemma {:induction false} DragDependsOnLast(win: Win, at: seq<(real, real)>)
    requires Moving(win) && at != []
    ensures Motions(win, at) == Motion(win, at[|at| - 1].0, at[|at| - 1].1)
    decreases |at|
  {
    hide Trunc;
    if |at| > 1 {
      DragDependsOnLast(win, at[..|at| - 1]);
    } else {
      assert Motions(win, at[..0]) == win;
    }
  }

  /** A dragged window stays within reach exactly when the screen has room for its grip and its title bar. */
  lemma DraggedReachable(g: Rect, s: Screen, x: int, y: int, titleHeight: int)
    ensures var d := Dragged(g, s, x, y, titleHeight);
            && d.w == g.w && d.h == g.h
            && d.x <= s.w - GRIP && d.y <= s.Usable() - titleHeight
            && (d.x + d.w >= GRIP <==> s.w + g.w >= 2 * GRIP)
            && (d.y >= 0 <==> s.Usable() >= titleHeight)
            && (Dragged(d, s, d.x, d.y, titleHeight) == d || s.w + g.w < 2 * GRIP || s.Usable() < titleHeight)
  {
  }

  // --- Snapping ---

  /** The two halves lie side by side inside the screen, at most a pixel apart. */
  lemma HalvesTile(s: Screen)
    requires s.w > 0
    ensures var l, r := Half(s, SnapLeft), Half(s, SnapRight);
            && l.x == 0 && l.x + l.w <= r.x <= l.x + l.w + 1 && r.x + r.w == s.w
            && l.y == r.y == 0 && l.h == r.h == s.Usable() && l.w == r.w
  {
  }

  ghost predicate OnScreen(s: Screen, lx: real, ly: real)
  {
    0.0 <= lx && Trunc(lx) < s.w && 0.0 <= ly && Trunc(ly) < s.Usable()
  }

  /**
   A window let go where it snaps ends up under the pointer, on any screen wide enough to tell
   its two sides apart; one let go anywhere else stays as it was.
   */
  lemma SnapFollowsPointer(win: Win, lx: real, ly: real)
    requires OnScreen(win.screen, lx, ly) && win.screen.w >= 2 * (SNAP_MARGIN + 1) && !win.maximized
    ensures var edge := SnapFor(win.screen, lx, ly);
            if edge == SnapNone then SnapWindow(win, edge) == win
            else SnapWindow(win, edge).maximized && Inside(SnapWindow(win, edge).geo, lx, ly)
  {
    var edge := SnapFor(win.screen, lx, ly);
    if edge != SnapNone { SnapGeometry(win, edge); }
    TruncBelow(lx, SNAP_MARGIN);
    TruncAbove(lx, win.screen.w - 1 - SNAP_MARGIN);
    hide Trunc, SnapWindow;
  }

  lemma SnapGeometry(win: Win, edge: Snap)
    requires edge != SnapNone && !win.maximized
    ensures SnapWindow(win, edge).maximized
    ensures SnapWindow(win, edge).geo == if edge == SnapTop then Full(win.screen) else Half(win.screen, edge)
  {
    hide Applied, Save, Half, Full;
  }

  lemma TruncBelow(r: real, n: int)
    requires 0.0 <= r
    ensures 0 <= Trunc(r) && (r <= n as real ==> Trunc(r) <= n)
  {
  }

  lemma TruncAbove(r: real, n: int)
    requires 0.0 <= r
    ensures r >= n as real ==> Trunc(r) >= n
  {
  }

  /** Left and right mirror each other, below the strip along the top that wins over both. */
  lemma SnapMirrors(s: Screen, lx: real, ly: real)
    requires s.w >= 2 * (SNAP_MARGIN + 1)
    ensures SnapFor(s, lx, ly) == SnapLeft <==> SnapFor(s, (s.w - 1) as real - lx, ly) == SnapRight
    ensures SnapFor(s, lx, ly) == SnapTop <==> SnapFor(s, (s.w - 1) as real - lx, ly) == SnapTop
  {
  }

  // --- Clamping ---

  ghost predicate Fits(g: Rect, s: Screen) { 0 <= g.x && 0 <= g.y && g.x + g.w <= s.w && g.y + g.h <= s.Usable() }

  function Apart(a: int, b: int): nat { if a < b then b - a else a - b }

  /**
   A clamp moves nothing that fits, settles at once, and ends on the screen exactly when the window
   is not larger than it; no place on the screen is nearer than the one it picks, and a window too
   large for one is put at its start.
   */
  lemma ClampExactly(g: Rect, s: Screen)
    ensures var c := Clamped(g, s);
            && c.w == g.w && c.h == g.h && c.x >= 0 && c.y >= 0
            && (Fits(g, s) ==> c == g)
            && (Fits(c, s) <==> g.w <= s.w && g.h <= s.Usable())
            && Clamped(c, s) == c
            && (forall x: int :: 0 <= x <= s.w - g.w ==> Apart(c.x, g.x) <= Apart(x, g.x))
            && (forall y: int :: 0 <= y <= s.Usable() - g.h ==> Apart(c.y, g.y) <= Apart(y, g.y))
            && (g.w > s.w ==> c.x == 0) && (g.h > s.Usable() ==> c.y == 0)
  {
  }

  // --- The animation ---

  /** Each step is measured from the start, so the steps before it leave no trace in the offset. */
  lemma SlidePathIndependent(win: Win, a: int, b: int)
    requires win.geo.w > 0 && win.geo.h > 0
    ensures SlideTo(SlideTo(win, a), b) == SlideTo(win, b)
  {
    hide CDiv;
  }

  /** Whatever steps it takes, the last one lands the window exactly where it belongs. */
  lemma SlideLandsHome(win: Win, d: Offset, steps: seq<int>)
    requires win.geo.w > 0 && win.geo.h > 0
    ensures SlideTo(Slides(SetSlide(win, d), steps), 0) == SetSlide(win, Offset(0, 0)).(slide := Slide(Offset(0, 0), d))
  {
    hide SlideTo, SetSlide, Slides;
    var s := SetSlide(win, d);
    SlideHome(win, d);
    SlidesLast(s, steps);
    if steps != [] { SlidePathIndependent(s, steps[|steps| - 1], 0); }
  }

  lemma SlideHome(win: Win, d: Offset)
    requires win.geo.w > 0 && win.geo.h > 0
    ensures SlideTo(SetSlide(win, d), 0) == SetSlide(win, Offset(0, 0)).(slide := Slide(Offset(0, 0), d))
    ensures SetSlide(win, d).geo == win.geo
  {
    NothingLeft(d);
    hide CDiv;
  }

  lemma NothingLeft(d: Offset)
    ensures CDiv(d.x * 0, 1024) == 0 == CDiv(d.y * 0, 1024)
  {
  }

  function Slides(win: Win, steps: seq<int>): Win
    decreases |steps|
  {
    if steps == [] then win else SlideTo(Slides(win, steps[..|steps| - 1]), steps[|steps| - 1])
  }

  lemma {:induction false} SlidesLast(win: Win, steps: seq<int>)
    requires win.geo.w > 0 && win.geo.h > 0
    ensures Slides(win, steps) == if steps == [] then win else SlideTo(win, steps[|steps| - 1])
    decreases |steps|
  {
    if |steps| > 1 {
      SlidesLast(win, steps[..|steps| - 1]);
      SlidePathIndependent(win, steps[|steps| - 2], steps[|steps| - 1]);
    }
  }
}

/**
 What a hand at the pointer sees: from the press to the release, in pointer positions alone, where a
 window ends up that is resized, dragged, let go at an edge of the screen, or clicked.
 */
module WindowGestures {
  import opened Bytes
  import opened Window
  import opened WindowRuns
  import opened WindowPointer

  /** Where in the window the pointer is. */
  function Across(g: Rect, lx: real): int { Trunc(lx) - g.x }

  function Down(g: Rect, ly: real): int { Trunc(ly) - g.y }

  /** Within six pixels of a border, where a press takes hold of it. */
  ghost predicate AtBorder(g: Rect, lx: real, ly: real)
  {
    !(6 <= Across(g, lx) < g.w - 6 && 6 <= Down(g, ly) < g.h - 6)
  }

  /** No gesture is under way. */
  ghost predicate Idle(win: Win) { win.open && !win.minimized && !win.drag.on && win.grab.edges == NO_EDGES }

  function LeastWidth(impl: Impl): int { if impl.minW > 0 then impl.minW else 160 }

  function LeastHeight(impl: Impl): int { if impl.minH > 0 then impl.minH else 120 }

  function Least(a: int, b: int): int { if a < b then a else b }

  /** A position becomes the whole number next to it towards zero. */
  lemma TruncExactly(r: real)
    ensures if r >= 0.0 then Trunc(r) as real <= r < Trunc(r) as real + 1.0 && Trunc(r) >= 0
            else Trunc(r) as real - 1.0 < r <= Trunc(r) as real && Trunc(r) <= 0
  {
  }

  /** On the screen, a pointer is inside a window from its left and top borders up to its right and bottom ones. */
  lemma InsideExactly(g: Rect, lx: real, ly: real)
    requires lx >= 0.0 && ly >= 0.0
    ensures Inside(g, lx, ly) <==>
            && g.x as real <= lx < (g.x + g.w) as real && g.y as real <= ly < (g.y + g.h) as real
  {
    TruncExactly(lx);
    TruncExactly(ly);
    hide Trunc;
  }

  // --- Resizing ---

  /**
   Left to right, after a press at px and a pointer gone dx since: at the left border the right edge
   stays and the left one follows, at the right border the other way about, down to the least width.
   */
  ghost predicate FollowsAcross(g: Rect, r: Rect, px: int, dx: int, least: int)
  {
    if px < 6 then r.x + r.w == g.x + g.w && r.w == Max(g.w - dx, least)
    else if px >= g.w - 6 then r.x == g.x && r.w == Max(g.w + dx, least)
    else r.x == g.x && r.w == g.w
  }

  /** The same from top to bottom, a dragged top stopping at the top of the screen besides. */
  ghost predicate FollowsDown(g: Rect, r: Rect, py: int, dy: int, least: int)
  {
    if py < 6 then r.y + r.h == g.y + g.h && r.y == Max(g.y + g.h - Max(g.h - dy, least), 0)
    else if py >= g.h - 6 then r.y == g.y && r.h == Max(g.h + dy, least)
    else r.y == g.y && r.h == g.h
  }

  lemma ResizedFollows(g: Rect, px: int, py: int, dx: int, dy: int, impl: Impl)
    ensures var r := Resized(g, EdgesAt(g, px, py), dx, dy, MinW(impl), MinH(impl));
            FollowsAcross(g, r, px, dx, LeastWidth(impl)) && FollowsDown(g, r, py, dy, LeastHeight(impl))
  {
    var e := EdgesAt(g, px, py);
    HorizontalExactly(g, e, dx, MinW(impl));
    VerticalExactly(g, e, dy, MinH(impl));
    hide Horizontal, Vertical;
  }

  /**
   A press at a border and any motions of the pointer: the edges pressed follow it, and the edges
   opposite stay where they were. At a corner both do.
   */
  lemma ResizeFollowsPointer(win: Win, lx: real, ly: real, hit: Hit, at: seq<(real, real)>)
    requires win.open && !win.minimized && !win.maximized && Inside(win.geo, lx, ly) && at != []
    requires AtBorder(win.geo, lx, ly)
    ensures var r := Motions(Press(win, lx, ly, hit), at).geo;
            var last := at[|at| - 1];
            && FollowsAcross(win.geo, r, Across(win.geo, lx), Trunc(last.0 - lx), LeastWidth(win.impl))
            && FollowsDown(win.geo, r, Down(win.geo, ly), Trunc(last.1 - ly), LeastHeight(win.impl))
  {
    hide EdgesAt, Trunc, Inside, Press, Motions, Promises, Resized, MinW, MinH, FollowsAcross, FollowsDown, AtBorder;
    var px, py, last := Across(win.geo, lx), Down(win.geo, ly), at[|at| - 1];
    BorderGrabs(win.geo, lx, ly);
    ResizedFollows(win.geo, px, py, Trunc(last.0 - lx), Trunc(last.1 - ly), win.impl);
    ResizeKeepsPromises(win, lx, ly, hit, EdgesAt(win.geo, px, py), at);
  }

  lemma BorderGrabs(g: Rect, lx: real, ly: real)
    ensures AtBorder(g, lx, ly) <==> EdgesAt(g, Across(g, lx), Down(g, ly)) != NO_EDGES
  {
    hide Trunc;
  }

  // --- Dragging ---

  ghost predicate OnTitle(win: Win, lx: real, ly: real)
  {
    Idle(win) && !win.maximized && Inside(win.geo, lx, ly) && !AtBorder(win.geo, lx, ly)
  }

  lemma PressMoves(win: Win, lx: real, ly: real)
    requires OnTitle(win, lx, ly)
    ensures Press(win, lx, ly, Titlebar)
         == win.(held := Titlebar, drag := Drag(true, lx - win.geo.x as real, ly - win.geo.y as real, win.geo))
  {
    BorderGrabs(win.geo, lx, ly);
    hide EdgesAt, Trunc, Inside;
  }

  /** How far the pointer has gone, from where the window was, cut to what keeps it in reach. */
  ghost predicate MovedBy(win: Win, r: Rect, dx: real, dy: real)
  {
    && r.w == win.geo.w && r.h == win.geo.h
    && r.x == Least(Max(Trunc(win.geo.x as real + dx), 80 - win.geo.w), win.screen.w - 80)
    && r.y == Least(Max(Trunc(win.geo.y as real + dy), 0), win.screen.h - win.screen.reserved - win.impl.titleHeight)
  }

  /** A window taken by its title goes where the pointer goes, as far as 80 pixels and the title stay in reach. */
  lemma DragFollowsPointer(win: Win, lx: real, ly: real, at: seq<(real, real)>)
    requires OnTitle(win, lx, ly) && at != []
    ensures var r := Motions(Press(win, lx, ly, Titlebar), at);
            var last := at[|at| - 1];
            && MovedBy(win, r.geo, last.0 - lx, last.1 - ly)
            && r.panel.x == r.geo.x && r.panel.y == r.geo.y
  {
    var p, last := Press(win, lx, ly, Titlebar), at[|at| - 1];
    PressMoves(win, lx, ly);
    hide Press, AtBorder, Inside, Trunc;
    DragDependsOnLast(p, at);
    assert last.0 - p.drag.x == win.geo.x as real + (last.0 - lx);
    assert last.1 - p.drag.y == win.geo.y as real + (last.1 - ly);
  }

  lemma WholeTrunc(n: int)
    ensures Trunc(n as real) == n
  {
  }

  /** By whole pixels, and within reach: exactly as far as the pointer. */
  lemma DragMovesAsFar(win: Win, lx: real, ly: real, at: seq<(real, real)>, dx: int, dy: int)
    requires OnTitle(win, lx, ly) && at != []
    requires at[|at| - 1] == (lx + dx as real, ly + dy as real)
    requires 80 - win.geo.w <= win.geo.x + dx <= win.screen.w - 80
    requires 0 <= win.geo.y + dy <= win.screen.h - win.screen.reserved - win.impl.titleHeight
    ensures Motions(Press(win, lx, ly, Titlebar), at).geo
         == Rect(win.geo.x + dx, win.geo.y + dy, win.geo.w, win.geo.h)
  {
    DragFollowsPointer(win, lx, ly, at);
    WholeTrunc(win.geo.x + dx);
    WholeTrunc(win.geo.y + dy);
    assert win.geo.x as real + dx as real == (win.geo.x + dx) as real;
    assert win.geo.y as real + dy as real == (win.geo.y + dy) as real;
    hide Trunc, Press, Motions, OnTitle;
  }

  // --- Letting go ---

  /** Where a dragged window ends up that is let go with the pointer there, on that screen. */
  ghost predicate EndsAt(s: Screen, mx: real, my: real, dragged: Rect, r: Win)
  {
    var usable := s.h - s.reserved;
    if s.w <= 0 || s.h <= 0 then r.geo == dragged && !r.maximized
    else if my <= 8.0 then r.geo == Rect(0, 0, s.w, usable) && r.maximized
    else if mx <= 8.0 then r.geo == Rect(0, 0, s.w / 2, usable) && r.maximized
    else if mx >= (s.w - 9) as real then r.geo == Rect(s.w - s.w / 2, 0, s.w / 2, usable) && r.maximized
    else r.geo == dragged && !r.maximized
  }

  lemma SnapEnds(win: Win, mx: real, my: real)
    requires !win.maximized
    ensures EndsAt(win.screen, mx, my, win.geo, SnapWindow(win, SnapFor(win.screen, mx, my)))
  {
    var edge := SnapFor(win.screen, mx, my);
    if edge != SnapNone { SnapGeometry(win, edge); }
    hide SnapWindow;
  }

  lemma LetGoEnds(win: Win, mx: real, my: real, under: Hit)
    requires win.open && !win.minimized && !win.maximized && win.drag.on && win.held == Titlebar
    ensures var r := Release(win, mx, my, under);
            EndsAt(win.screen, mx, my, win.geo, r) && !r.drag.on && r.open && !r.minimized
  {
    var free := win.(drag := win.drag.(on := false), grab := win.grab.(edges := NO_EDGES), held := Elsewhere);
    SnapEnds(free, mx, my);
    SnapKeepsOpen(free, SnapFor(win.screen, mx, my));
    hide SnapWindow, SnapFor, Inside;
  }

  lemma SnapKeepsOpen(win: Win, edge: Snap)
    ensures var r := SnapWindow(win, edge);
            r.open == win.open && r.minimized == win.minimized && r.drag == win.drag
  {
    hide Half, Full;
  }

  lemma DragStaysOn(win: Win, lx: real, ly: real, at: seq<(real, real)>)
    requires OnTitle(win, lx, ly)
    ensures var r := Motions(Press(win, lx, ly, Titlebar), at);
            && r.open && !r.minimized && !r.maximized && r.drag.on && r.held == Titlebar && r.screen == win.screen
  {
    PressMoves(win, lx, ly);
    hide Press, Inside, Trunc, AtBorder;
    if at != [] {
      DragDependsOnLast(Press(win, lx, ly, Titlebar), at);
      hide Motions, Dragged;
    }
  }

  /**
   A window taken by its title, dragged and let go: within eight pixels of the top it fills the screen,
   of the left or the right it takes that half, and anywhere else it stays where it was dragged.
   */
  lemma DragEnds(win: Win, lx: real, ly: real, at: seq<(real, real)>, mx: real, my: real, under: Hit)
    requires OnTitle(win, lx, ly)
    ensures var dragged := Motions(Press(win, lx, ly, Titlebar), at);
            var r := Release(dragged, mx, my, under);
            EndsAt(win.screen, mx, my, dragged.geo, r) && !r.drag.on && r.open && !r.minimized
  {
    DragStaysOn(win, lx, ly, at);
    hide Press, Motions, Release, EndsAt, OnTitle;
    LetGoEnds(Motions(Press(win, lx, ly, Titlebar), at), mx, my, under);
  }

  // --- Clicking ---

  lemma {:induction false} NothingMoves(win: Win, at: seq<(real, real)>)
    requires Idle(win)
    ensures Motions(win, at) == win
    decreases |at|
  {
    if at != [] { NothingMoves(win, at[..|at| - 1]); }
  }

  /** What a click on a caption button makes of a window. */
  ghost predicate Clicked(win: Win, button: Hit, r: Win)
  {
    match button
    case Close => !r.open && !r.panel.enabled && r.geo == win.geo
    case Minimize => r.open && r.minimized && !r.panel.enabled && r.geo == win.geo && r.maximized == win.maximized
    case Maximize =>
      && r.open && !r.minimized && r.maximized == !win.maximized
      && r.geo == if win.maximized then win.restore
                  else Rect(0, 0, win.screen.w, win.screen.h - win.screen.reserved)
    case _ => r == win
  }

  lemma CaptionClicked(win: Win, button: Hit)
    requires win.open && !win.minimized
    ensures Clicked(win, button, Caption(win, button))
  {
  }

  lemma PressHolds(win: Win, lx: real, ly: real, hit: Hit)
    requires Idle(win) && Inside(win.geo, lx, ly) && (win.maximized || !AtBorder(win.geo, lx, ly)) && hit != Titlebar
    ensures Press(win, lx, ly, hit) == win.(held := hit)
  {
    BorderGrabs(win.geo, lx, ly);
    hide EdgesAt, Trunc, Inside;
  }

  /**
   A press on a caption button, any motions, and a release: closes, minimizes, maximizes or goes back
   when it is released on the same button inside the window, and does nothing otherwise.
   */
  lemma ClickExactly(win: Win, lx: real, ly: real, button: Hit, at: seq<(real, real)>, mx: real, my: real, under: Hit)
    requires Idle(win) && Inside(win.geo, lx, ly) && (win.maximized || !AtBorder(win.geo, lx, ly))
    requires button == Close || button == Minimize || button == Maximize
    ensures var r := Release(Motions(Press(win, lx, ly, button), at), mx, my, under);
            if under == button && Inside(win.geo, mx, my) then Clicked(win, button, r)
            else r == win.(held := Elsewhere)
  {
    PressHolds(win, lx, ly, button);
    hide Press, AtBorder;
    NothingMoves(win.(held := button), at);
    hide Inside, Motions;
    CaptionClicked(win.(held := Elsewhere), button);
    hide Caption;
  }

  // --- Out of sight and back ---

  /** With its desktop showing, toggling shows what is hidden and hides what is shown. */
  lemma ToggleFlips(win: Win)
    requires Inv(win) && !win.desktopHidden
    ensures Toggle(win).panel.enabled == !win.panel.enabled
  {
    ShowInv(win);
    HideInv(win);
    ShowOpens(win);
    hide Place, OpenUp;
  }

  lemma ShowOpens(win: Win)
    ensures Show(win).open && !Show(win).minimized && Show(win).desktopHidden == win.desktopHidden
  {
    PlaceKeepsFlags(win);
    hide Place, Centred, Applied;
  }

  lemma PlaceKeepsFlags(win: Win)
    ensures var r := Place(win);
            r.open == win.open && r.desktopHidden == win.desktopHidden
  {
    hide Remembered, Save;
    SaveKeeps(win);
  }

  lemma SaveKeeps(win: Win)
    ensures Save(win).open == win.open
  {
  }

  /** Which desktop is showing decides whether an open window is seen, and leaving it ends what was being dragged. */
  lemma DesktopDecides(win: Win, showing: bool)
    requires Inv(win)
    ensures var r := SetDesktopShowing(win, showing);
            && r.panel.enabled == (showing && win.open && !win.minimized)
            && r.geo == win.geo && r.open == win.open && r.minimized == win.minimized
            && (!showing && !win.desktopHidden ==> !r.drag.on && r.grab.edges == NO_EDGES && !r.focused)
  {
  }

  /** Minimizing and restoring gives the window back as it was, but that it has no focus and is not being dragged. */
  lemma MinimizeUndone(win: Win)
    requires Inv(win) && win.open && !win.minimized
    ensures !MinimizeWin(win).panel.enabled
    ensures Unminimize(MinimizeWin(win)) == win.(focused := false, drag := win.drag.(on := false))
  {
  }

  /** So does hiding and showing, drawn where it belongs, unless it was at the very corner of the screen. */
  lemma HideUndone(win: Win)
    requires Inv(win) && win.open && !(win.geo.x == 0 && win.geo.y == 0)
    ensures !Hide(win).open && !Hide(win).panel.enabled
    ensures Show(Hide(win)) == ApplyVisibility(Applied(win.(minimized := false, focused := false,
                                                            drag := win.drag.(on := false))))
  {
  }

  /** Focusing an open window brings it back if it was minimized, and changes nothing else. */
  lemma FocusShows(win: Win)
    requires Inv(win) && win.open
    ensures !Focus(win).minimized && Focus(win).panel.enabled == !win.desktopHidden
    ensures Focus(win).geo == win.geo && (!win.minimized ==> Focus(win) == win)
  {
  }

  // --- Places ---

  /** On a new screen a maximized window fills it, and any other is where the clamp puts it, drawn there. */
  lemma ScreenFills(win: Win, s: Screen)
    ensures var r := ScreenChanged(win, s);
            && r.screen == s && r.maximized == win.maximized && r.restore == win.restore
            && (win.maximized ==> r.geo == Rect(0, 0, s.w, s.h - s.reserved))
            && (!win.maximized ==> r.geo == Clamped(win.geo, s))
            && r.panel.x == r.geo.x + win.slide.now.x && r.panel.y == r.geo.y + win.slide.now.y
  {
  }

  /** A centred window has the same margin on both sides, give or take a pixel, and never a negative one. */
  lemma CentredExactly(win: Win)
    ensures var c, s := Centred(win).geo, win.screen;
            && c.w == win.geo.w && c.h == win.geo.h
            && (if c.w <= s.w then 0 <= (s.w - c.w - c.x) - c.x <= 1 else c.x == 0)
            && (if c.h <= s.h - s.reserved then 0 <= (s.h - s.reserved - c.h - c.y) - c.y <= 1 else c.y == 0)
  {
  }

  /** A move is exact to where the window fits, and a maximized window is not moved. */
  lemma MoveExactly(win: Win, x: int, y: int)
    requires win.maximized || (0 <= x && x + win.geo.w <= win.screen.w
                               && 0 <= y && y + win.geo.h <= win.screen.h - win.screen.reserved)
    ensures SetOrigin(win, x, y).geo == if win.maximized then win.geo else Rect(x, y, win.geo.w, win.geo.h)
  {
  }

  /** Of what is remembered, a size is used if it is not too small, and a place if the pointer could reach it there. */
  lemma RememberedExactly(win: Win, x: int, y: int, w: int, h: int)
    requires win.saved.x == Some(x) && win.saved.y == Some(y) && win.saved.w == Some(w) && win.saved.h == Some(h)
    ensures var r := Remembered(win);
            && (r.w, r.h) == (if w >= win.impl.minW && h >= win.impl.minH then (w, h) else (win.geo.w, win.geo.h))
            && (r.x, r.y) == (if x + r.w > 80 && x + 80 < win.screen.w && 0 <= y
                                 && y + win.impl.titleHeight < win.screen.h && win.screen.w > 0 && win.screen.h > 0
                              then (x, y) else (win.geo.x, win.geo.y))
  {
  }

  /** What is remembered of a window with a title: where it is, or where it goes back to. */
  ghost predicate RemembersItself(win: Win)
  {
    var g := if win.maximized then win.restore else win.geo;
    win.saved == Registry(Some(g.x), Some(g.y), Some(g.w), Some(g.h), Some(win.maximized))
  }

  lemma SaveRemembers(win: Win)
    requires win.impl.titled
    ensures RemembersItself(Save(win))
  {
  }

  /** The end of any drag or resize is remembered, and so is maximizing and going back. */
  lemma EndsRemembered(win: Win, lx: real, ly: real, on: bool)
    requires win.impl.titled
    ensures win.drag.on || win.grab.edges != NO_EDGES ==> RemembersItself(LetGo(win, lx, ly))
    ensures win.restored && win.maximized != on ==> RemembersItself(SetMaximized(win, on))
  {
    var free := win.(drag := win.drag.(on := false), grab := win.grab.(edges := NO_EDGES), held := Elsewhere);
    SnapKeepsTitle(free, SnapFor(win.screen, lx, ly));
    SaveRemembers(free);
    SaveRemembers(SnapWindow(free, SnapFor(win.screen, lx, ly)));
    hide SnapWindow, SnapFor, RemembersItself, Applied;
  }

  lemma SnapKeepsTitle(win: Win, edge: Snap)
    ensures SnapWindow(win, edge).impl == win.impl
  {
    hide Half, Full;
  }

  /** A new window is as large as its application says, or 400 by 300, and no smaller than its least size. */
  lemma CreatedExactly(impl: Impl, saved: Registry)
    ensures var win := Create(impl, saved);
            && win.geo == win.restore
            && win.geo.w == Max(if impl.defaultW > 0 then impl.defaultW else 400, LeastWidth(impl))
            && win.geo.h == Max(if impl.defaultH > 0 then impl.defaultH else 300, LeastHeight(impl))
            && win.panel.w == win.geo.w && win.panel.h == win.geo.h && Idle(win.(open := true))
  {
  }

  // --- The animation ---

  lemma FullTimes(n: int)
    ensures CDiv(n * 1024, 1024) == n
  {
  }

  /** An animation starts at its offset, and on the way is never farther off than that. */
  lemma SlideBegins(win: Win, d: Offset)
    requires win.geo.w > 0 && win.geo.h > 0
    ensures SlideTo(SetSlide(win, d), 1024) == SetSlide(win, d)
  {
    FullTimes(d.x);
    FullTimes(d.y);
    hide CDiv;
  }

  lemma Part(n: int, left: int)
    requires 0 <= left <= 1024
    ensures if n >= 0 then 0 <= CDiv(n * left, 1024) <= n else n <= CDiv(n * left, 1024) <= 0
  {
    if n >= 0 {
      assert 0 <= n * left <= n * 1024;
    } else {
      assert n * 1024 <= n * left <= 0;
    }
  }

  lemma SlideBetween(win: Win, d: Offset, left: int)
    requires 0 <= left <= 1024
    ensures var now := SlideTo(SetSlide(win, d), left).slide.now;
            && (if d.x >= 0 then 0 <= now.x <= d.x else d.x <= now.x <= 0)
            && (if d.y >= 0 then 0 <= now.y <= d.y else d.y <= now.y <= 0)
  {
    Part(d.x, left);
    Part(d.y, left);
    hide CDiv;
  }
}

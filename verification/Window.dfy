/**
 One application window as a value: its place on the screen, what is being dragged, the
 panel that shows it, and what each event makes of them.
 */
module Window {
  import opened Bytes

  const RESIZE_MARGIN: int := 6
  const MIN_WIDTH: int := 160
  const MIN_HEIGHT: int := 120
  const SNAP_MARGIN: int := 8
  const GRIP: int := 80

  datatype Rect = Rect(x: int, y: int, w: int, h: int)

  datatype Screen = Screen(w: int, h: int, reserved: int) {
    function Usable(): int { h - reserved }
  }

  /** The stub of the panel: its pixel buffer's size, where it is drawn, and whether. */
  datatype Panel = Panel(w: int, h: int, x: int, y: int, enabled: bool)

  /** What an application declares, zero where it does not say, whether it has a title, and the skin's title height. */
  datatype Impl = Impl(minW: int, minH: int, defaultW: int, defaultH: int, titled: bool, titleHeight: int)

  datatype Edges = Edges(top: bool, bottom: bool, left: bool, right: bool)

  const NO_EDGES: Edges := Edges(false, false, false, false)

  /** What the remembered settings say under this window's name, key by key. */
  datatype Registry = Registry(x: Option<int>, y: Option<int>, w: Option<int>, h: Option<int>, maximized: Option<bool>)

  datatype Hit = Elsewhere | Titlebar | Close | Minimize | Maximize

  datatype Offset = Offset(x: int, y: int)

  /** Drawn this far from its place now, and this far when the animation began. */
  datatype Slide = Slide(now: Offset, from: Offset)

  /** A move under way: where the pointer took hold of the window, and where the window was. */
  datatype Drag = Drag(on: bool, x: real, y: real, from: Rect)

  /** A resize under way: the edges held, where the pointer was, and where the window was. */
  datatype Grab = Grab(edges: Edges, x: real, y: real, from: Rect)

  datatype Win = Win(
    impl: Impl,
    open: bool, minimized: bool, maximized: bool, desktopHidden: bool, focused: bool,
    geo: Rect, restore: Rect, slide: Slide, drag: Drag, grab: Grab,
    screen: Screen, restored: bool, held: Hit,
    panel: Panel, saved: Registry)

  /** A conversion from double to int drops the fraction. */
  function Trunc(r: real): int
  {
    if r >= 0.0 then r.Floor else -((-r).Floor)
  }

  /** Division of ints drops the fraction too. */
  function CDiv(n: int, d: nat): int
    requires d > 0
  {
    if n >= 0 then n / d else -((-n) / d)
  }

  // --- Geometry ---

  /** The panel refuses a size with nothing in it and keeps the one it had. */
  function PanelResize(p: Panel, w: int, h: int): Panel
  {
    if w <= 0 || h <= 0 then p else p.(w := w, h := h)
  }

  /** Gives the panel the window's size and place, and touches nothing else. */
  function Applied(win: Win): (r: Win)
    ensures r == win.(panel := r.panel)
  {
    var sized := PanelResize(win.panel, win.geo.w, win.geo.h);
    win.(panel := sized.(x := win.geo.x + win.slide.now.x, y := win.geo.y + win.slide.now.y))
  }

  function Shown(win: Win): bool { win.open && !win.minimized && !win.desktopHidden }

  function ApplyVisibility(win: Win): (r: Win)
    ensures r == win.(panel := r.panel)
  {
    win.(panel := win.panel.(enabled := Shown(win)))
  }

  function Full(s: Screen): Rect { Rect(0, 0, s.w, s.Usable()) }

  /** Back from beyond the right and bottom edges first, then from beyond the left and top. */
  function Clamped(g: Rect, s: Screen): Rect
  {
    var x := if g.x + g.w > s.w then s.w - g.w else g.x;
    var y := if g.y + g.h > s.Usable() then s.Usable() - g.h else g.y;
    Rect(if x < 0 then 0 else x, if y < 0 then 0 else y, g.w, g.h)
  }

  function ScreenChanged(win: Win, s: Screen): Win
  {
    var moved := win.(screen := s);
    Applied(moved.(geo := if win.maximized then Full(s) else Clamped(win.geo, s)))
  }

  function SetOrigin(win: Win, x: int, y: int): Win
  {
    if win.maximized then win else Applied(win.(geo := Clamped(win.geo.(x := x, y := y), win.screen)))
  }

  function SetSlide(win: Win, d: Offset): Win { Applied(win.(slide := Slide(d, d))) }

  function SlideTo(win: Win, left: int): Win
  {
    var now := Offset(CDiv(win.slide.from.x * left, 1024), CDiv(win.slide.from.y * left, 1024));
    Applied(win.(slide := win.slide.(now := now)))
  }

  /** Remembers where to open next time; an application without a title has no name to remember it under. */
  function Save(win: Win): (r: Win)
    ensures r == win.(saved := r.saved)
  {
    if !win.impl.titled then win else
    var g := if win.maximized then win.restore else win.geo;
    win.(saved := Registry(Some(g.x), Some(g.y), Some(g.w), Some(g.h), Some(win.maximized)))
  }

  function SetMaximized(win: Win, on: bool): Win
  {
    if win.maximized == on then win
    else
      var turned := if on then win.(restore := win.geo, geo := Full(win.screen), maximized := true)
                    else win.(geo := win.restore, maximized := false);
      var shown := Applied(turned);
      if win.restored then Save(shown) else shown
  }

  function MinW(impl: Impl): int { if impl.minW > 0 then impl.minW else MIN_WIDTH }

  function MinH(impl: Impl): int { if impl.minH > 0 then impl.minH else MIN_HEIGHT }

  function Max(a: int, b: int): int { if a < b then b else a }

  function Create(impl: Impl, saved: Registry): Win
  {
    var w := Max(if impl.defaultW > 0 then impl.defaultW else 400, MinW(impl));
    var h := Max(if impl.defaultH > 0 then impl.defaultH else 300, MinH(impl));
    var none := Rect(0, 0, 0, 0);
    Win(impl, false, false, false, false, false, Rect(0, 0, w, h), Rect(0, 0, w, h),
        Slide(Offset(0, 0), Offset(0, 0)), Drag(false, 0.0, 0.0, none), Grab(NO_EDGES, 0.0, 0.0, none),
        Screen(0, 0, 0), false, Elsewhere,
        Panel(w, h, 0, 0, false), saved)
  }

  // --- Remembered geometry ---

  function Or<T>(o: Option<T>, other: T): T { if o.Some? then o.value else other }

  /** A remembered place still within reach of the pointer. */
  predicate Reachable(x: int, y: int, w: int, s: Screen, titleHeight: int)
  {
    x > -(w - GRIP) && y >= 0 && s.w > 0 && x < s.w - GRIP && s.h > 0 && y < s.h - titleHeight
  }

  function Remembered(win: Win): Rect
  {
    var g := win.geo;
    var w, h := Or(win.saved.w, g.w), Or(win.saved.h, g.h);
    var sized := if w >= win.impl.minW && h >= win.impl.minH then g.(w := w, h := h) else g;
    var x, y := Or(win.saved.x, g.x), Or(win.saved.y, g.y);
    if Reachable(x, y, sized.w, win.screen, win.impl.titleHeight) then sized.(x := x, y := y) else sized
  }

  function RestoreGeometry(win: Win): Win
  {
    if !win.impl.titled then win else
    var placed := win.(geo := Remembered(win));
    if Or(win.saved.maximized, false) then SetMaximized(placed, true) else placed
  }

  // --- Showing and hiding ---

  function Centred(win: Win): Win
  {
    var g, s := win.geo, win.screen;
    win.(geo := Rect(Max(CDiv(s.w - g.w, 2), 0), Max(CDiv(s.Usable() - g.h, 2), 0), g.w, g.h))
  }

  function SetDesktopShowing(win: Win, showing: bool): Win
  {
    if win.desktopHidden == !showing then win
    else
      var turned := win.(desktopHidden := !showing);
      var idle := turned.(focused := false, drag := win.drag.(on := false), grab := win.grab.(edges := NO_EDGES));
      ApplyVisibility(if showing then turned else idle)
  }

  /** Opens a closed window: centred if it has never been anywhere. */
  function OpenUp(win: Win): (r: Win)
    ensures r == win.(open := true, geo := r.geo, panel := r.panel)
  {
    if win.open then win
    else
      var up := win.(open := true);
      Applied(if win.geo.x == 0 && win.geo.y == 0 then Centred(up) else up)
  }

  /** The first time, the remembered place is looked up. */
  function Place(win: Win): Win
  {
    if win.restored then win else RestoreGeometry(win.(restored := true))
  }

  function Show(win: Win): Win
  {
    ApplyVisibility(OpenUp(Place(win)).(minimized := false))
  }

  function Hide(win: Win): Win
  {
    if !win.open then win
    else ApplyVisibility(win.(open := false, minimized := false, drag := win.drag.(on := false), focused := false))
  }

  function Toggle(win: Win): Win
  {
    if win.open && !win.minimized then Hide(win) else Show(win)
  }

  function MinimizeWin(win: Win): Win
  {
    if !win.open || win.minimized then win
    else ApplyVisibility(win.(minimized := true, drag := win.drag.(on := false), focused := false))
  }

  function Unminimize(win: Win): Win
  {
    if !win.open || !win.minimized then win else ApplyVisibility(win.(minimized := false))
  }

  function Focus(win: Win): Win
  {
    if win.open && win.minimized then Unminimize(win) else win
  }

  // --- Resizing ---

  function EdgesAt(g: Rect, px: int, py: int): Edges
  {
    Edges(py < RESIZE_MARGIN,
          py >= RESIZE_MARGIN && py >= g.h - RESIZE_MARGIN,
          px < RESIZE_MARGIN,
          px >= RESIZE_MARGIN && px >= g.w - RESIZE_MARGIN)
  }

  /**
   One axis: where the near edge goes and how long the side becomes, near edge dragged, far edge
   dragged or neither.
   */
  function Horizontal(from: Rect, e: Edges, dx: int, minW: int): (int, int)
  {
    if e.left then
      var left, w := from.x + dx, from.w - dx;
      if w < minW then (left - (minW - w), minW) else (left, w)
    else if e.right then
      var w := from.w + dx;
      (from.x, if w < minW then minW else w)
    else (from.x, from.w)
  }

  /** The same, and a dragged top stops at the top of the screen. */
  function Vertical(from: Rect, e: Edges, dy: int, minH: int): (int, int)
  {
    if e.top then
      var top, h := from.y + dy, from.h - dy;
      var top2, h2 := if h < minH then top - (minH - h) else top, if h < minH then minH else h;
      if top2 < 0 then (0, h2 + top2) else (top2, h2)
    else if e.bottom then
      var h := from.h + dy;
      (from.y, if h < minH then minH else h)
    else (from.y, from.h)
  }

  function Resized(from: Rect, e: Edges, dx: int, dy: int, minW: int, minH: int): Rect
  {
    var (x, w) := Horizontal(from, e, dx, minW);
    var (y, h) := Vertical(from, e, dy, minH);
    Rect(x, y, w, h)
  }

  function ProcessResize(win: Win, lx: real, ly: real): Win
  {
    Applied(win.(geo := Resized(win.grab.from, win.grab.edges, Trunc(lx - win.grab.x), Trunc(ly - win.grab.y),
                                MinW(win.impl), MinH(win.impl))))
  }

  lemma ResizeIs(win: Win, lx: real, ly: real, g: Rect)
    requires g == Resized(win.grab.from, win.grab.edges, Trunc(lx - win.grab.x), Trunc(ly - win.grab.y),
                          MinW(win.impl), MinH(win.impl))
    ensures ProcessResize(win, lx, ly) == Applied(win.(geo := g))
  {
    hide Resized, Trunc, Applied, MinW, MinH;
  }

  // --- The pointer ---

  predicate Inside(g: Rect, lx: real, ly: real)
  {
    0 <= Trunc(lx) - g.x < g.w && 0 <= Trunc(ly) - g.y < g.h
  }

  datatype Snap = SnapNone | SnapLeft | SnapRight | SnapTop

  function SnapFor(s: Screen, lx: real, ly: real): Snap
  {
    if s.w <= 0 || s.h <= 0 then SnapNone
    else if ly <= SNAP_MARGIN as real then SnapTop
    else if lx <= SNAP_MARGIN as real then SnapLeft
    else if lx >= (s.w - 1 - SNAP_MARGIN) as real then SnapRight
    else SnapNone
  }

  function Half(s: Screen, edge: Snap): Rect
  {
    var half := CDiv(s.w, 2);
    Rect(if edge == SnapLeft then 0 else s.w - half, 0, half, s.Usable())
  }

  function SnapWindow(win: Win, edge: Snap): Win
  {
    match edge
    case SnapNone => win
    case SnapTop => SetMaximized(win, true)
    case _ => Applied(win.(restore := win.drag.from, geo := Half(win.screen, edge), maximized := true))
  }

  /** A move that ends at an edge of the screen takes that edge; any drag that ends is remembered. */
  function LetGo(win: Win, lx: real, ly: real): Win
  {
    var free := win.(drag := win.drag.(on := false), grab := win.grab.(edges := NO_EDGES), held := Elsewhere);
    var snapped := if win.drag.on then SnapWindow(free, SnapFor(win.screen, lx, ly)) else free;
    if win.drag.on || win.grab.edges != NO_EDGES then Save(snapped) else snapped
  }

  /** What a caption button does. */
  function Caption(win: Win, button: Hit): Win
  {
    match button
    case Close => Hide(win)
    case Minimize => MinimizeWin(win)
    case Maximize => SetMaximized(win, !win.maximized)
    case _ => win
  }

  /** The button comes up; `under` is what the hit test answers at the pointer afterwards. */
  function Release(win: Win, lx: real, ly: real, under: Hit): Win
  {
    if !win.open || win.minimized then win
    else
      var free := LetGo(win, lx, ly);
      if under == win.held && Inside(free.geo, lx, ly) then Caption(free, win.held) else free
  }

  /** The button goes down; `hit` is what is drawn at the pointer. */
  function Press(win: Win, lx: real, ly: real, hit: Hit): Win
  {
    if !win.open || win.minimized || !Inside(win.geo, lx, ly) then win
    else
      var e := EdgesAt(win.geo, Trunc(lx) - win.geo.x, Trunc(ly) - win.geo.y);
      if !win.maximized && e != NO_EDGES then
        win.(grab := Grab(e, lx, ly, win.geo))
      else
        var pressed := win.(held := hit);
        if hit == Titlebar && !win.maximized then
          pressed.(drag := Drag(true, lx - win.geo.x as real, ly - win.geo.y as real, win.geo))
        else pressed
  }

  /** Where a drag puts the window: within reach of the pointer, corner by corner. */
  function Dragged(g: Rect, s: Screen, x: int, y: int, titleHeight: int): Rect
  {
    var y1 := if y < 0 then 0 else y;
    var x1 := if x < -(g.w - GRIP) then -(g.w - GRIP) else x;
    var x2 := if x1 > s.w - GRIP then s.w - GRIP else x1;
    var y2 := if y1 > s.Usable() - titleHeight then s.Usable() - titleHeight else y1;
    Rect(x2, y2, g.w, g.h)
  }

  function Motion(win: Win, lx: real, ly: real): Win
  {
    if !win.open || win.minimized then win
    else if win.grab.edges != NO_EDGES then ProcessResize(win, lx, ly)
    else if !win.drag.on then win
    else
      var g := Dragged(win.geo, win.screen, Trunc(lx - win.drag.x), Trunc(ly - win.drag.y), win.impl.titleHeight);
      win.(geo := g, panel := win.panel.(x := g.x, y := g.y))
  }

  // --- Events ---

  datatype Event =
    | EvScreen(s: Screen)
    | EvOrigin(x: int, y: int)
    | EvSlide(d: Offset)
    | EvSlideTo(left: int)
    | EvMaximized(on: bool)
    | EvDesktop(showing: bool)
    | EvShow
    | EvHide
    | EvToggle
    | EvMinimize
    | EvRestore
    | EvFocus
    | EvFocused(on: bool)
    | EvPress(lx: real, ly: real, hit: Hit)
    | EvRelease(lx: real, ly: real, under: Hit)
    | EvMotion(lx: real, ly: real)

  function Step(win: Win, ev: Event): Win
  {
    match ev
    case EvScreen(s) => ScreenChanged(win, s)
    case EvOrigin(x, y) => SetOrigin(win, x, y)
    case EvSlide(d) => SetSlide(win, d)
    case EvSlideTo(left) => SlideTo(win, left)
    case EvMaximized(on) => SetMaximized(win, on)
    case EvDesktop(showing) => SetDesktopShowing(win, showing)
    case EvShow => Show(win)
    case EvHide => Hide(win)
    case EvToggle => Toggle(win)
    case EvMinimize => MinimizeWin(win)
    case EvRestore => Unminimize(win)
    case EvFocus => Focus(win)
    case EvFocused(on) => win.(focused := on)
    case EvPress(lx, ly, hit) => Press(win, lx, ly, hit)
    case EvRelease(lx, ly, under) => Release(win, lx, ly, under)
    case EvMotion(lx, ly) => Motion(win, lx, ly)
  }

  function Run(win: Win, evs: seq<Event>): Win
    decreases |evs|
  {
    if evs == [] then win else Step(Run(win, evs[..|evs| - 1]), evs[|evs| - 1])
  }
}

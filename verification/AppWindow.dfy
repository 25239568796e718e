/** The window in place: the fields the events change, one method for each event. */
module AppWindow {
  import opened Bytes
  import opened Window
  import opened WindowRuns

  lemma MaximizedKeeps(win: Win, on: bool)
    ensures Inv(win) ==> Inv(SetMaximized(win, on))
  {
    if Inv(win) { MaximizedInv(win, on); }
  }

  lemma FreeInv(win: Win)
    requires Inv(win)
    ensures Inv(win.(drag := win.drag.(on := false), grab := win.grab.(edges := NO_EDGES), held := Elsewhere))
  {
  }

  /**
   Every event method keeps the invariant. The helpers without it are called between the steps
   of an event, while the panel has yet to catch up with the window.
   */
  class Appwin {
    const impl: Impl
    var open: bool
    var minimized: bool
    var maximized: bool
    var desktopHidden: bool
    var focused: bool
    var geo: Rect
    var restore: Rect
    var slide: Slide
    var drag: Drag
    var grab: Grab
    var screen: Screen
    var restored: bool
    var held: Hit
    var panel: Panel
    var saved: Registry

    function View(): Win
      reads this
    {
      Win(impl, open, minimized, maximized, desktopHidden, focused, geo, restore, slide,
          drag, grab, screen, restored, held, panel, saved)
    }

    constructor (impl: Impl, saved: Registry)
      ensures View() == Create(impl, saved) && Inv(View())
    {
      var w := if impl.defaultW > 0 then impl.defaultW else 400;
      var h := if impl.defaultH > 0 then impl.defaultH else 300;
      if w < MinW(impl) { w := MinW(impl); }
      if h < MinH(impl) { h := MinH(impl); }
      var none := Rect(0, 0, 0, 0);
      this.impl, this.saved := impl, saved;
      open, minimized, maximized, desktopHidden, focused := false, false, false, false, false;
      geo, restore := Rect(0, 0, w, h), Rect(0, 0, w, h);
      slide := Slide(Offset(0, 0), Offset(0, 0));
      drag, grab := Drag(false, 0.0, 0.0, none), Grab(NO_EDGES, 0.0, 0.0, none);
      screen, restored, held := Screen(0, 0, 0), false, Elsewhere;
      panel := Panel(w, h, 0, 0, false);
    }

    // --- Geometry ---

    method ApplyGeometry()
      modifies this`panel
      ensures View() == Applied(old(View()))
    {
      if geo.w > 0 && geo.h > 0 { panel := panel.(w := geo.w, h := geo.h); }
      panel := panel.(x := geo.x + slide.now.x, y := geo.y + slide.now.y);
    }

    /** The clamp shared by a screen change and a move. */
    method KeepOnScreen()
      modifies this`geo
      ensures geo == Clamped(old(geo), screen)
    {
      if geo.x + geo.w > screen.w { geo := geo.(x := screen.w - geo.w); }
      if geo.y + geo.h > screen.Usable() { geo := geo.(y := screen.Usable() - geo.h); }
      if geo.x < 0 { geo := geo.(x := 0); }
      if geo.y < 0 { geo := geo.(y := 0); }
    }

    method OnScreenChanged(s: Screen)
      requires Inv(View())
      modifies this`screen, this`geo, this`panel
      ensures View() == ScreenChanged(old(View()), s)
      ensures Inv(View())
    {
      StepInv(View(), EvScreen(s));
      hide Inv;
      hide Clamped, Applied;
      screen := s;
      if maximized { geo := Rect(0, 0, s.w, s.Usable()); } else { KeepOnScreen(); }
      ApplyGeometry();
    }

    method MoveTo(x: int, y: int)
      requires Inv(View())
      modifies this`geo, this`panel
      ensures View() == SetOrigin(old(View()), x, y)
      ensures Inv(View())
    {
      StepInv(View(), EvOrigin(x, y));
      hide Inv;
      hide Clamped, Applied;
      if maximized { return; }
      geo := geo.(x := x, y := y);
      KeepOnScreen();
      ApplyGeometry();
    }

    method StartSlide(d: Offset)
      requires Inv(View())
      modifies this`slide, this`panel
      ensures View() == SetSlide(old(View()), d)
      ensures Inv(View())
    {
      StepInv(View(), EvSlide(d));
      hide Inv;
      hide Applied;
      slide := Slide(d, d);
      ApplyGeometry();
    }

    method SlideBack(left: int)
      requires Inv(View())
      modifies this`slide, this`panel
      ensures View() == SlideTo(old(View()), left)
      ensures Inv(View())
    {
      StepInv(View(), EvSlideTo(left));
      hide Inv;
      hide Applied, CDiv;
      slide := slide.(now := Offset(CDiv(slide.from.x * left, 1024), CDiv(slide.from.y * left, 1024)));
      ApplyGeometry();
    }

    method SaveGeometry()
      modifies this`saved
      ensures View() == Save(old(View()))
    {
      if !impl.titled { return; }
      var g := if maximized then restore else geo;
      saved := Registry(Some(g.x), Some(g.y), Some(g.w), Some(g.h), Some(maximized));
    }

    method TurnMaximized(on: bool)
      modifies this`geo, this`panel, this`restore, this`maximized, this`saved
      ensures View() == SetMaximized(old(View()), on)
      ensures Inv(old(View())) ==> Inv(View())
    {
      MaximizedKeeps(View(), on);
      hide Inv;
      hide Applied, Save;
      if maximized == on { return; }
      if on {
        restore := geo;
        geo := Rect(0, 0, screen.w, screen.Usable());
      } else {
        geo := restore;
      }
      maximized := on;
      ApplyGeometry();
      if restored { SaveGeometry(); }
    }

    method RecallGeometry()
      modifies this`geo, this`panel, this`restore, this`maximized, this`saved
      ensures View() == RestoreGeometry(old(View()))
    {
      hide SetMaximized;
      if !impl.titled { return; }
      var w, h := Or(saved.w, geo.w), Or(saved.h, geo.h);
      var x, y := Or(saved.x, geo.x), Or(saved.y, geo.y);
      if w >= impl.minW && h >= impl.minH { geo := geo.(w := w, h := h); }
      if Reachable(x, y, geo.w, screen, impl.titleHeight) { geo := geo.(x := x, y := y); }
      if Or(saved.maximized, false) { TurnMaximized(true); }
    }

    // --- Showing and hiding ---

    method UpdateVisibility()
      modifies this`panel
      ensures panel == old(panel).(enabled := Shown(View()))
    {
      panel := panel.(enabled := open && !minimized && !desktopHidden);
    }

    method DesktopShowing(showing: bool)
      requires Inv(View())
      modifies this`desktopHidden, this`focused, this`drag, this`grab, this`panel
      ensures View() == SetDesktopShowing(old(View()), showing)
      ensures Inv(View())
    {
      DesktopInv(View(), showing);
      hide Inv;
      if desktopHidden == !showing { return; }
      desktopHidden := !showing;
      if desktopHidden { focused, drag, grab := false, drag.(on := false), grab.(edges := NO_EDGES); }
      UpdateVisibility();
    }

    method Centre()
      modifies this`geo
      ensures geo == Centred(old(View())).geo
    {
      var x, y := CDiv(screen.w - geo.w, 2), CDiv(screen.Usable() - geo.h, 2);
      geo := geo.(x := if x < 0 then 0 else x, y := if y < 0 then 0 else y);
    }

    method ShowWindow()
      requires Inv(View())
      modifies this
      ensures View() == Show(old(View()))
      ensures Inv(View())
    {
      ShowInv(View());
      hide Inv;
      hide RestoreGeometry, OpenUp;
      if !restored {
        restored := true;
        RecallGeometry();
      }
      Open();
      minimized := false;
      UpdateVisibility();
    }

    method Open()
      modifies this`open, this`geo, this`panel
      ensures View() == OpenUp(old(View()))
    {
      hide Applied, CDiv;
      if open { return; }
      open := true;
      if geo.x == 0 && geo.y == 0 { Centre(); }
      ApplyGeometry();
    }

    method HideWindow()
      requires Inv(View())
      modifies this`open, this`minimized, this`drag, this`focused, this`panel
      ensures View() == Hide(old(View()))
      ensures Inv(View())
    {
      HideInv(View());
      hide Inv;
      if !open { return; }
      open, minimized, drag, focused := false, false, drag.(on := false), false;
      UpdateVisibility();
    }

    method ToggleWindow()
      requires Inv(View())
      modifies this
      ensures View() == Toggle(old(View()))
      ensures Inv(View())
    {
      StepInv(View(), EvToggle);
      hide Inv;
      hide Hide, Show;
      if open && !minimized { HideWindow(); } else { ShowWindow(); }
    }

    method MinimizeWindow()
      requires Inv(View())
      modifies this`minimized, this`drag, this`focused, this`panel
      ensures View() == MinimizeWin(old(View()))
      ensures Inv(View())
    {
      HideInv(View());
      hide Inv;
      if !open || minimized { return; }
      minimized, drag, focused := true, drag.(on := false), false;
      UpdateVisibility();
    }

    method RestoreWindow()
      requires Inv(View())
      modifies this`minimized, this`panel
      ensures View() == Unminimize(old(View()))
      ensures Inv(View())
    {
      HideInv(View());
      hide Inv;
      if !open || !minimized { return; }
      minimized := false;
      UpdateVisibility();
    }

    method FocusWindow()
      requires Inv(View())
      modifies this`minimized, this`panel
      ensures View() == Focus(old(View()))
      ensures Inv(View())
    {
      StepInv(View(), EvFocus);
      hide Inv;
      hide Unminimize;
      if !open { return; }
      if minimized { RestoreWindow(); }
    }

    method SetFocused(on: bool)
      requires Inv(View())
      modifies this
      ensures View() == old(View()).(focused := on)
      ensures Inv(View())
    {
      StepInv(View(), EvFocused(on));
      hide Inv;
      if focused == on { return; }
      focused := on;
    }

    // --- The pointer ---

    /** The grabbed edges after a motion, worked out from the geometry at the start. */
    method FollowEdges(dx: int, dy: int) returns (g: Rect)
      ensures g == Resized(grab.from, grab.edges, dx, dy, MinW(impl), MinH(impl))
    {
      var left, top, width, height := grab.from.x, grab.from.y, grab.from.w, grab.from.h;
      var minW, minH := MinW(impl), MinH(impl);
      if grab.edges.left {
        left, width := left + dx, width - dx;
        if width < minW { left, width := left - (minW - width), minW; }
      } else if grab.edges.right {
        width := width + dx;
        if width < minW { width := minW; }
      }
      if grab.edges.top {
        top, height := top + dy, height - dy;
        if height < minH { top, height := top - (minH - height), minH; }
        if top < 0 { top, height := 0, height + top; }
      } else if grab.edges.bottom {
        height := height + dy;
        if height < minH { height := minH; }
      }
      g := Rect(left, top, width, height);
    }

    method DragEdges(lx: real, ly: real)
      requires Inv(View())
      modifies this`geo, this`panel
      ensures View() == ProcessResize(old(View()), lx, ly)
      ensures Inv(View())
    {
      hide Inv, Applied, Trunc, Resized, MinW, MinH, ProcessResize;
      ghost var was := View();
      ResizeInv(was, lx, ly);
      var g := FollowEdges(Trunc(lx - grab.x), Trunc(ly - grab.y));
      ResizeIs(was, lx, ly, g);
      geo := g;
      ApplyGeometry();
    }

    method SnapTo(edge: Snap)
      requires Inv(View())
      modifies this`geo, this`panel, this`restore, this`maximized, this`saved
      ensures View() == SnapWindow(old(View()), edge)
      ensures Inv(View())
    {
      SnapInv(View(), edge);
      hide Inv;
      hide Applied, SetMaximized;
      if edge == SnapNone { return; }
      if edge == SnapTop {
        TurnMaximized(true);
        return;
      }
      restore := drag.from;
      var half := CDiv(screen.w, 2);
      geo := Rect(if edge == SnapLeft then 0 else screen.w - half, 0, half, screen.Usable());
      maximized := true;
      ApplyGeometry();
    }

    /** Ends whatever drag is under way: a move may snap, and either is remembered. */
    method EndDrag(lx: real, ly: real)
      requires Inv(View())
      modifies this`drag, this`grab, this`held, this`geo, this`panel, this`restore, this`maximized, this`saved
      ensures View() == LetGo(old(View()), lx, ly)
      ensures Inv(View())
    {
      LetGoInv(View(), lx, ly);
      FreeInv(View());
      hide Inv, SnapWindow, SnapFor, Save;
      var wasMoving, wasDragging := drag.on, drag.on || grab.edges != NO_EDGES;
      drag, grab, held := drag.(on := false), grab.(edges := NO_EDGES), Elsewhere;
      if wasMoving { SnapTo(SnapFor(screen, lx, ly)); }
      if wasDragging { SaveGeometry(); }
    }

    /** A caption button does what it says. */
    method FireCaption(button: Hit)
      requires Inv(View())
      modifies this
      ensures View() == Caption(old(View()), button)
      ensures Inv(View())
    {
      hide Inv, Hide, MinimizeWin, SetMaximized;
      match button {
        case Close => HideWindow();
        case Minimize => MinimizeWindow();
        case Maximize => TurnMaximized(!maximized);
        case _ =>
      }
    }

    method ButtonUp(lx: real, ly: real, under: Hit)
      requires Inv(View())
      modifies this
      ensures View() == Release(old(View()), lx, ly, under)
      ensures Inv(View())
    {
      hide Inv, LetGo, Caption, Inside;
      if !open || minimized { return; }
      var was := held;
      EndDrag(lx, ly);
      if under == was && Inside(geo, lx, ly) { FireCaption(was); }
    }

    method ButtonDown(lx: real, ly: real, hit: Hit)
      requires Inv(View())
      modifies this`grab, this`held, this`drag
      ensures View() == Press(old(View()), lx, ly, hit)
      ensures Inv(View())
    {
      PressInv(View(), lx, ly, hit);
      hide Inv;
      hide Inside, EdgesAt, Trunc;
      if !open || minimized || !Inside(geo, lx, ly) { return; }
      if !maximized {
        var e := EdgesAt(geo, Trunc(lx) - geo.x, Trunc(ly) - geo.y);
        if e != NO_EDGES {
          grab := Grab(e, lx, ly, geo);
          return;
        }
      }
      held := hit;
      if hit == Titlebar && !maximized {
        drag := Drag(true, lx - geo.x as real, ly - geo.y as real, geo);
      }
    }

    method DragTo(x: int, y: int)
      modifies this`geo, this`panel
      ensures geo == Dragged(old(geo), screen, x, y, impl.titleHeight)
      ensures panel == old(panel).(x := geo.x, y := geo.y)
    {
      geo := geo.(x := x, y := y);
      if geo.y < 0 { geo := geo.(y := 0); }
      if geo.x < -(geo.w - GRIP) { geo := geo.(x := -(geo.w - GRIP)); }
      if geo.x > screen.w - GRIP { geo := geo.(x := screen.w - GRIP); }
      if geo.y > screen.Usable() - impl.titleHeight { geo := geo.(y := screen.Usable() - impl.titleHeight); }
      panel := panel.(x := geo.x, y := geo.y);
    }

    method PointerMoved(lx: real, ly: real)
      requires Inv(View())
      modifies this`geo, this`panel
      ensures View() == Motion(old(View()), lx, ly)
      ensures Inv(View())
    {
      MotionInv(View(), lx, ly);
      hide Inv, ProcessResize, Trunc, Dragged;
      if !open || minimized { return; }
      if grab.edges != NO_EDGES {
        DragEdges(lx, ly);
        return;
      }
      if !drag.on { return; }
      DragTo(Trunc(lx - drag.x), Trunc(ly - drag.y));
    }
  }
}

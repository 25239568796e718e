/** What holds of a window in every state any run of events can reach. */
module WindowRuns {
  import opened Bytes
  import opened Window

  // --- Visibility and the buffer ---

  /** The panel shows exactly when the window should be seen, has pixels, and follows the window's size and place. */
  ghost predicate Inv(win: Win)
  {
    && win.panel.enabled == Shown(win)
    && win.panel.w > 0 && win.panel.h > 0
    && (win.geo.w > 0 && win.geo.h > 0 ==> win.panel.w == win.geo.w && win.panel.h == win.geo.h)
    && Placed(win)
    && (win.open ==> win.restored)
    && (win.minimized ==> win.open)
  }

  /** Drawn where it is, or where it is being animated from. */
  ghost predicate Placed(win: Win)
  {
    || (win.panel.x == win.geo.x + win.slide.now.x && win.panel.y == win.geo.y + win.slide.now.y)
    || (win.panel.x == win.geo.x && win.panel.y == win.geo.y)
  }

  lemma CreatedInv(impl: Impl, saved: Registry)
    ensures Inv(Create(impl, saved))
  {
  }

  lemma AppliedInv(win: Win)
    requires win.panel.enabled == Shown(win) && (win.open ==> win.restored) && (win.minimized ==> win.open)
    requires win.panel.w > 0 && win.panel.h > 0
    ensures Inv(Applied(win))
  {
  }

  lemma MaximizedInv(win: Win, on: bool)
    requires Inv(win)
    ensures Inv(SetMaximized(win, on))
  {
  }

  lemma PlaceKeeps(win: Win)
    requires Inv(win)
    ensures var r := Place(win);
            && r.restored && r.panel.enabled == win.panel.enabled && r.panel.w > 0 && r.panel.h > 0
               && r.open == win.open && r.minimized == win.minimized
            && r.desktopHidden == win.desktopHidden && (win.open ==> r == win)
  {
    hide Remembered;
  }

  lemma OpenUpInv(win: Win)
    requires win.restored && !win.open && win.panel.w > 0 && win.panel.h > 0
    ensures Inv(ApplyVisibility(OpenUp(win).(minimized := false)))
  {
    hide CDiv;
  }

  lemma ShowInv(win: Win)
    requires Inv(win)
    ensures Inv(Show(win))
  {
    hide Place;
    PlaceKeeps(win);
    if !win.open { OpenUpInv(Place(win)); }
  }

  lemma HideInv(win: Win)
    requires Inv(win)
    ensures Inv(Hide(win)) && Inv(MinimizeWin(win)) && Inv(Unminimize(win))
  {
  }

  lemma SnapInv(win: Win, edge: Snap)
    requires Inv(win)
    ensures Inv(SnapWindow(win, edge))
  {
    hide Half;
    MaximizedInv(win, true);
  }

  lemma LetGoInv(win: Win, lx: real, ly: real)
    requires Inv(win)
    ensures Inv(LetGo(win, lx, ly))
  {
    hide SnapFor, SnapWindow;
    SnapInv(win.(drag := win.drag.(on := false), grab := win.grab.(edges := NO_EDGES), held := Elsewhere),
        SnapFor(win.screen, lx, ly));
  }

  lemma ReleaseInv(win: Win, lx: real, ly: real, under: Hit)
    requires Inv(win)
    ensures Inv(Release(win, lx, ly, under))
  {
    hide Inside, LetGo, Inv, Hide, MinimizeWin, SetMaximized;
    LetGoInv(win, lx, ly);
    var free := LetGo(win, lx, ly);
    HideInv(free);
    MaximizedInv(free, !free.maximized);
  }

  /** The geometry events all end by applying it. */
  lemma GeometryInv(win: Win, s: Screen, x: int, y: int, d: Offset, left: int)
    requires Inv(win)
    ensures Inv(ScreenChanged(win, s)) && Inv(SetOrigin(win, x, y)) && Inv(SetSlide(win, d)) && Inv(SlideTo(win, left))
  {
    hide Clamped, CDiv, Full;
  }

  lemma PressInv(win: Win, lx: real, ly: real, hit: Hit)
    requires Inv(win)
    ensures Inv(Press(win, lx, ly, hit))
  {
    hide Inside, EdgesAt, Trunc;
  }

  lemma ResizeInv(win: Win, lx: real, ly: real)
    requires Inv(win)
    ensures Inv(ProcessResize(win, lx, ly))
  {
    hide Resized, Trunc, Applied;
    var dx, dy := Trunc(lx - win.grab.x), Trunc(ly - win.grab.y);
    AppliedInv(win.(geo := Resized(win.grab.from, win.grab.edges, dx, dy, MinW(win.impl), MinH(win.impl))));
  }

  lemma MotionInv(win: Win, lx: real, ly: real)
    requires Inv(win)
    ensures Inv(Motion(win, lx, ly))
  {
    hide ProcessResize, Trunc;
    ResizeInv(win, lx, ly);
  }

  lemma DesktopInv(win: Win, showing: bool)
    requires Inv(win)
    ensures Inv(SetDesktopShowing(win, showing))
  {
  }

  /** Every event keeps it. */
  lemma StepInv(win: Win, ev: Event)
    requires Inv(win)
    ensures Inv(Step(win, ev))
  {
    hide Show, Hide, MinimizeWin, Unminimize, SetMaximized, Release, ScreenChanged, SetOrigin, SetSlide, SlideTo,
        Press, Motion, SetDesktopShowing;
    HideInv(win);
    match ev {
      case EvShow => ShowInv(win);
      case EvToggle => ShowInv(win);
      case EvMaximized(on) => MaximizedInv(win, on);
      case EvRelease(lx, ly, under) => ReleaseInv(win, lx, ly, under);
      case EvScreen(s) => GeometryInv(win, s, 0, 0, win.slide.now, 0);
      case EvOrigin(x, y) => GeometryInv(win, win.screen, x, y, win.slide.now, 0);
      case EvSlide(d) => GeometryInv(win, win.screen, 0, 0, d, 0);
      case EvSlideTo(left) => GeometryInv(win, win.screen, 0, 0, win.slide.now, left);
      case EvPress(lx, ly, hit) => PressInv(win, lx, ly, hit);
      case EvMotion(lx, ly) => MotionInv(win, lx, ly);
      case EvDesktop(showing) => DesktopInv(win, showing);
      case _ =>
    }
  }

  lemma {:induction false} RunInv(impl: Impl, saved: Registry, evs: seq<Event>)
    ensures Inv(Run(Create(impl, saved), evs))
    decreases |evs|
  {
    if evs == [] {
      CreatedInv(impl, saved);
    } else {
      RunInv(impl, saved, evs[..|evs| - 1]);
      hide Inv, Step;
      StepInv(Run(Create(impl, saved), evs[..|evs| - 1]), evs[|evs| - 1]);
    }
  }

  /**
   In every reachable state: seen exactly when open, not put away and on the desktop that
   shows; buffer and window of one size exactly when the window has a size; in place
   whenever no animation is running.
   */
  lemma SeenExactly(impl: Impl, saved: Registry, evs: seq<Event>)
    ensures var win := Run(Create(impl, saved), evs);
            && (win.panel.enabled <==> win.open && !win.minimized && !win.desktopHidden)
            && ((win.panel.w, win.panel.h) == (win.geo.w, win.geo.h) <==> win.geo.w > 0 && win.geo.h > 0)
            && (win.slide.now == Offset(0, 0) ==> (win.panel.x, win.panel.y) == (win.geo.x, win.geo.y))
  {
    RunInv(impl, saved, evs);
  }

  /**
   The other half happens: any window shown and then maximized before it is told of a screen is open
   and has no size.
   */
  lemma BufferCanDiffer(impl: Impl, saved: Registry)
    ensures var win := Run(Create(impl, saved), [EvShow, EvMaximized(true)]);
            win.open && win.geo.w == 0 && win.panel.w > 0
  {
    var evs := [EvShow, EvMaximized(true)];
    var made := Create(impl, saved);
    assert evs[..1] == [EvShow] && evs[..1][..0] == [];
    assert Run(made, evs[..1]) == Step(Run(made, []), EvShow);
    assert Run(made, evs) == Step(Run(made, evs[..1]), EvMaximized(true));
    RunInv(impl, saved, evs);
    NothingWithoutScreen(made);
  }

  lemma PlaceWithoutScreen(win: Win)
    requires !win.restored && !win.maximized && win.screen.w == 0
    ensures Place(win).screen == win.screen && (Place(win).maximized ==> Place(win).geo.w == 0)
  {
    hide Remembered;
  }

  lemma OpenKeepsSize(win: Win)
    ensures OpenUp(win).geo.w == win.geo.w && OpenUp(win).geo.h == win.geo.h
  {
    hide CDiv;
  }

  lemma ShowWithoutScreen(win: Win)
    requires !win.restored && !win.maximized && win.screen.w == 0
    ensures Show(win).open && Show(win).screen == win.screen && (Show(win).maximized ==> Show(win).geo.w == 0)
  {
    hide Place, OpenUp, ApplyVisibility;
    PlaceWithoutScreen(win);
    OpenKeepsSize(Place(win));
  }

  lemma MaximizeWithoutScreen(win: Win)
    requires win.screen.w == 0 && (win.maximized ==> win.geo.w == 0)
    ensures SetMaximized(win, true).geo.w == 0 && SetMaximized(win, true).open == win.open
  {
    assert Full(win.screen).w == 0;
    hide Full, Applied, Save;
  }

  lemma NothingWithoutScreen(win: Win)
    requires !win.restored && !win.maximized && win.screen.w == 0
    ensures var big := SetMaximized(Show(win), true); big.open && big.geo.w == 0
  {
    hide Show, SetMaximized;
    ShowWithoutScreen(win);
    MaximizeWithoutScreen(Show(win));
  }
}

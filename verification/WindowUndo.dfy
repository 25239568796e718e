/** Undoing a maximize or a snap, and remembering a window's place between sittings. */
module WindowUndo {
  import opened Bytes
  import opened Window
  import opened WindowPointer

  // --- Staying maximized ---

  /** Maximized, with no drag under way that could end in another snap. */
  ghost predicate Settled(win: Win) { win.maximized && !win.drag.on }

  /** Through the whole run the window stays maximized. */
  ghost predicate StaysMaximized(win: Win, evs: seq<Event>)
    decreases |evs|
  {
    Run(win, evs).maximized && (evs != [] ==> StaysMaximized(win, evs[..|evs| - 1]))
  }

  lemma PlaceKeepsRestore(win: Win)
    requires win.maximized
    ensures Place(win).restore == win.restore && Place(win).drag.on == win.drag.on && Place(win).maximized
  {
    hide Remembered;
  }

  lemma ShowKeepsRestore(win: Win)
    requires win.maximized
    ensures Show(win).restore == win.restore && Show(win).drag.on == win.drag.on && Show(win).maximized
  {
    hide Place, OpenUp, ApplyVisibility;
    PlaceKeepsRestore(win);
  }

  lemma LetGoKeepsRestore(win: Win, lx: real, ly: real)
    requires Settled(win)
    ensures LetGo(win, lx, ly).restore == win.restore && Settled(LetGo(win, lx, ly))
  {
    hide SnapWindow, SnapFor;
  }

  lemma ReleaseKeepsRestore(win: Win, lx: real, ly: real, under: Hit)
    requires Settled(win) && Release(win, lx, ly, under).maximized
    ensures Release(win, lx, ly, under).restore == win.restore && !Release(win, lx, ly, under).drag.on
  {
    hide LetGo, Inside;
    LetGoKeepsRestore(win, lx, ly);
  }

  /** No event changes what a settled window will go back to, short of its going back. */
  lemma StepKeepsRestore(win: Win, ev: Event)
    requires Settled(win) && Step(win, ev).maximized
    ensures Step(win, ev).restore == win.restore && Settled(Step(win, ev))
  {
    hide Show, Release, Clamped, CDiv, Resized, Trunc, Inside, EdgesAt;
    match ev {
      case EvShow => ShowKeepsRestore(win);
      case EvToggle => ShowKeepsRestore(win);
      case EvRelease(lx, ly, under) => ReleaseKeepsRestore(win, lx, ly, under);
      case _ =>
    }
  }

  lemma {:induction false} RunKeepsRestore(win: Win, evs: seq<Event>)
    requires Settled(win) && StaysMaximized(win, evs)
    ensures Run(win, evs).restore == win.restore && Settled(Run(win, evs))
    decreases |evs|
  {
    if evs != [] {
      RunKeepsRestore(win, evs[..|evs| - 1]);
      hide Step;
      StepKeepsRestore(Run(win, evs[..|evs| - 1]), evs[|evs| - 1]);
    }
  }

  /** No event but a release changes it, even while a drag or a resize is under way. */
  lemma StepKeepsRestoreUnreleased(win: Win, ev: Event)
    requires win.maximized && !ev.EvRelease? && Step(win, ev).maximized
    ensures Step(win, ev).restore == win.restore
  {
    hide Show, Clamped, CDiv, Resized, Trunc, Inside, EdgesAt, Dragged;
    match ev {
      case EvShow => ShowKeepsRestore(win);
      case EvToggle => ShowKeepsRestore(win);
      case _ =>
    }
  }

  lemma {:induction false} RunKeepsRestoreUnreleased(win: Win, evs: seq<Event>)
    requires win.maximized && StaysMaximized(win, evs) && forall i :: 0 <= i < |evs| ==> !evs[i].EvRelease?
    ensures Run(win, evs).restore == win.restore && Run(win, evs).maximized
    decreases |evs|
  {
    if evs != [] {
      RunKeepsRestoreUnreleased(win, evs[..|evs| - 1]);
      hide Step;
      StepKeepsRestoreUnreleased(Run(win, evs[..|evs| - 1]), evs[|evs| - 1]);
    }
  }

  /**
   Whatever happens while it is maximized, screen changes included, un-maximizing gives back
   the geometry from before. A drag under way when it was maximized must not be let go meanwhile:
   that could end in a snap of its own.
   */
  lemma MaximizeUndone(win: Win, evs: seq<Event>)
    requires !win.maximized && StaysMaximized(SetMaximized(win, true), evs)
    requires win.drag.on ==> forall i :: 0 <= i < |evs| ==> !evs[i].EvRelease?
    ensures SetMaximized(Run(SetMaximized(win, true), evs), false).geo == win.geo
  {
    hide Run, StaysMaximized, Applied;
    if win.drag.on {
      RunKeepsRestoreUnreleased(SetMaximized(win, true), evs);
    } else {
      RunKeepsRestore(SetMaximized(win, true), evs);
    }
  }

  /**
   Let go at a side, such a drag goes back to where it began instead: to the same place exactly if
   it had not moved.
   */
  lemma MaximizedMidDrag(win: Win, lx: real, ly: real, under: Hit)
    requires win.open && !win.minimized && !win.maximized && win.drag.on && win.held == Titlebar
    requires SnapFor(win.screen, lx, ly) in {SnapLeft, SnapRight}
    ensures var back := SetMaximized(Release(SetMaximized(win, true), lx, ly, under), false);
            back.geo == win.drag.from && (back.geo == win.geo <==> win.drag.from == win.geo)
  {
    hide Release, SnapFor, Applied, Save;
    SideSnapped(SetMaximized(win, true), lx, ly, under);
  }

  // --- Snapping ---

  lemma MaximizedKeepsDragFrom(win: Win, on: bool)
    ensures SetMaximized(win, on).drag.from == win.drag.from
  {
    hide Applied, Save;
  }

  lemma PlaceKeepsDragFrom(win: Win)
    ensures Place(win).drag.from == win.drag.from
  {
    hide Remembered, SetMaximized;
    MaximizedKeepsDragFrom(win.(restored := true, geo := Remembered(win.(restored := true))), true);
  }

  lemma ShowKeepsDragFrom(win: Win)
    ensures Show(win).drag.from == win.drag.from
  {
    hide Place, OpenUp, ApplyVisibility;
    PlaceKeepsDragFrom(win);
  }

  lemma SnapKeepsDrag(win: Win, edge: Snap)
    ensures SnapWindow(win, edge).drag == win.drag
  {
    hide Applied, Save, Half;
  }

  lemma LetGoEndsDrag(win: Win, lx: real, ly: real)
    ensures LetGo(win, lx, ly).drag == win.drag.(on := false)
  {
    hide SnapWindow, Save, SnapFor;
    SnapKeepsDrag(win.(drag := win.drag.(on := false), grab := win.grab.(edges := NO_EDGES), held := Elsewhere),
        SnapFor(win.screen, lx, ly));
  }

  lemma ReleaseKeepsDragFrom(win: Win, lx: real, ly: real, under: Hit)
    ensures Release(win, lx, ly, under).drag.from == win.drag.from
  {
    hide Inside, LetGo, SetMaximized, ApplyVisibility;
    LetGoEndsDrag(win, lx, ly);
    MaximizedKeepsDragFrom(LetGo(win, lx, ly), !LetGo(win, lx, ly).maximized);
  }

  /** Only a press says anew where a drag began. */
  lemma StepKeepsDragFrom(win: Win, ev: Event)
    requires !ev.EvPress?
    ensures Step(win, ev).drag.from == win.drag.from
  {
    hide Applied, ApplyVisibility, SetMaximized, Show, Release, Clamped, CDiv, Resized, Trunc, Dragged;
    match ev {
      case EvRelease(lx, ly, under) => ReleaseKeepsDragFrom(win, lx, ly, under);
      case EvShow => ShowKeepsDragFrom(win);
      case EvToggle => ShowKeepsDragFrom(win);
      case EvMaximized(on) => MaximizedKeepsDragFrom(win, on);
      case _ =>
    }
  }

  lemma {:induction false} RunKeepsDragFrom(win: Win, evs: seq<Event>)
    requires forall i :: 0 <= i < |evs| ==> !evs[i].EvPress?
    ensures Run(win, evs).drag.from == win.drag.from
    decreases |evs|
  {
    if evs != [] {
      RunKeepsDragFrom(win, evs[..|evs| - 1]);
      hide Step;
      StepKeepsDragFrom(Run(win, evs[..|evs| - 1]), evs[|evs| - 1]);
    }
  }

  /** A drag that goes on still holds what it was taken by. */
  lemma StepKeepsHeld(win: Win, ev: Event)
    requires !ev.EvPress? && Step(win, ev).drag.on
    ensures win.drag.on && Step(win, ev).held == win.held
  {
    hide Applied, ApplyVisibility, Save, Show, Release, Clamped, CDiv, Resized, Trunc, Dragged;
    match ev {
      case EvRelease(lx, ly, under) => ReleaseKeepsHeld(win, lx, ly, under);
      case EvShow => ShowKeepsHeld(win);
      case EvToggle => ShowKeepsHeld(win);
      case _ =>
    }
  }

  lemma ShowKeepsHeld(win: Win)
    ensures Show(win).drag.on == win.drag.on && Show(win).held == win.held
  {
    hide Remembered, Applied, Save, OpenUp, ApplyVisibility;
  }

  lemma ReleaseKeepsHeld(win: Win, lx: real, ly: real, under: Hit)
    ensures Release(win, lx, ly, under).drag.on ==> Release(win, lx, ly, under) == win
  {
    hide LetGo, Inside, Applied, ApplyVisibility, Save;
    LetGoEndsDrag(win, lx, ly);
  }

  lemma {:induction false} RunKeepsHeld(win: Win, evs: seq<Event>)
    requires (forall i :: 0 <= i < |evs| ==> !evs[i].EvPress?) && Run(win, evs).drag.on
    ensures win.drag.on && Run(win, evs).held == win.held
    decreases |evs|
  {
    if evs != [] {
      hide Step;
      StepKeepsHeld(Run(win, evs[..|evs| - 1]), evs[|evs| - 1]);
      RunKeepsHeld(win, evs[..|evs| - 1]);
    }
  }

  /** The window as a side snap leaves it. */
  lemma SideSnapped(win: Win, lx: real, ly: real, under: Hit)
    requires win.open && !win.minimized && win.drag.on && win.held == Titlebar
    requires SnapFor(win.screen, lx, ly) in {SnapLeft, SnapRight}
    ensures var r := Release(win, lx, ly, under);
            Settled(r) && r.restore == win.drag.from && r.geo == Half(win.screen, SnapFor(win.screen, lx, ly))
  {
    hide Inside, SnapFor, Half, Applied;
  }

  /**
   A window taken by its title bar, moved about in any way, let go at the left or right edge
   and then left snapped through anything at all goes back to where it was before the drag.
   */
  lemma SideSnapUndone(win: Win, lx: real, ly: real, drag: seq<Event>, ex: real, ey: real, under: Hit,
      after: seq<Event>)
    requires Press(win, lx, ly, Titlebar).drag.on && !win.drag.on
    requires forall i :: 0 <= i < |drag| ==> !drag[i].EvPress?
    requires var d := Run(Press(win, lx, ly, Titlebar), drag);
             && d.open && !d.minimized && d.drag.on
             && SnapFor(d.screen, ex, ey) in {SnapLeft, SnapRight}
             && StaysMaximized(Release(d, ex, ey, under), after)
    ensures var d := Run(Press(win, lx, ly, Titlebar), drag);
            SetMaximized(Run(Release(d, ex, ey, under), after), false).geo == win.geo
  {
    hide Run, StaysMaximized, Release, SnapFor, Applied, Inside, EdgesAt;
    var p := Press(win, lx, ly, Titlebar);
    assert p.drag.from == win.geo;
    RunKeepsDragFrom(p, drag);
    RunKeepsHeld(p, drag);
    var d := Run(p, drag);
    SideSnapped(d, ex, ey, under);
    RunKeepsRestore(Release(d, ex, ey, under), after);
  }

  /** A snap to the top goes back instead to where the drag ended. */
  lemma TopSnapRestoresDragEnd(win: Win, lx: real, ly: real, under: Hit)
    requires win.open && !win.minimized && win.drag.on && win.held == Titlebar && !win.maximized
    requires SnapFor(win.screen, lx, ly) == SnapTop
    ensures Release(win, lx, ly, under).maximized
    ensures SetMaximized(Release(win, lx, ly, under), false).geo == win.geo
  {
    hide Inside, SnapFor, Applied;
  }

  /** Going back does not look at the screen: the window is on it exactly when its old place still is. */
  lemma UnmaximizeIgnoresScreen(win: Win, s: Screen)
    requires !win.maximized
    ensures var back := SetMaximized(ScreenChanged(SetMaximized(win, true), s), false);
            back.geo == win.geo && back.screen == s && (Fits(back.geo, back.screen) <==> Fits(win.geo, s))
  {
    hide Clamped, Applied, Save, Fits;
  }

  /**
   A screen change does not keep a side snap. The window fills the new screen, which is the half
   it was snapped to only on a screen of no width; the way back is kept all the same.
   */
  lemma SideSnapLost(win: Win, edge: Snap, s: Screen)
    requires edge in {SnapLeft, SnapRight}
    ensures var after := ScreenChanged(SnapWindow(win, edge), s);
            && (after.geo == Half(s, edge) <==> s.w == 0)
            && SetMaximized(after, false).geo == win.drag.from
  {
    HalfIsFull(s, edge);
    hide Half, Full, Applied, Save;
  }

  lemma HalfIsFull(s: Screen, edge: Snap)
    requires edge in {SnapLeft, SnapRight}
    ensures Full(s) == Half(s, edge) <==> s.w == 0
  {
  }

  // --- Remembering ---

  /** What one window saved, another of its name shows: the same size and place, maximized or not. */
  lemma RememberedAfterSave(win: Win, impl: Impl, screen: Screen)
    requires win.impl.titled && impl.titled
    requires var g := if win.maximized then win.restore else win.geo;
             && g.w >= impl.minW && g.h >= impl.minH && (g.x, g.y) != (0, 0)
             && Reachable(g.x, g.y, g.w, screen, impl.titleHeight)
    ensures var g := if win.maximized then win.restore else win.geo;
            var again := Show(ScreenChanged(Create(impl, Save(win).saved), screen));
            && again.maximized == win.maximized && again.open
            && (if again.maximized then again.restore else again.geo) == g
            && (again.maximized ==> SetMaximized(again, false).geo == g)
            && again.saved == Save(win).saved
  {
    var g := if win.maximized then win.restore else win.geo;
    var made := ScreenChanged(Create(impl, Save(win).saved), screen);
    RememberedIs(made.(restored := true), g);
    hide Remembered, Create, CDiv;
    ShowRemembered(made, g, win.maximized);
  }

  lemma RememberedIs(win: Win, g: Rect)
    requires win.saved.x == Some(g.x) && win.saved.y == Some(g.y) && win.saved.w == Some(g.w)
             && win.saved.h == Some(g.h)
    requires g.w >= win.impl.minW && g.h >= win.impl.minH && Reachable(g.x, g.y, g.w, win.screen, win.impl.titleHeight)
    ensures Remembered(win) == g
  {
  }

  lemma PlaceRemembered(win: Win, g: Rect, maximized: bool)
    requires !win.restored && !win.open && !win.maximized && win.impl.titled
    requires Remembered(win.(restored := true)) == g
             && win.saved == Registry(Some(g.x), Some(g.y), Some(g.w), Some(g.h), Some(maximized))
    ensures var placed := Place(win);
            && placed.maximized == maximized && !placed.open && placed.saved == win.saved
            && (if maximized then placed.restore else placed.geo) == g
  {
    hide Remembered, Applied;
  }

  lemma ShowRemembered(win: Win, g: Rect, maximized: bool)
    requires !win.restored && !win.open && !win.maximized && win.impl.titled && (g.x, g.y) != (0, 0)
    requires Remembered(win.(restored := true)) == g
             && win.saved == Registry(Some(g.x), Some(g.y), Some(g.w), Some(g.h), Some(maximized))
    ensures var again := Show(win);
            && again.maximized == maximized && again.open && again.saved == win.saved
            && (if maximized then again.restore else again.geo) == g
  {
    hide Place, ApplyVisibility, Applied, CDiv;
    PlaceRemembered(win, g, maximized);
  }

  /** A place of (0, 0) is taken for no place at all: the window opens centred. */
  lemma OriginIsCentred(win: Win)
    requires !win.open && win.restored && win.geo.x == 0 && win.geo.y == 0
    ensures Show(win).geo == Centred(win).geo
    ensures Show(win).geo == win.geo <==> win.screen.w - win.geo.w <= 1 && win.screen.Usable() - win.geo.h <= 1
  {
  }
}

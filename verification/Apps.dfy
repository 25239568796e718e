/** The application table in place: a fixed array, a count and the next id. */
module Apps {
  import opened Bytes
  import opened AppTable
  import opened AppRefresh
  import opened AppRuns

  /** One of the shell's windows, open or not. */
  datatype ShellWindow = ShellWindow(p: nat, open: bool, title: string)

  /** What recon_apps_end asks of the rest of the desktop. */
  datatype Request = Nothing | HideWindow(p: nat) | CloseToplevel(p: nat)

  function OpenOnes(windows: seq<ShellWindow>): seq<Thing>
  {
    if windows == [] then []
    else OpenOnes(windows[..|windows| - 1]) +
         var w := windows[|windows| - 1];
         if w.open then [Thing(Window(w.p), w.title, 0)] else []
  }

  /** The windows listed are those that are open, with their titles and without a process. */
  lemma {:induction false} OpenOnesAre(windows: seq<ShellWindow>, t: Thing)
    ensures t in OpenOnes(windows) <==> exists w :: w in windows && w.open && t == Thing(Window(w.p), w.title, 0)
    decreases |windows|
  {
    if windows != [] {
      var init, last := windows[..|windows| - 1], windows[|windows| - 1];
      OpenOnesAre(init, t);
      assert windows == init + [last];
      assert forall w :: w in windows <==> w in init || w == last;
    }
  }

  lemma OpenOnesNext(windows: seq<ShellWindow>, i: nat)
    requires i < |windows|
    ensures OpenOnes(windows[..i + 1]) ==
            if windows[i].open
            then OpenOnes(windows[..i]) + [Thing(Window(windows[i].p), windows[i].title, 0)]
            else OpenOnes(windows[..i])
  {
    assert windows[..i + 1][..i] == windows[..i];
  }

  lemma RealParts(a: seq<Thing>, b: seq<Thing>)
    ensures Real(a + b) ==> Real(a) && Real(b)
  {
    assert forall t :: t in a || t in b ==> t in a + b;
  }

  /** An open window among them is among the running things. */
  lemma {:induction false} OpenOnesReal(windows: seq<ShellWindow>, i: nat)
    requires i < |windows| && Real(OpenOnes(windows)) && windows[i].open
    ensures windows[i].p != 0
    decreases |windows|
  {
    var last := windows[|windows| - 1];
    if i < |windows| - 1 {
      RealParts(OpenOnes(windows[..|windows| - 1]), if last.open then [Thing(Window(last.p), last.title, 0)] else []);
      OpenOnesReal(windows[..|windows| - 1], i);
    } else {
      assert Thing(Window(last.p), last.title, 0) in OpenOnes(windows);
    }
  }

  lemma {:induction false} SeeAllMore(t: Table, things: seq<Thing>, more: seq<Thing>)
    ensures SeeAll(t, things + more) == SeeAll(SeeAll(t, things), more)
    decreases |things|
  {
    if things == [] {
      assert things + more == more;
    } else {
      assert (things + more)[1..] == things[1..] + more && (things + more)[0] == things[0];
      SeeAllMore(See(t, things[0]), things[1..], more);
    }
  }

  lemma SeeAllOne(t: Table, things: seq<Thing>, thing: Thing)
    ensures SeeAll(t, things + [thing]) == See(SeeAll(t, things), thing)
  {
    SeeAllMore(t, things, [thing]);
    assert [thing][1..] == [];
    assert SeeAll(SeeAll(t, things), [thing]) == SeeAll(See(SeeAll(t, things), thing), []);
  }

  lemma RaisedNone(es: seq<Entry>, clock: nat -> nat)
    ensures Raised(es, clock, 0) == []
  {
  }

  lemma RaisedNext(es: seq<Entry>, clock: nat -> nat, i: nat)
    requires i < |es|
    ensures Raised(es, clock, i + 1) ==
            Raised(es, clock, i) + if Late(es[i], clock(i)) && !es[i].reported then [es[i].id] else []
  {
    hide Late;
  }

  class Registry {
    var server: bool
    const apps: array<Entry>
    var count: nat
    var nextId: nat
    ghost var made: nat

    ghost predicate Valid()
      reads this, apps
    {
      apps.Length == APPS_MAX && count <= APPS_MAX
    }

    /** The table keeps every promise: at most 64 entries of the right shape, keys apart, ids apart until they wrap. */
    ghost predicate Sound()
      reads this, apps
    {
      Valid() && Inv(Contents())
    }

    /** The table this array stands for. */
    ghost function Contents(): Table
      requires Valid()
      reads this, apps
    {
      Table(apps[..count], nextId, made)
    }

    constructor ()
      ensures Sound() && fresh(apps) && server && Contents() == EMPTY
    {
      apps := new Entry[APPS_MAX](_ => Entry(0, Builtin, 0, 0, "", 0, 0, false, false));
      server, count, nextId, made := true, 0, 1, 0;
    }

    method Init()
      requires Valid()
      modifies this
      ensures Sound() && server && Contents() == EMPTY
    {
      server, count, nextId, made := true, 0, 1, 0;
    }

    method Finish()
      requires Sound()
      modifies this
      ensures Sound() && !server && Contents() == old(Contents()).(entries := [])
    {
      server, count := false, 0;
    }

    // --- Finding ---

    method EntryFor(k: Key) returns (r: Option<nat>)
      requires Valid()
      ensures r == Find(Contents().entries, k)
    {
      var i := 0;
      while i < count
        invariant i <= count && FindFrom(Contents().entries, k, i) == Find(Contents().entries, k)
      {
        if Match(apps[i], k) { return Some(i); }
        i := i + 1;
      }
      r := None;
    }

    method EntryForId(id: nat) returns (r: Option<nat>)
      requires Valid()
      ensures r == FindId(Contents().entries, id, 0)
    {
      var i := 0;
      while i < count
        invariant i <= count && FindId(Contents().entries, id, i) == FindId(Contents().entries, id, 0)
      {
        if apps[i].id == id { return Some(i); }
        i := i + 1;
      }
      r := None;
    }

    // --- Registration ---

    /** Takes the next place and the next id, or says the table is full. */
    method NewEntry(thing: Thing) returns (ok: bool)
      requires Valid()
      modifies this, apps
      ensures Valid() && server == old(server) && ok == (old(count) < APPS_MAX)
      ensures if ok then
                var more := old(Contents().entries) + [Fresh(old(nextId), thing)];
                Contents() == Table(more, (old(nextId) + 1) % WRAP32, old(made) + 1)
              else
                Contents() == old(Contents())
    {
      if count >= APPS_MAX { return false; }
      apps[count] := Fresh(nextId, thing);
      nextId := (nextId + 1) % WRAP32;
      count := count + 1;
      made := made + 1;
      ok := true;
      assert apps[..count] == old(apps[..count]) + [apps[count - 1]];
    }

    /** recon_apps_add_builtin and recon_apps_add_client. */
    method Register(thing: Thing)
      requires Sound()
      modifies this, apps
      ensures Sound() && server == old(server) && Contents() == Add(old(Contents()), thing)
    {
      AddKeeps(Contents(), thing);
      hide Inv;
      var found := EntryFor(thing.key);
      if thing.key.p == 0 || found.Some? { return; }
      var ok := NewEntry(thing);
    }

    /** The last entry fills the gap. */
    method Drop(i: nat)
      requires Valid() && i < count
      modifies this`count, apps
      ensures Valid() && count == old(count) - 1 && apps[..count] == RemoveAt(old(apps[..count]), i)
    {
      apps[i] := apps[count - 1];
      count := count - 1;
    }

    method Unregister(p: nat)
      requires Sound()
      modifies this, apps
      ensures Sound() && server == old(server) && Contents() == RemoveClient(old(Contents()), p)
    {
      RemoveAnyKeeps(Contents(), p);
      hide Inv;
      var i := 0;
      while i < count
        invariant i <= count && FindFrom(Contents().entries, Toplevel(p), i) == Find(Contents().entries, Toplevel(p))
        invariant Contents() == old(Contents()) && server == old(server)
      {
        if Match(apps[i], Toplevel(p)) {
          Drop(i);
          return;
        }
        i := i + 1;
      }
    }

    // --- Listing ---

    method MarkUnseen()
      requires Sound()
      modifies apps
      ensures Sound() && Contents() == old(Contents()).(entries := Unseen(old(Contents().entries)))
    {
      UnseenKeeps(Contents());
      hide Inv, Keys;
      var i := 0;
      while i < count
        invariant i <= count
        invariant forall j :: 0 <= j < i ==> apps[j] == old(apps[j]).(present := false)
        invariant forall j :: i <= j < count ==> apps[j] == old(apps[j])
      {
        apps[i] := apps[i].(present := false);
        i := i + 1;
      }
      assert apps[..count] == Unseen(old(apps[..count]));
    }

    method Look(thing: Thing)
      requires Sound() && thing.key.p != 0
      modifies this, apps
      ensures Sound() && server == old(server) && Contents() == See(old(Contents()), thing)
    {
      SeeKeeps(Contents(), thing);
      hide Inv, Keys, Extends;
      var found := EntryFor(thing.key);
      if found.None? {
        Register(thing);
        found := EntryFor(thing.key);
      }
      match found {
        case None =>
        case Some(i) =>
          ghost var before := apps[..count];
          apps[i] := Touch(apps[i], thing);
          assert apps[..count] == before[i := Touch(before[i], thing)];
      }
    }

    method DropUnseen()
      requires Sound()
      modifies this, apps
      ensures Sound() && server == old(server) && nextId == old(nextId) && made == old(made)
      ensures apps[..count] == Sweep(old(apps[..count]), old(count))
    {
      SweepKeeps(Contents(), count);
      hide Inv, RemoveAt;
      var i: nat := count;
      while i > 0
        invariant Valid() && i <= count && server == old(server) && nextId == old(nextId) && made == old(made)
        invariant Sweep(apps[..count], i) == Sweep(old(apps[..count]), old(count))
      {
        i := i - 1;
        if !apps[i].present { Drop(i); }
      }
    }

    /** The last loop: judges every entry and lists the ids raised. */
    method Report(clock: nat -> nat) returns (raised: seq<nat>)
      requires Sound()
      modifies apps
      ensures Sound() && Contents() == old(Contents()).(entries := JudgeAll(old(Contents().entries), clock))
      ensures raised == Raised(old(Contents().entries), clock, old(count))
    {
      hide Late, Inv, Keys, Raised;
      raised := [];
      RaisedNone(apps[..count], clock);
      ghost var es := apps[..count];
      var i := 0;
      while i < count
        invariant i <= count && |es| == count
        invariant forall j {:trigger apps[j]} :: 0 <= j < i ==> apps[j] == Judge(es[j], clock(j))
        invariant forall j {:trigger apps[j]} :: i <= j < count ==> apps[j] == es[j]
        invariant raised == Raised(es, clock, i)
      {
        RaisedNext(es, clock, i);
        var late := Late(apps[i], clock(i));
        if late && !apps[i].reported {
          raised := raised + [apps[i].id];
          apps[i] := apps[i].(reported := true);
        } else if !late {
          apps[i] := apps[i].(reported := false);
        }
        i := i + 1;
      }
      assert apps[..count] == JudgeAll(es, clock);
      JudgeKeeps(old(Contents()), clock);
    }

    /** Rebuilds the list from what is running, in the order of recon_apps_refresh. */
    method RefreshAll(windows: seq<ShellWindow>, toplevels: seq<Thing>, clock: nat -> nat)
      returns (n: nat, raised: seq<nat>)
      requires Sound() && Real(OpenOnes(windows) + toplevels)
      modifies this, apps
      ensures Sound() && server == old(server)
      ensures server ==> Keys(Contents().entries) <= KeysOf(OpenOnes(windows) + toplevels)
      ensures server ==> (Keys(Contents().entries) == KeysOf(OpenOnes(windows) + toplevels) <==>
                          |Keys(old(Contents()).entries) + KeysOf(OpenOnes(windows) + toplevels)| <= APPS_MAX)
      ensures !server ==> Contents() == old(Contents()) && n == 0 && raised == []
      ensures server ==>
                var things := OpenOnes(windows) + toplevels;
                var es := Listed(old(Contents()), things).entries;
                && Contents() == Refresh(old(Contents()), things, clock)
                && n == |Contents().entries| && raised == Raised(es, clock, |es|)
    {
      if !server { return 0, []; }
      RealParts(OpenOnes(windows), toplevels);
      OnlyRunning(Contents(), OpenOnes(windows) + toplevels, clock);
      RefreshComplete(Contents(), OpenOnes(windows) + toplevels, clock);
      hide Inv, Real, Keys, KeysOf, OpenOnes;
      ghost var start := Contents().(entries := Unseen(Contents().entries));
      MarkUnseen();
      hide See, Sweep, JudgeAll, Raised;
      LookAtWindows(windows);
      LookAtToplevels(toplevels);
      SeeAllMore(start, OpenOnes(windows), toplevels);
      DropUnseen();
      raised := Report(clock);
      n := count;
    }

    method LookAtWindows(windows: seq<ShellWindow>)
      requires Sound() && Real(OpenOnes(windows))
      modifies this, apps
      ensures Sound() && server == old(server) && Contents() == SeeAll(old(Contents()), OpenOnes(windows))
    {
      hide See;
      for i := 0 to |windows|
        invariant Sound() && server == old(server) && Contents() == SeeAll(old(Contents()), OpenOnes(windows[..i]))
      {
        OpenOnesNext(windows, i);
        if windows[i].open {
          OpenOnesReal(windows, i);
          SeeAllOne(old(Contents()), OpenOnes(windows[..i]), Thing(Window(windows[i].p), windows[i].title, 0));
          Look(Thing(Window(windows[i].p), windows[i].title, 0));
        }
      }
      assert windows[..|windows|] == windows;
    }

    method LookAtToplevels(toplevels: seq<Thing>)
      requires Sound() && Real(toplevels)
      modifies this, apps
      ensures Sound() && server == old(server) && Contents() == SeeAll(old(Contents()), toplevels)
    {
      hide See;
      for i := 0 to |toplevels|
        invariant Sound() && server == old(server) && Contents() == SeeAll(old(Contents()), toplevels[..i])
      {
        assert toplevels[..i + 1] == toplevels[..i] + [toplevels[i]];
        SeeAllOne(old(Contents()), toplevels[..i], toplevels[i]);
        Look(toplevels[i]);
      }
      assert toplevels[..|toplevels|] == toplevels;
    }

    // --- Ending ---

    method EndApp(id: nat, now: nat) returns (ok: bool, request: Request)
      requires Sound()
      modifies apps
      ensures Sound() && Contents() == End(old(Contents()), id, now)
      ensures ok <==> exists e :: e in old(Contents().entries) && e.id == id
      ensures ok ==> match request
                     case Nothing => false
                     case HideWindow(p) =>
                       exists e :: e in old(Contents().entries) && e.id == id && e.kind == Builtin && e.window == p
                     case CloseToplevel(p) =>
                       exists e :: e in old(Contents().entries) && e.id == id && e.kind == Client && e.toplevel == p
    {
      EndKeeps(Contents(), id, now);
      hide Inv;
      var found := EntryForId(id);
      match found {
        case None => ok, request := false, Nothing;
        case Some(i) =>
          ghost var before := apps[..count];
          assert before[i] in before;
          ok := true;
          if apps[i].kind == Builtin {
            request := HideWindow(apps[i].window);
          } else {
            request := CloseToplevel(apps[i].toplevel);
            if apps[i].closeAt == 0 { apps[i] := apps[i].(closeAt := now); }
          }
          assert apps[..count] == before[i := Ask(before[i], now)];
      }
    }

    method MayForce(id: nat) returns (can: bool)
      requires Valid()
      ensures can <==> CanForce(Contents(), id)
    {
      var found := EntryForId(id);
      match found {
        case None => can := false;
        case Some(i) => can := apps[i].kind == Client && apps[i].pid > 0 && apps[i].closeAt != 0;
      }
    }

    /** Terminates, then kills if that was refused; `terminated` and `killed` are what the system answers. */
    method ForceEnd(id: nat, terminated: bool, killed: bool) returns (ok: bool, terms: seq<int>, kills: seq<int>)
      requires Valid()
      ensures match Signalled(Contents(), id)
              case None => !ok && terms == [] && kills == []
              case Some(pid) =>
                && terms == [pid] && kills == (if terminated then [] else [pid])
                && ok == (terminated || killed)
    {
      ok, terms, kills := false, [], [];
      var found := EntryForId(id);
      if found.None? || apps[found.value].kind != Client || apps[found.value].pid <= 0 { return; }
      terms := [apps[found.value].pid];
      if terminated { return true, terms, []; }
      kills := [apps[found.value].pid];
      ok := killed;
    }
  }
}

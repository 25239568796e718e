/** Whole runs of the application table: reported once, and only after asking. */
module AppRuns {
  import opened Bytes
  import opened Sequences
  import opened AppTable
  import opened AppRefresh

  datatype Event =
    | Register(thing: Thing)
    | Gone(toplevel: nat)
    | Refreshed(things: seq<Thing>, clock: nat -> nat)
    | Asked(id: nat, now: nat)

  /** The table, every J-002 raised so far, when each client asked to close was first asked, and the time. */
  datatype History = History(table: Table, raised: seq<nat>, asked: map<nat, nat>, time: nat)

  const START: History := History(EMPTY, [], map[], 0)

  predicate ClientHere(t: Table, id: nat)
  {
    var r := FindId(t.entries, id, 0);
    r.Some? && t.entries[r.value].kind == Client
  }

  function FirstAsked(asked: map<nat, nat>, id: nat, now: nat): map<nat, nat>
  {
    if id in asked then asked else asked[id := now]
  }

  function Step(h: History, ev: Event): History
  {
    match ev
    case Register(thing) => h.(table := Add(h.table, thing))
    case Gone(p) => h.(table := RemoveClient(h.table, p))
    case Refreshed(things, clock) =>
      var es := Listed(h.table, things).entries;
      History(Refresh(h.table, things, clock), h.raised + Raised(es, clock, |es|), h.asked, clock(APPS_MAX))
    case Asked(id, now) =>
      var asked := if ClientHere(h.table, id) then FirstAsked(h.asked, id, now) else h.asked;
      History(End(h.table, id, now), h.raised, asked, now)
  }

  /** The clock is positive, fits its type and never runs backwards, within one refresh as between events. */
  ghost predicate Ticks(time: nat, clock: nat -> nat)
  {
    && time <= clock(0) && 0 < clock(0) && clock(APPS_MAX) < WRAP64
    && forall i: nat, j: nat :: i <= j ==> clock(i) <= clock(j)
  }

  ghost predicate Fits(h: History, ev: Event)
  {
    match ev
    case Refreshed(things, clock) => Real(things) && Ticks(h.time, clock)
    case Asked(id, now) => h.time <= now && 0 < now < WRAP64
    case _ => true
  }

  function Run(evs: seq<Event>): History
  {
    if evs == [] then START else Step(Run(evs[..|evs| - 1]), evs[|evs| - 1])
  }

  ghost predicate FitsAll(evs: seq<Event>)
  {
    evs != [] ==> FitsAll(evs[..|evs| - 1]) && Fits(Run(evs[..|evs| - 1]), evs[|evs| - 1])
  }

  // --- What every run keeps ---

  /** An id that has been handed out. */
  ghost predicate Issued(t: Table, id: nat) { id < WRAP32 && Serial(id) < t.made }

  /** What the history says of one entry, before ids come round. */
  ghost predicate Told(h: History, e: Entry)
  {
    && (e.closeAt != 0 <==> e.id in h.asked)
    && (e.id in h.asked ==> h.asked[e.id] == e.closeAt)
    && (e.reported <==> e.id in h.raised)
  }

  /** What time says of one entry. */
  ghost predicate Timed(time: nat, e: Entry)
  {
    && e.closeAt <= time
    && (e.reported ==> Late(e, time))
  }

  ghost predicate Sound(h: History)
  {
    && Inv(h.table) && h.time < WRAP64
    && (forall e :: e in h.table.entries ==> Timed(h.time, e))
    && (h.table.made <= WRAP32 ==> Recorded(h))
  }

  ghost predicate Recorded(h: History)
  {
    && (forall e :: e in h.table.entries ==> Told(h, e))
    && (forall id :: id in h.raised ==> id in h.asked)
    && (forall id :: id in h.asked ==> Issued(h.table, id))
    && NoRepeat(h.raised)
  }

  lemma LateStays(e: Entry, a: nat, b: nat)
    requires Late(e, a) && e.closeAt <= a <= b < WRAP64
    ensures Late(e, b)
  {
  }

  // --- Adding and removing ---

  lemma RegisterSound(h: History, thing: Thing)
    requires Sound(h)
    ensures Sound(Step(h, Register(thing)))
  {
    var t, r := h.table, Add(h.table, thing);
    AddKeeps(t, thing);
    if r != t {
      var e := Fresh(t.next, thing);
      assert forall x :: x in r.entries <==> x in t.entries || x == e;
      NextInTurn(t.made);
      assert e.closeAt == 0 && !e.reported;
      assert r.made <= WRAP32 ==> Serial(e.id) == t.made;
    }
  }

  lemma RemoveAnyKeeps(t: Table, p: nat)
    requires Inv(t)
    ensures Inv(RemoveClient(t, p)) && forall e :: e in RemoveClient(t, p).entries ==> e in t.entries
  {
    hide Inv, RemoveAt;
    match Find(t.entries, Toplevel(p)) {
      case None =>
      case Some(i) => RemoveKeeps(t, i);
    }
  }

  lemma GoneSound(h: History, p: nat)
    requires Sound(h)
    ensures Sound(Step(h, Gone(p)))
  {
    RemoveAnyKeeps(h.table, p);
    var r := Step(h, Gone(p));
    assert r.raised == h.raised && r.asked == h.asked && r.table.made == h.table.made;
    hide Inv, RemoveClient;
    assert forall e :: e in r.table.entries ==> (Told(h, e) ==> Told(r, e));
  }

  // --- Asking ---

  /** Asking one entry leaves every entry identified as it was. */
  lemma EndKeeps(t: Table, id: nat, now: nat)
    requires Inv(t)
    ensures Inv(End(t, id, now)) && End(t, id, now).made == t.made
  {
    match FindId(t.entries, id, 0) {
      case None =>
      case Some(i) =>
        hide Inv;
        var es := t.entries[i := Ask(t.entries[i], now)];
        AskedKeeps(t, i, now);
    }
  }

  lemma AskedKeeps(t: Table, i: nat, now: nat)
    requires Inv(t) && i < |t.entries|
    ensures Inv(t.(entries := t.entries[i := Ask(t.entries[i], now)]))
  {
    var es := t.entries[i := Ask(t.entries[i], now)];
    assert forall j :: 0 <= j < |es| ==> es[j].id == t.entries[j].id && KeyOf(es[j]) == KeyOf(t.entries[j]);
    forall e | e in es ensures Shaped(e) && (t.made <= WRAP32 ==> e.id < WRAP32 && Serial(e.id) < t.made) {
      var j :| 0 <= j < |es| && es[j] == e;
      assert t.entries[j] in t.entries && Shaped(t.entries[j]);
    }
  }

  lemma AskedSound(h: History, id: nat, now: nat)
    requires Sound(h) && h.time <= now && 0 < now < WRAP64
    ensures Sound(Step(h, Asked(id, now)))
  {
    var t, r := h.table, Step(h, Asked(id, now));
    hide Inv;
    EndKeeps(t, id, now);
    forall j | 0 <= j < |t.entries| ensures Timed(now, r.table.entries[j]) {
      assert t.entries[j] in t.entries;
      var e := t.entries[j];
      if e.reported { LateStays(e, h.time, now); }
    }
    if t.made <= WRAP32 { AskedRecorded(h, id, now); }
  }

  lemma AskedRecorded(h: History, id: nat, now: nat)
    requires Inv(h.table) && Recorded(h) && 0 < now && h.table.made <= WRAP32
    ensures Recorded(Step(h, Asked(id, now)))
  {
    var t, r := h.table, Step(h, Asked(id, now));
    match FindId(t.entries, id, 0) {
      case None =>
        assert r.table == t && r.asked == h.asked;
        assert forall e :: e in t.entries ==> (Told(h, e) ==> Told(r, e));
      case Some(i) =>
        assert t.entries[i] in t.entries;
        forall j | 0 <= j < |t.entries| ensures Told(r, r.table.entries[j]) {
          assert t.entries[j] in t.entries;
          assert j != i ==> t.entries[j].id != id;
          ToldOne(h, r, t.entries[j], id, now, j == i);
        }
    }
  }

  lemma ToldOne(h: History, r: History, e: Entry, id: nat, now: nat, here: bool)
    requires Told(h, e) && Shaped(e) && now > 0 && (here <==> e.id == id) && r.raised == h.raised
    requires r.asked == h.asked || r.asked == FirstAsked(h.asked, id, now)
    requires here ==> r.asked == if e.kind == Client then FirstAsked(h.asked, id, now) else h.asked
    ensures Told(r, if here then Ask(e, now) else e)
  {
  }

  // --- Refreshing ---

  /** The rest of an entry's story is kept in its place, and what is appended is new in every way. */
  ghost predicate Carried(t: Table, s: Table)
  {
    && |t.entries| <= |s.entries| && t.made <= s.made
    && (forall i :: 0 <= i < |t.entries| ==>
          Same(t.entries[i], s.entries[i]) && s.entries[i].reported == t.entries[i].reported)
    && (forall i :: |t.entries| <= i < |s.entries| ==>
          s.entries[i].closeAt == 0 && !s.entries[i].reported
              && (s.made <= WRAP32 ==> Serial(s.entries[i].id) >= t.made))
  }

  lemma CarriedTwice(a: Table, b: Table, c: Table)
    requires Carried(a, b) && Carried(b, c)
    ensures Carried(a, c)
  {
    forall i | 0 <= i < |a.entries|
      ensures Same(a.entries[i], c.entries[i]) && c.entries[i].reported == a.entries[i].reported
    {
      assert Same(a.entries[i], b.entries[i]) && Same(b.entries[i], c.entries[i]);
    }
    forall i | |a.entries| <= i < |c.entries|
      ensures c.entries[i].closeAt == 0 && !c.entries[i].reported
      ensures c.made <= WRAP32 ==> Serial(c.entries[i].id) >= a.made
    {
      if i < |b.entries| { assert Same(b.entries[i], c.entries[i]); }
    }
  }

  lemma SeeCarried(t: Table, thing: Thing)
    requires Inv(t) && thing.key.p != 0
    ensures Carried(t, See(t, thing))
  {
    hide Inv, Find, Keys;
    RoomIs(t, thing);
    InvNumbered(t);
    NextInTurn(t.made);
  }

  lemma InvNumbered(t: Table)
    requires Inv(t)
    ensures t.next == (t.made + 1) % WRAP32
    ensures t.made <= WRAP32 ==> IdsApart(t.entries) && forall e :: e in t.entries ==> Issued(t, e.id)
  {
  }

  lemma {:induction false} SeeAllCarried(t: Table, things: seq<Thing>)
    requires Inv(t) && Real(things)
    ensures Carried(t, SeeAll(t, things))
    decreases |things|
  {
    hide Inv, See, Real, Carried;
    if things == [] {
      CarriedSelf(t);
    } else {
      FirstThing(things);
      SeeKeeps(t, things[0]);
      SeeCarried(t, things[0]);
      SeeAllCarried(See(t, things[0]), things[1..]);
      CarriedTwice(t, See(t, things[0]), SeeAll(t, things));
    }
  }

  lemma CarriedSelf(t: Table)
    ensures Carried(t, t)
  {
  }

  lemma SeenCarried(t: Table, things: seq<Thing>)
    requires Inv(t) && Real(things)
    ensures Carried(t, Seen(t, things))
  {
    hide Inv, Real, SeeAll;
    UnseenKeeps(t);
    var u := t.(entries := Unseen(t.entries));
    assert Carried(t, u);
    SeeAllCarried(u, things);
    CarriedTwice(t, u, SeeAll(u, things));
  }

  /** An entry left by a refresh, before it is judged, as the history knew it or as a new one. */
  ghost predicate Carries(h: History, made: nat, e: Entry)
  {
    || (Timed(h.time, e) && (made <= WRAP32 ==> Told(h, e)))
    || (e.closeAt == 0 && !e.reported && (made <= WRAP32 ==> e.id !in h.raised && e.id !in h.asked))
  }

  lemma ListedCarries(h: History, things: seq<Thing>)
    requires Sound(h) && Real(things)
    ensures var l := Listed(h.table, things);
            l.made >= h.table.made && forall e :: e in l.entries ==> Carries(h, l.made, e)
  {
    hide Inv, Real, Listed, Seen;
    var t := h.table;
    var s, l := Seen(t, things), Listed(t, things);
    ListedIs(t, things);
    SeenCarried(t, things);
    forall i | 0 <= i < |s.entries| ensures Carries(h, s.made, s.entries[i]) {
      if i < |t.entries| {
        assert t.entries[i] in t.entries;
        assert Same(t.entries[i], s.entries[i]);
      }
    }
  }

  lemma RefreshTimed(h: History, made: nat, e: Entry, now: nat, end: nat)
    requires Carries(h, made, e) && h.time <= now <= end < WRAP64
    ensures Timed(end, Judge(e, now))
  {
    if Late(e, now) { LateStays(Judge(e, now), now, end); }
  }

  /** The pass raises J-002 for entry i. */
  predicate Raises(es: seq<Entry>, clock: nat -> nat, i: nat)
    requires i < |es|
  {
    Late(es[i], clock(i)) && !es[i].reported
  }

  /** The ids raised by one pass: those late and not reported before. */
  lemma {:induction false} RaisedIs(es: seq<Entry>, clock: nat -> nat, n: nat)
    requires n <= |es|
    ensures forall id :: id in Raised(es, clock, n) <==>
              exists i :: 0 <= i < n && Raises(es, clock, i) && es[i].id == id
    ensures IdsApart(es) ==> NoRepeat(Raised(es, clock, n))
    decreases n
  {
    hide Late;
    if n > 0 {
      RaisedIs(es, clock, n - 1);
      var less, all := Raised(es, clock, n - 1), Raised(es, clock, n);
      assert Raises(es, clock, n - 1) ==> all == less + [es[n - 1].id];
      assert !Raises(es, clock, n - 1) ==> all == less;
      forall id ensures id in all <==> exists i :: 0 <= i < n && Raises(es, clock, i) && es[i].id == id {
      }
      assert IdsApart(es) ==> es[n - 1].id !in less;
    }
  }

  lemma RefreshedSound(h: History, things: seq<Thing>, clock: nat -> nat)
    requires Sound(h) && Real(things) && Ticks(h.time, clock)
    ensures Sound(Step(h, Refreshed(things, clock)))
  {
    var t, l, r := h.table, Listed(h.table, things), Step(h, Refreshed(things, clock));
    hide Inv, Real, Listed, Keys, Carries;
    ListedIs(t, things);
    ListedCarries(h, things);
    RefreshKeeps(t, things, clock);
    InvShaped(l);
    var es := r.table.entries;
    assert es == JudgeAll(l.entries, clock);
    forall i | 0 <= i < |es| ensures Timed(r.time, es[i]) {
      assert l.entries[i] in l.entries;
      RefreshTimed(h, l.made, l.entries[i], clock(i), clock(APPS_MAX));
    }
    if l.made <= WRAP32 { RefreshedRecorded(h, things, clock); }
  }

  lemma RefreshedRecorded(h: History, things: seq<Thing>, clock: nat -> nat)
    requires Sound(h) && Real(things) && Ticks(h.time, clock) && Listed(h.table, things).made <= WRAP32
    ensures Recorded(Step(h, Refreshed(things, clock)))
  {
    var t, l, r := h.table, Listed(h.table, things), Step(h, Refreshed(things, clock));
    ListedIs(t, things);
    ListedCarries(h, things);
    assert Recorded(h);
    hide Inv, Real, Listed, Keys, Late, Raised, Carries, Told;
    InvShaped(l);
    InvNumbered(l);
    forall i | 0 <= i < |l.entries| ensures Told(r, r.table.entries[i]) {
      assert l.entries[i] in l.entries;
      TellOne(h, r, l, clock, i);
    }
    NewlyRaised(h, l, clock);
  }

  /** An entry is reported after the pass exactly when the whole record says so. */
  lemma TellOne(h: History, r: History, l: Table, clock: nat -> nat, i: nat)
    requires Recorded(h) && l.made <= WRAP32 && IdsApart(l.entries) && i < |l.entries| <= APPS_MAX
             && Ticks(h.time, clock)
    requires Carries(h, l.made, l.entries[i])
    requires r.asked == h.asked && r.raised == h.raised + Raised(l.entries, clock, |l.entries|)
    ensures Told(r, Judge(l.entries[i], clock(i)))
  {
    hide Late, Raised, Recorded;
    var e := l.entries[i];
    RaisedIs(l.entries, clock, |l.entries|);
    assert clock(0) <= clock(i) <= clock(APPS_MAX);
    if e.reported { LateStays(e, h.time, clock(i)); }
  }

  /** What one pass raises was never raised before, and had been asked. */
  lemma NewlyRaised(h: History, l: Table, clock: nat -> nat)
    requires Recorded(h) && l.made <= WRAP32 && IdsApart(l.entries)
    requires forall e :: e in l.entries ==> Carries(h, l.made, e)
    ensures var newIds := Raised(l.entries, clock, |l.entries|);
            && (forall id :: id in newIds ==> id in h.asked)
            && NoRepeat(h.raised + newIds)
  {
    hide Raised;
    var newIds := Raised(l.entries, clock, |l.entries|);
    RaisedIs(l.entries, clock, |l.entries|);
    forall id | id in newIds ensures id in h.asked && id !in h.raised {
      var i :| 0 <= i < |l.entries| && Raises(l.entries, clock, i) && l.entries[i].id == id;
      assert l.entries[i] in l.entries;
    }
    NoRepeatBoth(h.raised, newIds);
  }

  // --- Whole runs ---

  lemma StepSound(h: History, ev: Event)
    requires Sound(h) && Fits(h, ev)
    ensures Sound(Step(h, ev)) && Step(h, ev).table.made >= h.table.made
  {
    hide Sound, Refresh, Ticks;
    match ev {
      case Register(thing) => RegisterSound(h, thing); MadeGrows(h.table, thing);
      case Gone(p) => GoneSound(h, p);
      case Refreshed(things, clock) => RefreshedSound(h, things, clock); RefreshMade(h, things, clock);
      case Asked(id, now) => AskedSound(h, id, now);
    }
  }

  lemma RefreshMade(h: History, things: seq<Thing>, clock: nat -> nat)
    requires Sound(h) && Real(things)
    ensures Refresh(h.table, things, clock).made >= h.table.made
  {
    hide Inv, Real, Listed;
    ListedCarries(h, things);
  }

  lemma {:induction false} RunSound(evs: seq<Event>)
    requires FitsAll(evs)
    ensures Sound(Run(evs))
  {
    if evs != [] {
      hide Sound, Step, Fits;
      RunSound(evs[..|evs| - 1]);
      StepSound(Run(evs[..|evs| - 1]), evs[|evs| - 1]);
    }
  }

  /** The list keeps its keys apart in every run, and its ids for the first 2^32 entries. */
  lemma RunKeepsApart(evs: seq<Event>)
    requires FitsAll(evs)
    ensures |Run(evs).table.entries| <= APPS_MAX && KeysApart(Run(evs).table.entries)
    ensures Run(evs).table.made <= WRAP32 ==> IdsApart(Run(evs).table.entries)
  {
    RunSound(evs);
  }

  /** J-002 is raised at most once for any id, and only for one that was asked to close. */
  lemma ReportedOnce(evs: seq<Event>)
    requires FitsAll(evs) && Run(evs).table.made <= WRAP32
    ensures NoRepeat(Run(evs).raised) && forall id :: id in Run(evs).raised ==> id in Run(evs).asked
  {
    RunSound(evs);
  }

  // --- The wait ---

  /** First asked to close longer ago than the wait. */
  ghost predicate Waited(h: History, id: nat, now: nat)
  {
    id in h.asked && now - h.asked[id] > 5000
  }

  /** To be late is to have been first asked longer ago than the wait, whatever the 64-bit subtraction. */
  lemma LateExactly(h: History, e: Entry, now: nat)
    requires Told(h, e) && e.closeAt <= h.time <= now < WRAP64
    ensures Late(e, now) <==> Waited(h, e.id, now)
  {
    if e.closeAt != 0 { NoWrap(now, e.closeAt); }
  }

  lemma NoWrap(now: nat, before: nat)
    requires before <= now < WRAP64
    ensures (now - before) % WRAP64 == now - before
  {
  }

  /** The same for an entry the refresh has just listed. */
  lemma LateCarried(h: History, made: nat, e: Entry, now: nat)
    requires Carries(h, made, e) && made <= WRAP32 && h.time <= now < WRAP64
    ensures Late(e, now) <==> Waited(h, e.id, now)
    ensures e.reported <==> e.id in h.raised
  {
    if Timed(h.time, e) && Told(h, e) { LateExactly(h, e, now); }
  }

  /**
   What one refresh raises, exactly: J-002 for entry i, looked at when the clock says clock(i), if and
   only if it was first asked to close more than five seconds before that look, and not reported before.
   */
  lemma RaisedExactly(evs: seq<Event>, things: seq<Thing>, clock: nat -> nat, i: nat)
    requires FitsAll(evs) && Fits(Run(evs), Refreshed(things, clock))
    requires Listed(Run(evs).table, things).made <= WRAP32 && i < |Listed(Run(evs).table, things).entries|
    ensures var h, es := Run(evs), Listed(Run(evs).table, things).entries;
            && (es[i].id in Raised(es, clock, |es|) <==>
                Waited(h, es[i].id, clock(i)) && es[i].id !in h.raised)
            && (es[i].id in Step(h, Refreshed(things, clock)).raised <==>
                Waited(h, es[i].id, clock(i)) || es[i].id in h.raised)
  {
    RunSound(evs);
    var h, l := Run(evs), Listed(Run(evs).table, things);
    ListedIs(h.table, things);
    ListedCarries(h, things);
    hide Run, Inv, Listed, Raised, Carries, Late, Waited, Told, Recorded, Real;
    InvNumbered(l);
    ClockAt(h, clock, i, l);
    assert l.entries[i] in l.entries;
    LateCarried(h, l.made, l.entries[i], clock(i));
    RaisedIs(l.entries, clock, |l.entries|);
    OneRaises(l.entries, clock, i);
  }

  lemma ClockAt(h: History, clock: nat -> nat, i: nat, l: Table)
    requires Inv(l) && i < |l.entries| && Ticks(h.time, clock)
    ensures h.time <= clock(i) < WRAP64 && i < APPS_MAX
  {
    assert clock(0) <= clock(i) <= clock(APPS_MAX);
  }

  lemma OneRaises(es: seq<Entry>, clock: nat -> nat, i: nat)
    requires IdsApart(es) && i < |es|
    ensures (exists j :: 0 <= j < |es| && Raises(es, clock, j) && es[j].id == es[i].id) <==> Raises(es, clock, i)
  {
    hide Raises;
    if j :| 0 <= j < |es| && Raises(es, clock, j) && es[j].id == es[i].id { assert j == i; }
  }

  /**
   A listed client first asked more than the wait before a refresh looks at it has been reported by the
   end of that refresh, and whatever has been reported was asked more than the wait before.
   */
  lemma ReportedExactly(evs: seq<Event>, things: seq<Thing>, clock: nat -> nat, i: nat)
    requires FitsAll(evs) && Fits(Run(evs), Refreshed(things, clock))
    requires Listed(Run(evs).table, things).made <= WRAP32 && i < |Listed(Run(evs).table, things).entries|
    ensures var h, id := Run(evs), Listed(Run(evs).table, things).entries[i].id;
            id in Step(h, Refreshed(things, clock)).raised <==> Waited(h, id, clock(i))
  {
    RaisedExactly(evs, things, clock, i);
    RunSound(evs);
    var h, l := Run(evs), Listed(Run(evs).table, things);
    ListedIs(h.table, things);
    ListedCarries(h, things);
    hide Run, Inv, Listed, Raised, Late, Waited, Real;
    ClockAt(h, clock, i, l);
    var e := l.entries[i];
    assert e in l.entries;
    LateCarried(h, l.made, e, clock(i));
    if e.id in h.raised {
      assert e.reported && Timed(h.time, e);
      LateStays(e, h.time, clock(i));
    }
  }

  /** What a program is said to be: not responding exactly after the wait, else as its window is. */
  lemma DescribedExactly(evs: seq<Event>, e: Entry, now: nat, minimized: bool)
    requires FitsAll(evs) && e in Run(evs).table.entries && Run(evs).table.made <= WRAP32
    requires Run(evs).time <= now < WRAP64
    ensures Describe(e, now, minimized) ==
            if Waited(Run(evs), e.id, now) then NotResponding else if minimized then Minimized else Running
  {
    RunSound(evs);
    hide Run;
    LateExactly(Run(evs), e, now);
  }

  /** Forcing is offered exactly for a listed client with a process that was asked to close earlier. */
  lemma ForceAfterAsking(evs: seq<Event>, id: nat)
    requires FitsAll(evs) && Run(evs).table.made <= WRAP32
    ensures CanForce(Run(evs).table, id) <==>
            && id in Run(evs).asked
            && exists e :: e in Run(evs).table.entries && e.id == id && e.kind == Client && e.pid > 0
  {
    RunSound(evs);
    var h := Run(evs);
    hide Run, Serial, Shaped;
    match FindId(h.table.entries, id, 0) {
      case None =>
      case Some(i) =>
        assert h.table.entries[i] in h.table.entries;
        forall e | e in h.table.entries && e.id == id ensures e == h.table.entries[i] {
          var j :| 0 <= j < |h.table.entries| && h.table.entries[j] == e;
          assert j == i;
        }
    }
  }

  /** A built-in is never called not responding, whatever the time, and is never signalled. */
  lemma BuiltinsLeftAlone(evs: seq<Event>, i: nat, now: nat, minimized: bool)
    requires FitsAll(evs) && i < |Run(evs).table.entries| && Run(evs).table.entries[i].kind == Builtin
    ensures Describe(Run(evs).table.entries[i], now, minimized) != NotResponding
    ensures Run(evs).table.made <= WRAP32 ==> Signalled(Run(evs).table, Run(evs).table.entries[i].id).None?
  {
    RunSound(evs);
    var t := Run(evs).table;
    assert t.entries[i] in t.entries && Shaped(t.entries[i]);
  }

  /** The force itself does not look at whether it was asked: it signals before any request. */
  lemma ForceDoesNotWait()
    ensures var t := Add(EMPTY, Thing(Toplevel(1), "app", 7));
            Signalled(t, 1) == Some(7) && !CanForce(t, 1)
  {
    var t := Add(EMPTY, Thing(Toplevel(1), "app", 7));
    assert t.entries == [Fresh(1, Thing(Toplevel(1), "app", 7))];
    assert FindId(t.entries, 1, 0) == Some(0);
  }

  /** What is missing is exactly the request. */
  lemma ForceGap(t: Table, id: nat)
    ensures CanForce(t, id) ==> Signalled(t, id).Some?
    ensures Signalled(t, id).Some? && !CanForce(t, id) <==>
            exists i :: FindId(t.entries, id, 0) == Some(i) && 0 <= i < |t.entries| &&
                        t.entries[i].kind == Client && t.entries[i].pid > 0 && t.entries[i].closeAt == 0
  {
  }
}

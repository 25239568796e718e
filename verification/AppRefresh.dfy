/** What a refresh does to the table: who survives it, and when it lists everything that runs. */
module AppRefresh {
  import opened Bytes
  import opened AppTable

  ghost function Keys(es: seq<Entry>): set<Key> { set e | e in es :: KeyOf(e) }

  ghost function KeysOf(things: seq<Thing>): set<Key> { set t | t in things :: t.key }

  /** No list of running things holds a NULL. */
  ghost predicate Real(things: seq<Thing>)
  {
    forall t :: t in things ==> t.key.p != 0
  }

  /** An entry is marked seen exactly when its application is among those seen. */
  ghost predicate SeenIs(es: seq<Entry>, seen: set<Key>)
  {
    forall e :: e in es ==> (e.present <==> KeyOf(e) in seen)
  }

  /** New entries have not been asked to close, nor reported. */
  ghost predicate NewFrom(es: seq<Entry>, from: nat)
  {
    forall i :: from <= i < |es| ==> es[i].closeAt == 0 && !es[i].reported
  }

  // --- Seeing one thing ---

  lemma FindIsKey(es: seq<Entry>, k: Key)
    requires k.p != 0 && forall e :: e in es ==> Shaped(e)
    ensures Find(es, k).Some? <==> k in Keys(es)
    ensures Find(es, k).Some? ==> KeyOf(es[Find(es, k).value]) == k
  {
    forall i | 0 <= i < |es| ensures Match(es[i], k) <==> KeyOf(es[i]) == k { MatchIsKey(es[i], k); }
    if k in Keys(es) {
      var e :| e in es && KeyOf(e) == k;
      var i :| 0 <= i < |es| && es[i] == e;
    }
  }

  /** The table before the mark is set: with the thing in it if there was room. */
  function Room(t: Table, thing: Thing): Table
  {
    if Find(t.entries, thing.key).None? then Add(t, thing) else t
  }

  lemma RoomIs(t: Table, thing: Thing)
    requires Inv(t) && thing.key.p != 0
    ensures var r := Room(t, thing);
            && Inv(r)
            && r.entries == (if thing.key in Keys(t.entries) || |t.entries| == APPS_MAX then t.entries
                             else t.entries + [Fresh(t.next, thing)])
            && r.next == Add(t, thing).next && r.made == Add(t, thing).made
  {
    hide Inv, Keys;
    AddKeeps(t, thing);
    InvShaped(t);
    FindIsKey(t.entries, thing.key);
  }

  lemma InvShaped(t: Table)
    requires Inv(t)
    ensures |t.entries| <= APPS_MAX && KeysApart(t.entries) && forall e :: e in t.entries ==> Shaped(e)
  {
  }

  lemma RoomKeys(es: seq<Entry>, e: Entry)
    ensures Keys(es + [e]) == Keys(es) + {KeyOf(e)}
  {
    assert forall x :: x in es + [e] <==> x in es || x == e;
    assert e in es + [e];
  }

  /** Marking an entry changes nothing that identifies it. */
  lemma Marked(t: Table, i: nat, thing: Thing)
    requires Inv(t) && i < |t.entries| && KeyOf(t.entries[i]) == thing.key
    ensures var es := t.entries[i := Touch(t.entries[i], thing)];
            && Inv(t.(entries := es)) && Extends(t.entries, es) && Keys(es) == Keys(t.entries)
  {
    var es := t.entries[i := Touch(t.entries[i], thing)];
    assert t.entries[i] in t.entries;
    assert forall j :: 0 <= j < |es| ==> es[j] == t.entries[j] || j == i;
    forall j | 0 <= j < |es| && es[j].kind == Builtin ensures es[j].pid == 0 {
      assert t.entries[j] in t.entries && Shaped(t.entries[j]);
    }
    SameKeeps(t, es);
    SameKeys(t.entries, es);
  }

  lemma SameKeys(es: seq<Entry>, fs: seq<Entry>)
    requires |es| == |fs| && forall i :: 0 <= i < |es| ==> KeyOf(es[i]) == KeyOf(fs[i])
    ensures Keys(es) == Keys(fs)
  {
    forall k | k in Keys(es) ensures k in Keys(fs) {
      var e :| e in es && KeyOf(e) == k;
      var i :| 0 <= i < |es| && es[i] == e;
      assert KeyOf(fs[i]) == k && fs[i] in fs;
    }
    forall k | k in Keys(fs) ensures k in Keys(es) {
      var e :| e in fs && KeyOf(e) == k;
      var i :| 0 <= i < |fs| && fs[i] == e;
      assert KeyOf(es[i]) == k && es[i] in es;
    }
  }

  lemma ExtendsRoom(t: Table, thing: Thing)
    requires Inv(t) && thing.key.p != 0
    ensures Extends(t.entries, Room(t, thing).entries)
    ensures Keys(Room(t, thing).entries) ==
            Keys(t.entries) + if |t.entries| == APPS_MAX then {} else {thing.key}
  {
    hide Inv, Keys, Add;
    RoomIs(t, thing);
    RoomKeys(t.entries, Fresh(t.next, thing));
    assert thing.key in Keys(t.entries) ==> Keys(t.entries) + {thing.key} == Keys(t.entries);
    assert Keys(t.entries) + {} == Keys(t.entries);
  }

  /** Seeing a thing: everything listed stays in place, and the thing is listed if there is room. */
  lemma SeeKeeps(t: Table, thing: Thing)
    requires Inv(t) && thing.key.p != 0
    ensures Inv(See(t, thing)) && Extends(t.entries, See(t, thing).entries)
    ensures Keys(See(t, thing).entries) == Keys(t.entries) + if |t.entries| == APPS_MAX then {} else {thing.key}
    ensures See(t, thing).made >= t.made
  {
    hide Inv, Keys, Add, Touch, Find, Extends;
    var more := Room(t, thing);
    RoomIs(t, thing);
    ExtendsRoom(t, thing);
    InvShaped(more);
    FindIsKey(more.entries, thing.key);
    MadeGrows(t, thing);
    match Find(more.entries, thing.key) {
      case None =>
      case Some(i) =>
        Marked(more, i, thing);
        ExtendsTwice(t.entries, more.entries, See(t, thing).entries);
    }
  }

  lemma MadeGrows(t: Table, thing: Thing)
    ensures Add(t, thing).made >= t.made
  {
  }

  lemma ExtendsTwice(a: seq<Entry>, b: seq<Entry>, c: seq<Entry>)
    requires Extends(a, b) && Extends(b, c)
    ensures Extends(a, c)
  {
  }

  /** The mark says who was seen. */
  lemma SeeMarks(t: Table, thing: Thing, seen: set<Key>)
    requires Inv(t) && thing.key.p != 0 && SeenIs(t.entries, seen)
    ensures SeenIs(See(t, thing).entries, seen + {thing.key})
  {
    hide Keys, Add, Find;
    var more := Room(t, thing);
    RoomIs(t, thing);
    InvShaped(more);
    FindIsKey(more.entries, thing.key);
    KeysIndexed(more.entries);
    var r := See(t, thing).entries;
    forall j | 0 <= j < |r| ensures r[j].present <==> KeyOf(r[j]) in seen + {thing.key} {
      if KeyOf(r[j]) != thing.key {
        assert r[j] == more.entries[j];
        if j < |t.entries| { assert t.entries[j] in t.entries; }
      }
    }
  }

  lemma KeysIndexed(es: seq<Entry>)
    ensures forall i :: 0 <= i < |es| ==> KeyOf(es[i]) in Keys(es)
  {
    forall i | 0 <= i < |es| ensures KeyOf(es[i]) in Keys(es) { assert es[i] in es; }
  }

  // --- Seeing them all ---

  lemma FirstThing(things: seq<Thing>)
    requires things != []
    ensures KeysOf(things) == {things[0].key} + KeysOf(things[1..])
    ensures Real(things) ==> things[0].key.p != 0 && Real(things[1..])
  {
    assert things[0] in things;
    assert forall t :: t in things <==> t == things[0] || t in things[1..];
  }

  lemma {:induction false} SeeAllKeeps(t: Table, things: seq<Thing>)
    requires Inv(t) && Real(things)
    ensures Inv(SeeAll(t, things)) && Extends(t.entries, SeeAll(t, things).entries) && SeeAll(t, things).made >= t.made
    ensures Keys(t.entries) <= Keys(SeeAll(t, things).entries) <= Keys(t.entries) + KeysOf(things)
    decreases |things|
  {
    hide Inv, Keys, KeysOf, See, Real, Extends;
    if things == [] {
      ExtendsSelf(t.entries);
    } else {
      FirstThing(things);
      var next := See(t, things[0]);
      SeeKeeps(t, things[0]);
      SeeAllKeeps(next, things[1..]);
      ExtendsTwice(t.entries, next.entries, SeeAll(t, things).entries);
    }
  }

  lemma ExtendsSelf(es: seq<Entry>)
    ensures Extends(es, es)
  {
  }

  lemma {:induction false} SeeAllMarks(t: Table, things: seq<Thing>, seen: set<Key>)
    requires Inv(t) && Real(things) && SeenIs(t.entries, seen)
    ensures SeenIs(SeeAll(t, things).entries, seen + KeysOf(things))
    decreases |things|
  {
    hide Inv, See, Real, SeenIs;
    if things == [] {
      assert seen + KeysOf(things) == seen;
    } else {
      hide KeysOf;
      FirstThing(things);
      SeeKeeps(t, things[0]);
      SeeMarks(t, things[0], seen);
      SeeAllMarks(See(t, things[0]), things[1..], seen + {things[0].key});
      assert seen + {things[0].key} + KeysOf(things[1..]) == seen + KeysOf(things);
    }
  }

  /** What was appended along the way has never been asked to close. */
  lemma {:induction false} SeeAllNew(t: Table, things: seq<Thing>, from: nat)
    requires Inv(t) && Real(things) && from <= |t.entries| && NewFrom(t.entries, from)
    ensures NewFrom(SeeAll(t, things).entries, from)
    decreases |things|
  {
    hide Inv, See, Real, NewFrom;
    if things != [] {
      FirstThing(things);
      SeeKeeps(t, things[0]);
      SeeNew(t, things[0], from);
      SeeAllNew(See(t, things[0]), things[1..], from);
    }
  }

  lemma SeeNew(t: Table, thing: Thing, from: nat)
    requires Inv(t) && thing.key.p != 0 && from <= |t.entries| && NewFrom(t.entries, from)
    ensures NewFrom(See(t, thing).entries, from)
  {
    hide Inv, Find;
    RoomIs(t, thing);
  }

  lemma {:induction false} KeysCount(es: seq<Entry>)
    requires KeysApart(es)
    ensures |Keys(es)| == |es|
  {
    if es != [] {
      var init, e := es[..|es| - 1], es[|es| - 1];
      LastApart(es);
      hide KeysApart;
      KeysCount(init);
      RoomKeys(init, e);
      assert es == init + [e];
    }
  }

  lemma LastApart(es: seq<Entry>)
    requires KeysApart(es) && es != []
    ensures KeysApart(es[..|es| - 1]) && KeyOf(es[|es| - 1]) !in Keys(es[..|es| - 1])
  {
    var init, e := es[..|es| - 1], es[|es| - 1];
    forall f | f in init ensures KeyOf(f) != KeyOf(e) {
      var i :| 0 <= i < |init| && init[i] == f;
      assert es[i] == f;
    }
  }

  lemma Subset<T>(a: set<T>, b: set<T>)
    requires a <= b
    ensures |a| <= |b|
    ensures a != b ==> |a| < |b|
  {
    assert b == a + (b - a);
  }

  /** Everything running gets listed exactly when it and what was listed already fit the table together. */
  lemma {:induction false} SeeAllComplete(t: Table, things: seq<Thing>)
    requires Inv(t) && Real(things)
    ensures KeysOf(things) <= Keys(SeeAll(t, things).entries) <==> |Keys(t.entries) + KeysOf(things)| <= APPS_MAX
    decreases |things|
  {
    hide Inv, Keys, KeysOf, Real, Extends;
    var r := SeeAll(t, things);
    SeeAllKeeps(t, things);
    InvShaped(r);
    KeysCount(r.entries);
    if KeysOf(things) <= Keys(r.entries) {
      Subset(Keys(t.entries) + KeysOf(things), Keys(r.entries));
    }
    if |Keys(t.entries) + KeysOf(things)| <= APPS_MAX { SeeAllFits(t, things); }
  }

  lemma {:induction false} SeeAllFits(t: Table, things: seq<Thing>)
    requires Inv(t) && Real(things) && |Keys(t.entries) + KeysOf(things)| <= APPS_MAX
    ensures Keys(SeeAll(t, things).entries) == Keys(t.entries) + KeysOf(things)
    decreases |things|
  {
    hide Inv, Keys, See, Real;
    if things == [] {
      assert Keys(t.entries) + KeysOf(things) == Keys(t.entries);
    } else {
      hide KeysOf, Extends;
      FirstThing(things);
      InvShaped(t);
      KeysCount(t.entries);
      var k, next := things[0].key, See(t, things[0]);
      SeeKeeps(t, things[0]);
      Subset(Keys(t.entries), Keys(t.entries) + KeysOf(things));
      assert k in KeysOf(things);
      assert |t.entries| == APPS_MAX ==> k in Keys(t.entries);
      assert Keys(next.entries) == Keys(t.entries) + {k};
      assert Keys(next.entries) + KeysOf(things[1..]) == Keys(t.entries) + KeysOf(things);
      SeeAllFits(next, things[1..]);
    }
  }

  // --- Dropping what is gone ---

  lemma {:induction false} SweepKeeps(t: Table, n: nat)
    requires Inv(t) && n <= |t.entries|
    requires forall i :: n <= i < |t.entries| ==> t.entries[i].present
    ensures Inv(t.(entries := Sweep(t.entries, n)))
    ensures forall e :: e in Sweep(t.entries, n) <==> e in t.entries && e.present
    decreases n
  {
    hide Inv, RemoveAt;
    var es := t.entries;
    if n == 0 {
      assert t.(entries := es) == t;
    } else if es[n - 1].present {
      SweepKeeps(t, n - 1);
    } else {
      RemoveKeeps(t, n - 1);
      RemoveAtIs(es, n - 1);
      SweepKeeps(t.(entries := RemoveAt(es, n - 1)), n - 1);
    }
  }

  lemma UnseenKeeps(t: Table)
    requires Inv(t)
    ensures Inv(t.(entries := Unseen(t.entries))) && Extends(t.entries, Unseen(t.entries))
    ensures SeenIs(Unseen(t.entries), {}) && Keys(Unseen(t.entries)) == Keys(t.entries)
  {
    forall i | 0 <= i < |t.entries| && t.entries[i].kind == Builtin ensures t.entries[i].pid == 0 {
      assert t.entries[i] in t.entries;
    }
    SameKeeps(t, Unseen(t.entries));
    SameKeys(t.entries, Unseen(t.entries));
  }

  // --- The refresh ---

  /** The table once everything has been seen, before anything is dropped. */
  function Seen(t: Table, things: seq<Thing>): Table
  {
    SeeAll(t.(entries := Unseen(t.entries)), things)
  }

  lemma SeenIsMarked(t: Table, things: seq<Thing>)
    requires Inv(t) && Real(things)
    ensures var s := Seen(t, things);
            && Inv(s) && Extends(t.entries, s.entries) && s.made >= t.made
            && SeenIs(s.entries, KeysOf(things)) && NewFrom(s.entries, |t.entries|)
            && Keys(t.entries) <= Keys(s.entries) <= Keys(t.entries) + KeysOf(things)
            && (KeysOf(things) <= Keys(s.entries) <==> |Keys(t.entries) + KeysOf(things)| <= APPS_MAX)
  {
    hide Inv, Real, SeenIs, Extends, Keys, KeysOf, Unseen, SeeAll;
    UnseenKeeps(t);
    var u := t.(entries := Unseen(t.entries));
    SeeAllKeeps(u, things);
    ExtendsTwice(t.entries, u.entries, SeeAll(u, things).entries);
    SeeAllMarks(u, things, {});
    assert {} + KeysOf(things) == KeysOf(things);
    SeeAllNew(u, things, |t.entries|);
    SeeAllComplete(u, things);
  }

  lemma ListedIs(t: Table, things: seq<Thing>)
    requires Inv(t) && Real(things)
    ensures Inv(Listed(t, things)) && Listed(t, things).made == Seen(t, things).made
    ensures forall e :: e in Listed(t, things).entries <==> e in Seen(t, things).entries && KeyOf(e) in KeysOf(things)
  {
    hide Inv, Real, Extends, Keys, KeysOf, Sweep, Unseen, SeeAll, NewFrom;
    SeenIsMarked(t, things);
    var s := SeeAll(t.(entries := Unseen(t.entries)), things);
    SweepKeeps(s, |s.entries|);
  }

  /** Every promise of the table survives a refresh. */
  lemma RefreshKeeps(t: Table, things: seq<Thing>, clock: nat -> nat)
    requires Inv(t) && Real(things)
    ensures Inv(Refresh(t, things, clock))
    ensures Keys(Refresh(t, things, clock).entries) == Keys(Listed(t, things).entries)
  {
    hide Inv, Real, Listed, Keys, JudgeAll;
    ListedIs(t, things);
    JudgeKeeps(Listed(t, things), clock);
  }

  lemma JudgeKeeps(t: Table, clock: nat -> nat)
    requires Inv(t)
    ensures Inv(t.(entries := JudgeAll(t.entries, clock))) && Keys(JudgeAll(t.entries, clock)) == Keys(t.entries)
  {
    hide Inv, Keys;
    BuiltinPids(t);
    JudgeSame(t.entries, clock);
    hide JudgeAll;
    SameKeeps(t, JudgeAll(t.entries, clock));
    SameKeys(t.entries, JudgeAll(t.entries, clock));
  }

  lemma JudgeSame(es: seq<Entry>, clock: nat -> nat)
    ensures Extends(es, JudgeAll(es, clock))
    ensures forall i {:trigger JudgeAll(es, clock)[i]} :: 0 <= i < |es| ==>
              JudgeAll(es, clock)[i].pid == es[i].pid && KeyOf(JudgeAll(es, clock)[i]) == KeyOf(es[i])
  {
    hide Late;
    forall i: nat | i < |es| ensures JudgeAll(es, clock)[i] == Judge(es[i], clock(i)) {
    }
    forall i: nat | i < |es| ensures Same(es[i], JudgeAll(es, clock)[i]) {
      assert JudgeAll(es, clock)[i] == Judge(es[i], clock(i));
    }
  }

  lemma BuiltinPids(t: Table)
    requires Inv(t)
    ensures forall i :: 0 <= i < |t.entries| && t.entries[i].kind == Builtin ==> t.entries[i].pid == 0
  {
    forall i | 0 <= i < |t.entries| && t.entries[i].kind == Builtin ensures t.entries[i].pid == 0 {
      assert t.entries[i] in t.entries;
    }
  }

  /** After a refresh nothing is listed that is not running. */
  lemma OnlyRunning(t: Table, things: seq<Thing>, clock: nat -> nat)
    requires Inv(t) && Real(things)
    ensures Keys(Refresh(t, things, clock).entries) <= KeysOf(things)
  {
    hide Inv, Real, Listed, KeysOf, Refresh;
    RefreshKeeps(t, things, clock);
    ListedIs(t, things);
  }

  /** One refresh lists exactly what is running if and only if the old entries left room for it. */
  lemma RefreshComplete(t: Table, things: seq<Thing>, clock: nat -> nat)
    requires Inv(t) && Real(things)
    ensures Keys(Refresh(t, things, clock).entries) == KeysOf(things)
       <==> |Keys(t.entries) + KeysOf(things)| <= APPS_MAX
  {
    hide Inv, Real, Listed, KeysOf, Refresh, Seen, SeenIs, NewFrom, Extends;
    RefreshKeeps(t, things, clock);
    ListedIs(t, things);
    SeenIsMarked(t, things);
    var all, kept := Keys(Seen(t, things).entries), Keys(Listed(t, things).entries);
    assert kept == all * KeysOf(things);
  }

  /** Two refreshes are always enough for anything that fits, whatever had filled the table. */
  lemma TwoRefreshes(t: Table, before: seq<Thing>, things: seq<Thing>, clock: nat -> nat, again: nat -> nat)
    requires Inv(t) && Real(things) && Real(before) && KeysOf(before) == KeysOf(things)
    ensures Keys(Refresh(Refresh(t, before, clock), things, again).entries) == KeysOf(things)
       <==> |KeysOf(things)| <= APPS_MAX
  {
    hide Inv, Real, Listed, KeysOf, Refresh, Keys;
    var once := Refresh(t, before, clock);
    RefreshKeeps(t, before, clock);
    OnlyRunning(t, before, clock);
    assert Keys(once.entries) + KeysOf(things) == KeysOf(things);
    RefreshComplete(once, things, again);
  }

  /** Whatever is still running keeps its id and its wait. */
  lemma Survives(t: Table, things: seq<Thing>, clock: nat -> nat, e: Entry)
    requires Inv(t) && Real(things) && e in t.entries && KeyOf(e) in KeysOf(things)
    ensures exists f :: f in Refresh(t, things, clock).entries && Same(e, f)
  {
    hide Inv, Real, KeysOf, Seen, SeenIs, NewFrom, Keys, Listed, JudgeAll;
    ListedIs(t, things);
    SeenIsMarked(t, things);
    var l := Listed(t, things);
    var i :| 0 <= i < |t.entries| && t.entries[i] == e;
    var s := Seen(t, things).entries[i];
    assert Same(e, s) && s in l.entries;
    var j :| 0 <= j < |l.entries| && l.entries[j] == s;
    JudgeSame(l.entries, clock);
    var f := JudgeAll(l.entries, clock)[j];
    SameTwice(e, s, f);
    assert f in JudgeAll(l.entries, clock);
  }

  /** Whatever is listed afterwards was listed before, as itself, or is new and has never been asked to close. */
  lemma Origin(t: Table, things: seq<Thing>, clock: nat -> nat, f: Entry)
    requires Inv(t) && Real(things) && f in Refresh(t, things, clock).entries
    ensures (exists e :: e in t.entries && Same(e, f))
            || (f.closeAt == 0 && !f.reported && KeyOf(f) !in Keys(t.entries))
  {
    hide Inv, Real, KeysOf, Seen, Listed, Keys, JudgeAll;
    ListedIs(t, things);
    SeenIsMarked(t, things);
    InvShaped(Seen(t, things));
    var j := Judged(Listed(t, things).entries, clock, f);
    var e := Listed(t, things).entries[j];
    hide SeenIs;
    SeenOrigin(t, Seen(t, things).entries, e);
    if (exists o :: o in t.entries && Same(o, e)) {
      var o :| o in t.entries && Same(o, e);
      SameTwice(o, e, f);
    }
  }

  lemma Judged(es: seq<Entry>, clock: nat -> nat, f: Entry) returns (j: nat)
    requires f in JudgeAll(es, clock)
    ensures j < |es| && f == Judge(es[j], clock(j)) && Same(es[j], f) && es[j] in es
    ensures f.reported ==> f.closeAt != 0
  {
    j :| j < |es| && JudgeAll(es, clock)[j] == f;
  }

  lemma SeenOrigin(t: Table, s: seq<Entry>, e: Entry)
    requires e in s && Extends(t.entries, s) && KeysApart(s) && NewFrom(s, |t.entries|)
    ensures (exists o :: o in t.entries && Same(o, e)) || (e.closeAt == 0 && KeyOf(e) !in Keys(t.entries))
  {
    hide Keys;
    var i :| 0 <= i < |s| && s[i] == e;
    if i < |t.entries| {
      assert t.entries[i] in t.entries && Same(t.entries[i], e);
    } else {
      NotListedBefore(t, s, i);
    }
  }

  lemma NotListedBefore(t: Table, s: seq<Entry>, i: nat)
    requires |t.entries| <= i < |s| && Extends(t.entries, s) && KeysApart(s)
    ensures KeyOf(s[i]) !in Keys(t.entries)
  {
    forall e | e in t.entries ensures KeyOf(e) != KeyOf(s[i]) {
      var j :| 0 <= j < |t.entries| && t.entries[j] == e;
      assert KeyOf(s[j]) != KeyOf(s[i]);
    }
  }

  // --- Names ---

  /** An entry shows what runs: its title, or as much of it as fits, and a client's process. */
  ghost predicate Shows(e: Entry, thing: Thing)
  {
    && e.name == (if |thing.title| <= 95 then thing.title else thing.title[..95])
    && (thing.key.Toplevel? ==> e.pid == thing.pid)
  }

  /** Every entry of this key shows this thing. */
  ghost predicate Shown(es: seq<Entry>, thing: Thing)
  {
    forall e :: e in es && KeyOf(e) == thing.key ==> Shows(e, thing)
  }

  lemma SeeShows(t: Table, thing: Thing, other: Thing)
    requires Inv(t) && thing.key.p != 0 && (other == thing || (other.key != thing.key && Shown(t.entries, other)))
    requires other.key in Keys(t.entries) || other == thing
    ensures Shown(See(t, thing).entries, other)
  {
    hide Keys, Add, Find;
    var more := Room(t, thing);
    RoomIs(t, thing);
    InvShaped(more);
    FindIsKey(more.entries, thing.key);
    KeysIndexed(more.entries);
    var r := See(t, thing).entries;
    forall j | 0 <= j < |r| && KeyOf(r[j]) == other.key ensures Shows(r[j], other) {
      if other != thing {
        assert r[j] == more.entries[j];
        if j < |t.entries| { assert t.entries[j] in t.entries; }
      }
    }
  }

  /** Listing things of other keys leaves what is shown alone. */
  lemma {:induction false} SeeAllShows(t: Table, things: seq<Thing>, thing: Thing)
    requires Inv(t) && Real(things) && Shown(t.entries, thing) && thing.key in Keys(t.entries)
    requires forall i :: 0 <= i < |things| ==> things[i].key != thing.key
    ensures Shown(SeeAll(t, things).entries, thing)
    decreases |things|
  {
    hide Inv, See, Real, Shown, Keys;
    if things != [] {
      FirstThing(things);
      SeeKeeps(t, things[0]);
      SeeShows(t, things[0], thing);
      SeeAllShows(See(t, things[0]), things[1..], thing);
    }
  }

  /** Of the things of one key, the last to be listed is shown. */
  lemma {:induction false} LastShown(t: Table, things: seq<Thing>, k: nat)
    requires Inv(t) && Real(things) && k < |things| && forall i :: k < i < |things| ==> things[i].key != things[k].key
    ensures Shown(SeeAll(t, things).entries, things[k])
    decreases |things|
  {
    hide Inv, See, Real, Shown, Keys;
    FirstThing(things);
    var next := See(t, things[0]);
    SeeKeeps(t, things[0]);
    if k > 0 {
      LastShown(next, things[1..], k - 1);
    } else {
      SeeShows(t, things[0], things[0]);
      if things[0].key in Keys(next.entries) {
        SeeAllShows(next, things[1..], things[0]);
      } else {
        NeverListed(next, things[1..], things[0]);
      }
    }
  }

  /** What did not get listed is not listed later by things of other keys. */
  lemma NeverListed(t: Table, things: seq<Thing>, thing: Thing)
    requires Inv(t) && Real(things) && thing.key !in Keys(t.entries)
    requires forall i :: 0 <= i < |things| ==> things[i].key != thing.key
    ensures Shown(SeeAll(t, things).entries, thing)
  {
    hide Inv, Real;
    SeeAllKeeps(t, things);
    assert thing.key !in KeysOf(things);
    forall e | e in SeeAll(t, things).entries ensures KeyOf(e) != thing.key {
      assert KeyOf(e) in Keys(SeeAll(t, things).entries);
    }
  }

  /** After a refresh every entry shows the title and the process of what runs. */
  lemma RefreshShows(t: Table, things: seq<Thing>, clock: nat -> nat, k: nat)
    requires Inv(t) && Real(things) && k < |things| && forall i :: k < i < |things| ==> things[i].key != things[k].key
    ensures Shown(Refresh(t, things, clock).entries, things[k])
  {
    hide Inv, Real, Listed, Seen, Keys, KeysOf, SeeAll;
    UnseenKeeps(t);
    LastShown(t.(entries := Unseen(t.entries)), things, k);
    ListedIs(t, things);
    var l := Listed(t, things).entries;
    assert Seen(t, things) == SeeAll(t.(entries := Unseen(t.entries)), things) by { SeenIsAll(t, things); }
    ShownJudged(l, clock, things[k]);
  }

  lemma ShownJudged(es: seq<Entry>, clock: nat -> nat, thing: Thing)
    requires Shown(es, thing)
    ensures Shown(JudgeAll(es, clock), thing)
  {
    hide Late;
    forall f | f in JudgeAll(es, clock) && KeyOf(f) == thing.key ensures Shows(f, thing) {
      var j :| 0 <= j < |es| && JudgeAll(es, clock)[j] == f;
      assert f == Judge(es[j], clock(j)) && es[j] in es;
    }
  }

  lemma SeenIsAll(t: Table, things: seq<Thing>)
    ensures Seen(t, things) == SeeAll(t.(entries := Unseen(t.entries)), things)
  {
  }

  /** Any number of refreshes, one after another. */
  function RefreshMany(t: Table, looks: seq<(seq<Thing>, nat -> nat)>): Table
    decreases |looks|
  {
    if looks == [] then t
    else
      var rest := looks[..|looks| - 1];
      var last := looks[|looks| - 1];
      Refresh(RefreshMany(t, rest), last.0, last.1)
  }

  /** However many refreshes find it running, an application keeps its id and its wait. */
  lemma {:induction false} SurvivesMany(t: Table, looks: seq<(seq<Thing>, nat -> nat)>, e: Entry)
    requires Inv(t) && e in t.entries
    requires forall i :: 0 <= i < |looks| ==> Real(looks[i].0) && KeyOf(e) in KeysOf(looks[i].0)
    ensures Inv(RefreshMany(t, looks)) && exists f :: f in RefreshMany(t, looks).entries && Same(e, f)
    decreases |looks|
  {
    hide Inv, Real, KeysOf, Refresh, Keys;
    if looks == [] {
      assert Same(e, e);
    } else {
      var rest, last := looks[..|looks| - 1], looks[|looks| - 1];
      SurvivesMany(t, rest, e);
      var d :| d in RefreshMany(t, rest).entries && Same(e, d);
      RefreshKeeps(RefreshMany(t, rest), last.0, last.1);
      Survives(RefreshMany(t, rest), last.0, last.1, d);
      var f :| f in RefreshMany(t, looks).entries && Same(d, f);
      SameTwice(e, d, f);
    }
  }

  lemma SameTwice(a: Entry, b: Entry, c: Entry)
    requires Same(a, b) && Same(b, c)
    ensures Same(a, c)
  {
  }
}

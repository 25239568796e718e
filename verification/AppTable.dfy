/**
 The running application table as a value: what each operation makes of it, what they
 all keep, and when a refresh lists exactly what is running.
 */
module AppTable {
  import opened Bytes

  const APPS_MAX: nat := 64
  const UNRESPONSIVE_MS: nat := 5000
  const NAME_BYTES: nat := 96
  const WRAP32: nat := 0x1_0000_0000
  const WRAP64: nat := 0x1_0000_0000_0000_0000

  datatype Kind = Builtin | Client

  /** What an entry is found by: a window pointer or a toplevel pointer, zero being NULL. */
  datatype Key = Window(p: nat) | Toplevel(p: nat)

  datatype Entry = Entry(
    id: nat, kind: Kind, window: nat, toplevel: nat, name: string, pid: int,
    closeAt: nat, reported: bool, present: bool)

  /** The table, the next id, and how many entries there have ever been. */
  datatype Table = Table(entries: seq<Entry>, next: nat, made: nat)

  /** Something that is running: an open window of the shell's, or a toplevel. */
  datatype Thing = Thing(key: Key, title: string, pid: int)

  const EMPTY: Table := Table([], 1, 0)

  // --- Finding ---

  predicate Match(e: Entry, k: Key)
  {
    match k case Window(p) => e.window == p case Toplevel(p) => e.toplevel == p
  }

  /** The first entry that matches. */
  function Find(es: seq<Entry>, k: Key): (r: Option<nat>)
    ensures r.Some? ==> r.value < |es| && Match(es[r.value], k) && forall i :: 0 <= i < r.value ==> !Match(es[i], k)
    ensures r.None? <==> forall i :: 0 <= i < |es| ==> !Match(es[i], k)
  {
    FindFrom(es, k, 0)
  }

  function FindFrom(es: seq<Entry>, k: Key, from: nat): (r: Option<nat>)
    requires from <= |es|
    ensures r.Some? ==> from <= r.value < |es| && Match(es[r.value], k)
    ensures r.Some? ==> forall i :: from <= i < r.value ==> !Match(es[i], k)
    ensures r.None? <==> forall i :: from <= i < |es| ==> !Match(es[i], k)
    decreases |es| - from
  {
    if from == |es| then None else if Match(es[from], k) then Some(from) else FindFrom(es, k, from + 1)
  }

  function FindId(es: seq<Entry>, id: nat, from: nat): (r: Option<nat>)
    requires from <= |es|
    ensures r.Some? ==> from <= r.value < |es| && es[r.value].id == id
    ensures r.Some? ==> forall i :: from <= i < r.value ==> es[i].id != id
    ensures r.None? <==> forall i :: from <= i < |es| ==> es[i].id != id
    decreases |es| - from
  {
    if from == |es| then None else if es[from].id == id then Some(from) else FindId(es, id, from + 1)
  }

  // --- The operations ---

  /** A title as it fits the fixed buffer. */
  function Clip(title: string): string
  {
    if |title| < NAME_BYTES then title else title[..NAME_BYTES - 1]
  }

  function Fresh(id: nat, t: Thing): Entry
  {
    match t.key
    case Window(p) => Entry(id, Builtin, p, 0, Clip(t.title), 0, 0, false, false)
    case Toplevel(p) => Entry(id, Client, 0, p, Clip(t.title), t.pid, 0, false, false)
  }

  /** Both registrations: nothing for NULL, for what is listed already, or when the table is full. */
  function Add(t: Table, thing: Thing): Table
  {
    if thing.key.p == 0 || Find(t.entries, thing.key).Some? || |t.entries| >= APPS_MAX then t
    else Table(t.entries + [Fresh(t.next, thing)], (t.next + 1) % WRAP32, t.made + 1)
  }

  /** The last entry fills the gap. */
  function RemoveAt(es: seq<Entry>, i: nat): (r: seq<Entry>)
    requires i < |es|
    ensures |r| == |es| - 1
  {
    es[i := es[|es| - 1]][..|es| - 1]
  }

  function RemoveClient(t: Table, p: nat): Table
  {
    match Find(t.entries, Toplevel(p))
    case Some(i) => t.(entries := RemoveAt(t.entries, i))
    case None => t
  }

  function Touch(e: Entry, thing: Thing): Entry
  {
    var named := e.(present := true, name := Clip(thing.title));
    if thing.key.Toplevel? then named.(pid := thing.pid) else named
  }

  /** Lists one running thing, if it can be, and marks it seen. */
  function See(t: Table, thing: Thing): Table
  {
    var more := if Find(t.entries, thing.key).None? then Add(t, thing) else t;
    match Find(more.entries, thing.key)
    case Some(i) => more.(entries := more.entries[i := Touch(more.entries[i], thing)])
    case None => more
  }

  function SeeAll(t: Table, things: seq<Thing>): Table
    decreases |things|
  {
    if things == [] then t else SeeAll(See(t, things[0]), things[1..])
  }

  function Unseen(es: seq<Entry>): (r: seq<Entry>)
    ensures |r| == |es|
  {
    seq(|es|, i requires 0 <= i < |es| => es[i].(present := false))
  }

  /** Drops what was not seen among the first n, from the back. */
  function Sweep(es: seq<Entry>, n: nat): seq<Entry>
    requires n <= |es|
    decreases n
  {
    if n == 0 then es
    else if es[n - 1].present then Sweep(es, n - 1)
    else Sweep(RemoveAt(es, n - 1), n - 1)
  }

  /** Asked to close, and longer ago than the wait; the subtraction is of unsigned 64-bit numbers. */
  predicate Late(e: Entry, now: nat)
  {
    e.closeAt != 0 && (now - e.closeAt) % WRAP64 > UNRESPONSIVE_MS
  }

  function Judge(e: Entry, now: nat): Entry
  {
    e.(reported := Late(e, now))
  }

  /** The entries after the last loop of a refresh; `clock` is what each look at the time gave. */
  function JudgeAll(es: seq<Entry>, clock: nat -> nat): (r: seq<Entry>)
    ensures |r| == |es|
  {
    seq(|es|, i requires 0 <= i < |es| => Judge(es[i], clock(i)))
  }

  /** The ids J-002 is raised for, in the order of the table. */
  function Raised(es: seq<Entry>, clock: nat -> nat, n: nat): seq<nat>
    requires n <= |es|
    decreases n
  {
    if n == 0 then []
    else Raised(es, clock, n - 1) +
         if Late(es[n - 1], clock(n - 1)) && !es[n - 1].reported then [es[n - 1].id] else []
  }

  /** The table after everything but the last loop. */
  function Listed(t: Table, things: seq<Thing>): Table
  {
    var seen := SeeAll(t.(entries := Unseen(t.entries)), things);
    seen.(entries := Sweep(seen.entries, |seen.entries|))
  }

  function Refresh(t: Table, things: seq<Thing>, clock: nat -> nat): Table
  {
    var listed := Listed(t, things);
    listed.(entries := JudgeAll(listed.entries, clock))
  }

  function Ask(e: Entry, now: nat): Entry
  {
    if e.kind == Client && e.closeAt == 0 then e.(closeAt := now) else e
  }

  /** Asks a client to close and starts its wait; a built-in only has its window hidden. */
  function End(t: Table, id: nat, now: nat): Table
  {
    match FindId(t.entries, id, 0)
    case Some(i) => t.(entries := t.entries[i := Ask(t.entries[i], now)])
    case None => t
  }

  predicate CanForce(t: Table, id: nat)
  {
    match FindId(t.entries, id, 0)
    case Some(i) => t.entries[i].kind == Client && t.entries[i].pid > 0 && t.entries[i].closeAt != 0
    case None => false
  }

  /** The process force_end signals, if any. */
  function Signalled(t: Table, id: nat): Option<int>
  {
    match FindId(t.entries, id, 0)
    case Some(i) => if t.entries[i].kind == Client && t.entries[i].pid > 0 then Some(t.entries[i].pid) else None
    case None => None
  }

  datatype Status = Running | Minimized | NotResponding

  function Describe(e: Entry, now: nat, minimized: bool): Status
  {
    if Late(e, now) then NotResponding else if minimized then Minimized else Running
  }

  // --- What every operation keeps ---

  function KeyOf(e: Entry): Key
  {
    if e.kind == Builtin then Window(e.window) else Toplevel(e.toplevel)
  }

  /** A built-in has a window, no process, and has never been asked to close. */
  ghost predicate Shaped(e: Entry)
  {
    match e.kind
    case Builtin => e.window != 0 && e.toplevel == 0 && e.pid == 0 && e.closeAt == 0
    case Client => e.window == 0 && e.toplevel != 0
  }

  ghost predicate KeysApart(es: seq<Entry>)
  {
    forall i, j :: 0 <= i < j < |es| ==> KeyOf(es[i]) != KeyOf(es[j])
  }

  ghost predicate IdsApart(es: seq<Entry>)
  {
    forall i, j :: 0 <= i < j < |es| ==> es[i].id != es[j].id
  }

  /** Which entry ever made, counting from zero, was given this id. */
  function Serial(id: nat): int { if id == 0 then WRAP32 - 1 else id - 1 }

  /** Ids are handed out in turn, and none comes round again before 2^32 entries have been made. */
  ghost predicate Numbered(t: Table)
  {
    && t.next == (t.made + 1) % WRAP32
    && (t.made <= WRAP32 ==> IdsApart(t.entries))
    && (t.made <= WRAP32 ==> forall e :: e in t.entries ==> e.id < WRAP32 && Serial(e.id) < t.made)
  }

  ghost predicate Inv(t: Table)
  {
    && |t.entries| <= APPS_MAX
    && (forall e :: e in t.entries ==> Shaped(e))
    && KeysApart(t.entries)
    && Numbered(t)
  }

  lemma MatchIsKey(e: Entry, k: Key)
    requires Shaped(e) && k.p != 0
    ensures Match(e, k) <==> KeyOf(e) == k
  {
  }

  /** Two entries that are one application: same key, same id, same wait. */
  ghost predicate Same(a: Entry, b: Entry)
  {
    a.id == b.id && a.kind == b.kind && a.window == b.window && a.toplevel == b.toplevel && a.closeAt == b.closeAt
  }

  /** The same applications in the same places, perhaps followed by new ones. */
  ghost predicate Extends(es: seq<Entry>, more: seq<Entry>)
  {
    |es| <= |more| && forall i :: 0 <= i < |es| ==> Same(es[i], more[i])
  }

  /** Same in the same places keeps everything the table promises about its entries. */
  lemma SameKeeps(t: Table, es: seq<Entry>)
    requires Inv(t) && |es| == |t.entries| && Extends(t.entries, es)
    requires forall i :: 0 <= i < |es| && es[i].kind == Builtin ==> es[i].pid == 0
    ensures Inv(t.(entries := es))
  {
    forall e | e in es ensures Shaped(e) && (t.made <= WRAP32 ==> e.id < WRAP32 && Serial(e.id) < t.made) {
      var i :| 0 <= i < |es| && es[i] == e;
      assert Shaped(t.entries[i]) && t.entries[i] in t.entries;
    }
  }

  lemma AddKeeps(t: Table, thing: Thing)
    requires Inv(t)
    ensures Inv(Add(t, thing))
  {
    var r := Add(t, thing);
    if r != t {
      var e := Fresh(t.next, thing);
      assert Shaped(e) && KeyOf(e) == thing.key;
      forall i | 0 <= i < |t.entries| ensures KeyOf(t.entries[i]) != thing.key {
        MatchIsKey(t.entries[i], thing.key);
      }
      AddNumbered(t, e);
    }
  }

  lemma AddNumbered(t: Table, e: Entry)
    requires Numbered(t) && e.id == t.next
    ensures Numbered(Table(t.entries + [e], (t.next + 1) % WRAP32, t.made + 1))
  {
    var r := Table(t.entries + [e], (t.next + 1) % WRAP32, t.made + 1);
    NextInTurn(t.made);
    if r.made <= WRAP32 {
      assert Serial(e.id) == t.made;
      forall i | 0 <= i < |t.entries| ensures t.entries[i].id != e.id {
        assert Serial(t.entries[i].id) < t.made;
      }
    }
  }

  lemma NextInTurn(made: nat)
    ensures ((made + 1) % WRAP32 + 1) % WRAP32 == (made + 1 + 1) % WRAP32
    ensures made < WRAP32 ==> Serial((made + 1) % WRAP32) == made
  {
  }

  /** An id comes round again exactly when its last holder is still listed. */
  lemma IdsApartExactly(t: Table, thing: Thing)
    requires IdsApart(t.entries) && Add(t, thing) != t
    ensures IdsApart(Add(t, thing).entries) <==> forall e :: e in t.entries ==> e.id != t.next
  {
    var es := Add(t, thing).entries;
    assert es == t.entries + [Fresh(t.next, thing)];
    if IdsApart(es) {
      forall e | e in t.entries ensures e.id != t.next {
        var i :| 0 <= i < |t.entries| && t.entries[i] == e;
        assert es[i] == e && es[|t.entries|].id == t.next;
      }
    }
  }

  // --- Removal ---

  /** Where the entry now at j was before the swap. */
  function Whence(n: nat, i: nat, j: nat): nat
    requires i < n
  {
    if j == i then n - 1 else j
  }

  lemma RemoveAtIs(es: seq<Entry>, i: nat)
    requires i < |es|
    ensures forall j {:trigger RemoveAt(es, i)[j]} :: 0 <= j < |es| - 1 ==> RemoveAt(es, i)[j] == es[Whence(|es|, i, j)]
  {
  }

  lemma RemoveKeeps(t: Table, i: nat)
    requires Inv(t) && i < |t.entries|
    ensures Inv(t.(entries := RemoveAt(t.entries, i)))
    ensures forall e :: e in RemoveAt(t.entries, i) <==> e in t.entries && e != t.entries[i]
  {
    hide RemoveAt;
    var es := t.entries;
    var r := RemoveAt(es, i);
    RemoveAtIs(es, i);
    RemoveMembers(es, i);
    RemoveApart(t, i);
  }

  lemma RemoveApart(t: Table, i: nat)
    requires Inv(t) && i < |t.entries|
    ensures KeysApart(RemoveAt(t.entries, i))
    ensures t.made <= WRAP32 ==> IdsApart(RemoveAt(t.entries, i))
  {
    hide RemoveAt;
    var es := t.entries;
    var r := RemoveAt(es, i);
    RemoveAtIs(es, i);
    forall j, k | 0 <= j < k < |r| ensures KeyOf(r[j]) != KeyOf(r[k]) && (t.made <= WRAP32 ==> r[j].id != r[k].id) {
      var a, b := Whence(|es|, i, j), Whence(|es|, i, k);
      assert r[j] == es[a] && r[k] == es[b] && a != b;
    }
  }

  lemma RemoveMembers(es: seq<Entry>, i: nat)
    requires i < |es| && KeysApart(es)
    ensures forall e :: e in RemoveAt(es, i) <==> e in es && e != es[i]
  {
    hide RemoveAt;
    var r := RemoveAt(es, i);
    RemoveAtIs(es, i);
    forall e | e in r ensures e in es && e != es[i] {
      var j :| 0 <= j < |r| && r[j] == e;
      var a := Whence(|es|, i, j);
      assert KeyOf(es[a]) != KeyOf(es[i]);
    }
    forall e | e in es && e != es[i] ensures e in r {
      var a :| 0 <= a < |es| && es[a] == e;
      var j := if a == |es| - 1 then i else a;
      assert r[j] == e;
    }
  }

  /** Removing a client removes that client and nothing else. */
  lemma RemoveClientExactly(t: Table, p: nat)
    requires Inv(t) && p != 0
    ensures Inv(RemoveClient(t, p))
    ensures forall e :: e in RemoveClient(t, p).entries <==> e in t.entries && KeyOf(e) != Toplevel(p)
  {
    hide RemoveAt;
    forall i | 0 <= i < |t.entries| ensures Match(t.entries[i], Toplevel(p)) <==> KeyOf(t.entries[i]) == Toplevel(p) {
      MatchIsKey(t.entries[i], Toplevel(p));
    }
    match Find(t.entries, Toplevel(p)) {
      case None =>
      case Some(i) =>
        RemoveKeeps(t, i);
        forall e | e in t.entries && e != t.entries[i] ensures KeyOf(e) != Toplevel(p) {
          var j :| 0 <= j < |t.entries| && t.entries[j] == e;
          assert KeyOf(t.entries[j]) != KeyOf(t.entries[i]);
        }
    }
  }

  /** Nothing guards against NULL, and to the search every built-in has that toplevel: the first one goes. */
  lemma RemoveNullRemovesBuiltin(t: Table)
    requires Inv(t)
    ensures (exists e :: e in t.entries && e.kind == Builtin) <==> RemoveClient(t, 0) != t
    ensures RemoveClient(t, 0) != t ==>
              exists e :: e in t.entries && e.kind == Builtin && e !in RemoveClient(t, 0).entries
  {
    hide RemoveAt;
    match Find(t.entries, Toplevel(0)) {
      case None =>
      case Some(i) =>
        RemoveKeeps(t, i);
        assert Shaped(t.entries[i]) && t.entries[i] in t.entries;
        assert |RemoveClient(t, 0).entries| < |t.entries|;
    }
    forall e | e in t.entries && e.kind == Builtin
      ensures exists i :: 0 <= i < |t.entries| && Match(t.entries[i], Toplevel(0))
    {
      var i :| 0 <= i < |t.entries| && t.entries[i] == e;
      assert Match(t.entries[i], Toplevel(0));
    }
  }
}

/** What the report on an image says: its numbers, its names, and what becomes of the name asked for. */
module ReconReport {
  import opened Bytes
  import opened Arith
  import opened ReconImage
  import opened ReconTree
  import opened ReconVerdict
  import opened ReconCheck
  import opened ReconDamage

  // --- The name asked for ---

  /** The places in a listing of the entries with that name. */
  ghost function Named(es: seq<Entry>, want: string, key: seq<Byte> -> string): set<nat>
  {
    set i: nat | i < |es| && key(es[i].name) == want
  }

  /** Those from place k on. */
  ghost function NamedFrom(es: seq<Entry>, k: nat, want: string, key: seq<Byte> -> string): set<nat>
  {
    set i: nat | k <= i < |es| && key(es[i].name) == want
  }

  lemma NamedStep(es: seq<Entry>, k: nat, want: string, key: seq<Byte> -> string)
    requires k < |es|
    ensures NamedFrom(es, k, want, key)
         == (if key(es[k].name) == want then {k} else {}) + NamedFrom(es, k + 1, want, key)
    ensures k !in NamedFrom(es, k + 1, want, key)
  {
  }

  /** As many matches as entries of the name, and each entry's child a match. */
  lemma {:induction false} MatchesFrom(es: seq<Entry>, k: nat, want: string, key: seq<Byte> -> string)
    requires k <= |es|
    ensures |Matches(es[k..], want, key)| == |NamedFrom(es, k, want, key)|
    ensures forall i {:trigger es[i]} :: i in NamedFrom(es, k, want, key) ==>
              es[i].child in Matches(es[k..], want, key)
    decreases |es| - k
  {
    if k == |es| {
      NoneLeft(es, want, key);
    } else {
      MatchesFrom(es, k + 1, want, key);
      NamedStep(es, k, want, key);
      assert es[k..][0] == es[k] && es[k..][1..] == es[k + 1..];
      hide NamedFrom;
    }
  }

  lemma NoneLeft(es: seq<Entry>, want: string, key: seq<Byte> -> string)
    ensures NamedFrom(es, |es|, want, key) == {} && es[|es|..] == []
  {
  }

  lemma MatchesNamed(es: seq<Entry>, want: string, key: seq<Byte> -> string)
    ensures |Matches(es, want, key)| == |Named(es, want, key)|
    ensures forall i {:trigger es[i]} :: i in Named(es, want, key) ==> es[i].child in Matches(es, want, key)
  {
    MatchesFrom(es, 0, want, key);
    assert es[0..] == es && NamedFrom(es, 0, want, key) == Named(es, want, key);
  }

  /** What is said of a file: where it is, its round if it is a whole version, and whether it is in order. */
  ghost predicate Reported(sum: Sum, child: nat, contents: Result<seq<Byte>>, f: Found)
  {
    && f.target == Some(child)
    && (f.problems == [] <==> contents.Ok? && (LooksLikePayload(contents.value) ==> WholePayload(sum, contents.value)))
    && (forall r :: f.round == Some(r) <==>
            contents.Ok? && LooksLikePayload(contents.value) && WholePayload(sum, contents.value)
            && r == U32(contents.value, 4))
  }

  lemma InspectReports(sum: Sum, child: nat, contents: Result<seq<Byte>>)
    ensures Reported(sum, child, contents, Inspect(sum, child, contents))
  {
    hide LE;
  }

  /** A missing name is said to be missing, one there twice or more is counted, and one there once is looked into. */
  lemma WantedExactly(v: Volume, es: seq<Entry>, want: string, key: seq<Byte> -> string)
    requires Sized(v)
    ensures var f, n := Wanted(v, es, Some(want), key), |Named(es, want, key)|;
            && (n == 0 ==> f == Found(None, None, [NoSuchName]))
            && (n > 1 ==> f == Found(None, None, [ManyNames(n)]))
            && (forall i :: Named(es, want, key) == {i} ==>
                  i < |es| && Reported(v.sum, es[i].child, ContentsAt(v, es[i].child), f))
  {
    hide Inspect, ContentsAt, Reported, Named;
    MatchesNamed(es, want, key);
    forall i | Named(es, want, key) == {i}
      ensures i < |es| && Reported(v.sum, es[i].child, ContentsAt(v, es[i].child), Wanted(v, es, Some(want), key))
    {
      OnlyOne(es, want, key, i);
      InspectReports(v.sum, es[i].child, ContentsAt(v, es[i].child));
    }
  }

  lemma OnlyOne(es: seq<Entry>, want: string, key: seq<Byte> -> string, i: nat)
    requires Named(es, want, key) == {i}
    ensures i < |es| && Matches(es, want, key) == [es[i].child]
  {
    MatchesNamed(es, want, key);
    assert i in Named(es, want, key);
  }

  /** The file is readable, and whole if it looks like the crash workload's. */
  ghost predicate InOrder(v: Volume, child: nat)
    requires Sized(v)
  {
    var c := ContentsAt(v, child);
    c.Ok? && (LooksLikePayload(c.value) ==> WholePayload(v.sum, c.value))
  }

  lemma WantedInOrder(v: Volume, es: seq<Entry>, want: string, key: seq<Byte> -> string)
    requires Sized(v)
    ensures Wanted(v, es, Some(want), key).problems == [] <==>
            exists i :: Named(es, want, key) == {i} && i < |es| && InOrder(v, es[i].child)
  {
    WantedExactly(v, es, want, key);
    hide Wanted, ContentsAt, WholePayload, LooksLikePayload;
    var here := Named(es, want, key);
    if |here| == 1 {
      var i :| i in here;
      Alone(here, i);
    }
    hide Named;
    forall i | here == {i} ensures |here| == 1 { }
  }

  lemma Alone(s: set<nat>, i: nat)
    requires |s| == 1 && i in s
    ensures s == {i}
  {
    assert |s - {i}| == 0;
  }

  /**
   Asking for a name fails an image that would pass without, exactly when the root directory does not
   hold that name just once, or the file of that name is not in order.
   */
  lemma AskingExactly(sum: Sum, data: seq<Byte>, want: string, key: seq<Byte> -> string)
    ensures Passes(sum, data, Some(want), key) <==>
            && Passes(sum, data, None, key)
            && var v := VolumeOf(sum, data, Load(sum, data).value);
               var es := RootEntries(v).value;
               exists i :: Named(es, want, key) == {i} && i < |es| && InOrder(v, es[i].child)
  {
    PassesParts(sum, data, Some(want), key);
    PassesParts(sum, data, None, key);
    hide Passes, Load, Owners, RootEntries, Accepted, Named, InOrder, Wanted;
    if Load(sum, data).Ok? {
      var v := VolumeOf(sum, data, Load(sum, data).value);
      if RootEntries(v).Ok? {
        WantedInOrder(v, RootEntries(v).value, want, key);
        NothingAsked(v, key);
      }
    }
  }

  lemma NothingAsked(v: Volume, key: seq<Byte> -> string)
    requires Sized(v)
    ensures FoundIn(v, None, key) == Found(None, None, [])
  {
  }

  // --- The numbers ---

  lemma SlotSays(sum: Sum, data: seq<Byte>, at: nat, s: Super)
    requires ReadSlot(sum, data, at) == Ok(Some(s))
    ensures at + BLOCK_MIN <= |data|
    ensures s.epoch == U64(data, at + 16) && s.blockSize == U32(data, at + 12)
  {
    hide LE, Plausible, ChecksumOk;
    var head := data[at..at + BLOCK_MIN];
    SliceOfSlice(data, at, at + BLOCK_MIN, 16, 24);
    SliceOfSlice(data, at, at + BLOCK_MIN, 12, 16);
  }

  /**
   The report: epoch and block size are the ones stored in the live superblock, the names are those of
   the root directory in their order, and what is said of the name asked for is what was found.
   */
  lemma ReportExactly(sum: Sum, data: seq<Byte>, want: Option<string>, key: seq<Byte> -> string)
    requires Check(sum, data, want, key).Ok?
    ensures Load(sum, data).Ok? && Load(sum, data).value.live + BLOCK_MIN <= |data|
    ensures var r, l := Check(sum, data, want, key).value, Load(sum, data).value;
            var v := VolumeOf(sum, data, l);
            && r.epoch == U64(data, l.live + 16) && r.blockSize == U32(data, l.live + 12)
            && RootEntries(v).Ok? && |r.names| == |RootEntries(v).value|
            && (forall i {:trigger r.names[i]} :: 0 <= i < |r.names| ==> r.names[i] == RootEntries(v).value[i].name)
            && var f := FoundIn(v, want, key);
               r.target == f.target && r.round == f.round
  {
    hide LE, RootEntries, FoundIn, Forward, Owners, Load;
    LoadPicksHighestEpoch(sum, data);
    SlotSays(sum, data, Load(sum, data).value.live, Load(sum, data).value.super);
  }

  /** And the inodes of an image that passes are as many as its tree has, the one tree it is. */
  lemma InodesCounted(sum: Sum, data: seq<Byte>, want: Option<string>, key: seq<Byte> -> string, tree: Tree)
    requires Passes(sum, data, want, key)
    requires var v := ViewOf(VolumeOf(sum, data, Load(sum, data).value));
             IsTree(v, tree, v.root, 0, 0)
    ensures Check(sum, data, want, key).value.inodes == Count(tree)
  {
    PassesParts(sum, data, want, key);
    var v := VolumeOf(sum, data, Load(sum, data).value);
    hide RootEntries, FoundIn, Owners, Load, Accepted, IsTree;
    var table, other := AcceptedTrees(ViewOf(v), Owners(v).value);
    VerdictOf(ViewOf(v), Owners(v).value, table, other);
    TreeUnique(ViewOf(v), tree, other, v.super.root, 0, 0);
    hide Forward;
  }

  // --- What a file claims ---

  lemma {:induction false} NonZeroCount(s: seq<nat>, x: nat)
    ensures multiset(NonZero(s))[x] == if x == 0 then 0 else multiset(s)[x]
  {
    if s != [] {
      NonZeroCount(s[1..], x);
      assert s == [s[0]] + s[1..];
      assert multiset(s) == multiset([s[0]]) + multiset(s[1..]);
    }
  }

  /** A file claims a block as often as it points to it, directly, through its indirect block, or as that block. */
  lemma FileOwnExactly(v: Volume, ino: Inode, w: nat)
    requires ino.inlineLen == 0 && w != 0
    ensures FileOwn(v, ino).Ok? <==> ino.indirect == 0 || Index(v, ino.indirect).Ok?
    ensures FileOwn(v, ino).Ok? ==>
              multiset(FileOwn(v, ino).value)[w] ==
              multiset(ino.direct)[w] + (if w == ino.indirect then 1 else 0)
              + if ino.indirect == 0 then 0 else multiset(Index(v, ino.indirect).value)[w]
    ensures FileOwn(v, ino).Ok? ==> multiset(FileOwn(v, ino).value)[0] == 0
  {
    NonZeroCount(ino.direct, w);
    NonZeroCount(ino.direct, 0);
    if ino.indirect != 0 && Index(v, ino.indirect).Ok? {
      var slots := Index(v, ino.indirect).value;
      NonZeroCount(slots, w);
      NonZeroCount(slots, 0);
      hide NonZero, Index;
      assert multiset(FileOwn(v, ino).value)
          == multiset(NonZero(ino.direct)) + (multiset([ino.indirect]) + multiset(NonZero(slots)));
    }
  }

  /** What the walk takes an inode for, and whose word it takes for its number and its parent. */
  lemma NodeSays(v: Volume, blk: nat)
    requires Sized(v) && ReadNode(v, blk).Ok?
    ensures ReadInode(v, blk).Ok?
    ensures var n, ino := ReadNode(v, blk).value, ReadInode(v, blk).value;
            && n.dossier == ino.dossier && n.parent == ino.parent
            && (n.kind.File? <==> ino.kind == 1) && (n.kind.Directory? <==> ino.kind == 2)
            && (forall code :: n.kind == Unknown(code) <==> code == ino.kind && code !in {1, 2})
            && (n.kind.Directory? ==> DirEntries(v, ino).Ok? && |n.kids| == |DirEntries(v, ino).value|)
            && (n.kind.Directory? ==> forall i :: 0 <= i < |n.kids| ==> n.kids[i] == DirEntries(v, ino).value[i].child)
            && (!n.kind.Directory? ==> n.kids == [])
  {
    hide ReadInode, DirEntries, FileOwn;
  }

  // --- The file that is torn ---

  lemma {:induction false} LastMatch(es: seq<Entry>, k: nat, want: string, key: seq<Byte> -> string, i: nat)
    requires k <= i < |es| && key(es[i].name) == want && forall j :: i < j < |es| ==> key(es[j].name) != want
    ensures var m := Matches(es[k..], want, key);
            m != [] && m[|m| - 1] == es[i].child
    decreases i - k
  {
    assert es[k..][0] == es[k] && es[k..][1..] == es[k + 1..];
    if k < i {
      LastMatch(es, k + 1, want, key, i);
    } else {
      NoneNamed(es, k + 1, want, key);
    }
  }

  lemma {:induction false} NoneNamed(es: seq<Entry>, k: nat, want: string, key: seq<Byte> -> string)
    requires k <= |es| && forall j :: k <= j < |es| ==> key(es[j].name) != want
    ensures Matches(es[k..], want, key) == []
    decreases |es| - k
  {
    if k < |es| {
      assert es[k..][0] == es[k] && es[k..][1..] == es[k + 1..];
      NoneNamed(es, k + 1, want, key);
    }
  }

  /** The torn file is the last of its name in the root directory, and without one the tearing fails. */
  lemma TornTarget(v: Volume, key: seq<Byte> -> string)
    requires Sized(v) && RootEntries(v).Ok?
    ensures var es := RootEntries(v).value;
            && (Named(es, SETTINGS, key) == {} ==> SettingsInode(v, key).Bad?)
            && (forall i :: i in Named(es, SETTINGS, key) && (forall j :: j in Named(es, SETTINGS, key) ==> j <= i) ==>
                  SettingsInode(v, key) == ReadInode(v, es[i].child))
  {
    var es := RootEntries(v).value;
    assert es[0..] == es;
    hide ReadInode, RootEntries, Matches;
    if Named(es, SETTINGS, key) == {} {
      forall j | 0 <= j < |es| ensures key(es[j].name) != SETTINGS { assert j !in Named(es, SETTINGS, key); }
      NoneNamed(es, 0, SETTINGS, key);
    }
    forall i | i in Named(es, SETTINGS, key) && (forall j :: j in Named(es, SETTINGS, key) ==> j <= i)
      ensures SettingsInode(v, key) == ReadInode(v, es[i].child)
    {
      forall j | i < j < |es| ensures key(es[j].name) != SETTINGS { assert j !in Named(es, SETTINGS, key); }
      LastMatch(es, 0, SETTINGS, key, i);
    }
  }

  /** Where the tearing aims in a file of one block or more, and where in an empty one: at its last slot. */
  lemma TornPlace(v: Volume, ino: Inode, n: nat, o: nat)
    requires Sized(v) && |ino.direct| == DIRECT && ino.inlineLen == 0 && n < DIRECT && o < v.bs
    ensures ino.size == n * v.bs + o + 1 ==> TornAt(v, ino) == Ok(ino.direct[n] * v.bs + o - 3)
    ensures ino.size == 0 ==> TornAt(v, ino) == Ok(ino.direct[11] * v.bs + v.bs - 4)
  {
    TimesIs(n, v.bs);
    TimesIs(ino.direct[n], v.bs);
    TimesIs(ino.direct[11], v.bs);
    if ino.size == n * v.bs + o + 1 { DividedOnce(ino.size - 1, n, v.bs, o); }
    hide Times, Quot, Rem;
  }
}

/**
 The `torn` control: one number changed at the end of the file called settings. On
 an ordinary file it touches one data block and nothing else, so the check refuses
 the result exactly when it had recognised the file as the crash workload's.
 */
module ReconTorn {
  import opened Bytes
  import opened Sequences
  import opened Arith
  import opened ReconImage
  import opened ReconTree
  import opened ReconVerdict
  import opened ReconCheck
  import opened ReconDamage
  import opened ReconCaught

  // --- A tree and a table are unchanged by a change outside them ---

  /** Nodes that neither are block w nor own it read the same in both volumes. */
  ghost predicate NodesAgree(v: View, v': View, w: nat)
  {
    forall b: nat :: b != w && v.node(b).Ok? && w !in v.node(b).value.own ==> v'.node(b) == v.node(b)
  }

  lemma {:induction false} TreeFrame(v: View, v': View, t: Tree, blk: nat, parent: nat, owner: nat, depth: nat, w: nat)
    requires IsTree(v, t, blk, parent, depth) && NodesAgree(v, v', w) && !Claims(TreeClaims(t, owner), w)
    ensures IsTree(v', t, blk, parent, depth)
    decreases t, 1
  {
    TreeClaimsParts(t, owner, w);
    if t.node.kind.Directory? {
      TreesFrame(v, v', t.kids, t.node.kids, t.node.dossier, depth + 1, w);
    }
  }

  lemma {:induction false} TreesFrame(v: View, v': View, ts: seq<Tree>, blks: seq<nat>, dossier: nat, depth: nat,
      w: nat)
    requires AreTrees(v, ts, blks, dossier, depth) && NodesAgree(v, v', w) && !Claims(TreesClaims(ts, dossier), w)
    ensures AreTrees(v', ts, blks, dossier, depth)
    decreases ts, 0
  {
    if blks != [] {
      ClaimsAppend(TreeClaims(ts[0], dossier), TreesClaims(ts[1..], dossier), w);
      TreeFrame(v, v', ts[0], blks[0], dossier, dossier, depth, w);
      TreesFrame(v, v', ts[1..], blks[1..], dossier, depth, w);
    }
  }

  /** The same among siblings, one of which is a file m that owns w and reads the same. */
  lemma {:induction false} SiblingsFrame(v: View, v': View, ts: seq<Tree>, blks: seq<nat>, dossier: nat, depth: nat,
      m: nat, w: nat)
    requires AreTrees(v, ts, blks, dossier, depth) && NodesAgree(v, v', w) && Distinct(TreesClaims(ts, dossier))
    requires m in blks && v.node(m).Ok? && v.node(m).value.kind.File? && w in v.node(m).value.own
    requires v'.node(m) == v.node(m)
    ensures AreTrees(v', ts, blks, dossier, depth) && Claims(TreesClaims(ts, dossier), w)
    decreases ts, 0
  {
    var head, rest := TreeClaims(ts[0], dossier), TreesClaims(ts[1..], dossier);
    DistinctAppend(head, rest);
    ClaimsAppend(head, rest, w);
    TreeClaimsParts(ts[0], dossier, w);
    if m == blks[0] {
      TreesFrame(v, v', ts[1..], blks[1..], dossier, depth, w);
    } else {
      SiblingsFrame(v, v', ts[1..], blks[1..], dossier, depth, m, w);
      TreeFrame(v, v', ts[0], blks[0], dossier, dossier, depth, w);
    }
  }

  /** And for the whole tree, m being named in its root directory. */
  lemma RootFrame(v: View, v': View, t: Tree, m: nat, w: nat)
    requires IsTree(v, t, v.root, 0, 0) && NodesAgree(v, v', w) && Distinct(TreeClaims(t, OWNER_ARCHIVE))
    requires t.node.kind.Directory? && m in t.node.kids
    requires v.node(m).Ok? && v.node(m).value.kind.File? && w in v.node(m).value.own && v'.node(m) == v.node(m)
    ensures IsTree(v', t, v.root, 0, 0) && Claims(TreeClaims(t, OWNER_ARCHIVE), w)
    ensures w != v.root && w !in t.node.own
  {
    var first, mine := [Claim(t.blk, OWNER_ARCHIVE)], Owned(t.node.own, t.node.dossier);
    var below := TreesClaims(t.kids, t.node.dossier);
    DistinctAppend(first, mine + below);
    DistinctAppend(mine, below);
    SiblingsFrame(v, v', t.kids, t.node.kids, t.node.dossier, 1, m, w);
    TreeClaimsParts(t, OWNER_ARCHIVE, w);
    OwnedClaims(t.node.own, t.node.dossier, w);
    ClaimsAppend(mine, below, w);
    assert first[0].blk == v.root;
    assert Claims(first, v.root);
  }

  lemma {:induction false} TableFrame(v: View, v': View, t: Table, node: nat, depth: nat, w: nat)
    requires IsTable(v, t, node, depth) && !Claims(TableClaims(t), w)
    requires forall b: nat :: b != w ==> v'.index(b) == v.index(b)
    ensures IsTable(v', t, node, depth)
    decreases t, 1
  {
    assert TableClaims(t)[0].blk == node;
    if depth > 0 {
      ClaimsAppend([Claim(t.blk, OWNER_ARCHIVE)], TablesClaims(t.kids), w);
      TablesFrame(v, v', t.kids, NonZero(v.index(node).value), depth - 1, w);
    }
  }

  lemma {:induction false} TablesFrame(v: View, v': View, ts: seq<Table>, nodes: seq<nat>, depth: nat, w: nat)
    requires AreTables(v, ts, nodes, depth) && !Claims(TablesClaims(ts), w)
    requires forall b: nat :: b != w ==> v'.index(b) == v.index(b)
    ensures AreTables(v', ts, nodes, depth)
    decreases ts, 0
  {
    if nodes != [] {
      ClaimsAppend(TableClaims(ts[0]), TablesClaims(ts[1..]), w);
      TableFrame(v, v', ts[0], nodes[0], depth, w);
      TablesFrame(v, v', ts[1..], nodes[1..], depth, w);
    }
  }

  // --- What a change to one block changes in the readers ---

  lemma {:induction false} BlocksFrame(v: Volume, v': Volume, at: seq<nat>, w: nat)
    requires SameBut(v, v', w) && w !in at
    ensures BlocksAt(v', at) == BlocksAt(v, at)
  {
    if at != [] { BlocksFrame(v, v', at[1..], w); }
  }

  lemma InodeFrame(v: Volume, v': Volume, b: nat, w: nat)
    requires Sized(v) && SameBut(v, v', w) && b != w
    ensures ReadInode(v', b) == ReadInode(v, b)
  {
  }

  lemma EntriesFrame(v: Volume, v': Volume, ino: Inode, w: nat)
    requires SameBut(v, v', w) && w !in DirOwn(ino)
    ensures DirEntries(v', ino) == DirEntries(v, ino)
  {
    if ino.inlineLen == 0 { BlocksFrame(v, v', NonZero(ino.direct), w); }
  }

  lemma NodeFrame(v: Volume, v': Volume, b: nat, w: nat)
    requires Sized(v) && SameBut(v, v', w) && b != w
    requires ReadNode(v, b).Ok? && w !in ReadNode(v, b).value.own
    ensures ReadNode(v', b) == ReadNode(v, b)
  {
    InodeFrame(v, v', b, w);
    var ino := ReadInode(v, b).value;
    NodeOfFrame(v, v', ino, w);
  }

  lemma NodeOfFrame(v: Volume, v': Volume, ino: Inode, w: nat)
    requires SameBut(v, v', w) && NodeOf(v, ino).Ok? && w !in NodeOf(v, ino).value.own
    ensures NodeOf(v', ino) == NodeOf(v, ino)
  {
    if ino.kind == TYPE_DIR {
      EntriesFrame(v, v', ino, w);
    } else if ino.kind == TYPE_FILE && ino.inlineLen == 0 && ino.indirect != 0 {
      OwnHasIndirect(v, ino);
    }
  }

  lemma OwnHasIndirect(v: Volume, ino: Inode)
    requires ino.inlineLen == 0 && ino.indirect != 0 && FileOwn(v, ino).Ok?
    ensures ino.indirect in FileOwn(v, ino).value
  {
    var own, k := FileOwn(v, ino).value, |NonZero(ino.direct)|;
    assert own[k] == ino.indirect;
  }

  lemma ViewsAgree(v: Volume, v': Volume, w: nat)
    requires Sized(v) && SameBut(v, v', w)
    ensures NodesAgree(ViewOf(v), ViewOf(v'), w)
    ensures forall b: nat :: b != w ==> ViewOf(v').index(b) == ViewOf(v).index(b)
  {
    forall b: nat | b != w && ReadNode(v, b).Ok? && w !in ReadNode(v, b).value.own
      ensures ReadNode(v', b) == ReadNode(v, b)
    {
      NodeFrame(v, v', b, w);
    }
  }

  /** The sweep reads only the table's blocks. */
  lemma OwnersFrame(v: Volume, v': Volume, table: Table, w: nat)
    requires Sized(v) && SameBut(v, v', w) && Owners(v).Ok?
    requires IsTable(ViewOf(v), table, v.super.tableRoot, v.super.tableDepth) && Distinct(TableClaims(table))
    requires !Claims(TableClaims(table), w)
    ensures Owners(v') == Owners(v)
  {
    forall b: nat | b < v.super.total ensures EntryAt(v', b) == EntryAt(v, b) && EntryAt(v, b).Ok? {
      assert EntryAt(v, b) == Ok(Owners(v).value[b]);
      SlotFrameAt(v, v', table, w, Quot(b, PerIndex(v)), Rem(b, PerIndex(v)));
    }
    assert Owners(v').Ok?;
    assert Owners(v').value == Owners(v).value;
  }

  lemma SlotFrameAt(v: Volume, v': Volume, table: Table, w: nat, q: nat, i: nat)
    requires Sized(v) && SameBut(v, v', w) && i < PerIndex(v) && SlotAt(v, q, i).Ok?
    requires IsTable(ViewOf(v), table, v.super.tableRoot, v.super.tableDepth) && Distinct(TableClaims(table))
    requires !Claims(TableClaims(table), w)
    ensures SlotAt(v', q, i) == SlotAt(v, q, i)
  {
    var leaf := LeafBlock(v, q).value;
    FollowInTable(v, v', table, v.super.tableRoot, Digits(q, PerIndex(v), v.super.tableDepth), leaf, w);
  }

  // --- A file's block pointers are all different ---

  lemma NoRepeatParts(a: seq<nat>, b: seq<nat>)
    requires NoRepeat(a + b)
    ensures NoRepeat(a) && NoRepeat(b) && forall x :: x in a ==> x !in b
  {
    var all := a + b;
    forall i, j | 0 <= i < j < |a| ensures a[i] != a[j] { assert all[i] == a[i] && all[j] == a[j]; }
    forall i, j | 0 <= i < j < |b| ensures b[i] != b[j] { assert all[|a| + i] == b[i] && all[|a| + j] == b[j]; }
    forall i, j | 0 <= i < |a| && 0 <= j < |b| ensures a[i] != b[j] { assert all[i] == a[i] && all[|a| + j] == b[j]; }
  }

  lemma {:induction false} NonZeroOnce(s: seq<nat>, a: nat, b: nat)
    requires a < b < |s| && s[a] == s[b] != 0
    ensures !NoRepeat(NonZero(s))
  {
    if a > 0 {
      NonZeroOnce(s[1..], a - 1, b - 1);
      if NoRepeat(NonZero(s)) { NoRepeatParts(if s[0] == 0 then [] else [s[0]], NonZero(s[1..])); }
    } else {
      NonZeroHas(s[1..], b - 1);
      if NoRepeat(NonZero(s)) { NoRepeatParts([s[0]], NonZero(s[1..])); }
    }
  }

  /** A block pointer names one of the file's own blocks, never the indirect block, and no two name the same. */
  lemma PointersApart(v: Volume, ino: Inode, a: nat, b: nat)
    requires |ino.direct| == DIRECT && ino.inlineLen == 0 && FileOwn(v, ino).Ok? && NoRepeat(FileOwn(v, ino).value)
    requires BlockOf(v, ino, a).Ok? && BlockOf(v, ino, b) == BlockOf(v, ino, a)
    ensures a == b && BlockOf(v, ino, a).value in FileOwn(v, ino).value
    ensures ino.indirect != 0 ==> BlockOf(v, ino, a).value != ino.indirect
  {
    if ino.indirect == 0 {
      SamePointer(ino.direct, a, b);
    } else {
      SlotsApart(ino.direct, ino.indirect, Index(v, ino.indirect).value, a, b);
    }
  }

  /** Stretch k of a file with an indirect block, before it is known to be non-zero. */
  ghost function PointerAt(direct: seq<nat>, slots: seq<nat>, k: nat): nat
    requires k < |direct| + |slots|
  {
    if k < |direct| then direct[k] else slots[k - |direct|]
  }

  lemma SlotsApart(direct: seq<nat>, indirect: nat, slots: seq<nat>, a: nat, b: nat)
    requires NoRepeat(NonZero(direct) + ([indirect] + NonZero(slots)))
    requires a < |direct| + |slots| && b < |direct| + |slots|
    requires PointerAt(direct, slots, a) == PointerAt(direct, slots, b) != 0
    ensures a == b && PointerAt(direct, slots, a) != indirect
    ensures PointerAt(direct, slots, a) in NonZero(direct) + ([indirect] + NonZero(slots))
  {
    hide NonZero, NoRepeat;
    PointerIn(direct, slots, a);
    PointerIn(direct, slots, b);
    PartsApart(NonZero(direct), indirect, NonZero(slots), PointerAt(direct, slots, a));
    if a < |direct| && b < |direct| {
      SamePointer(direct, a, b);
    } else if a >= |direct| && b >= |direct| {
      SamePointer(slots, a - |direct|, b - |direct|);
    }
  }

  lemma PointerIn(direct: seq<nat>, slots: seq<nat>, a: nat)
    requires a < |direct| + |slots| && PointerAt(direct, slots, a) != 0
    ensures PointerAt(direct, slots, a) in (if a < |direct| then NonZero(direct) else NonZero(slots))
  {
    if a < |direct| { NonZeroHas(direct, a); } else { NonZeroHas(slots, a - |direct|); }
  }

  lemma PartsApart(d: seq<nat>, indirect: nat, e: seq<nat>, x: nat)
    requires NoRepeat(d + ([indirect] + e)) && (x in d || x in e)
    ensures NoRepeat(d) && NoRepeat(e) && x != indirect && !(x in d && x in e) && x in d + ([indirect] + e)
  {
    NoRepeatParts(d, [indirect] + e);
    NoRepeatParts([indirect], e);
    assert indirect in [indirect] + e && indirect in [indirect];
  }

  lemma SamePointer(s: seq<nat>, a: nat, b: nat)
    requires a < |s| && b < |s| && s[a] == s[b] != 0 && NoRepeat(NonZero(s))
    ensures a == b && s[a] in NonZero(s)
  {
    NonZeroHas(s, a);
    if a < b { NonZeroOnce(s, a, b); } else if b < a { NonZeroOnce(s, b, a); }
  }

  // --- The file's contents after the change ---

  lemma PointersFrame(v: Volume, v': Volume, ino: Inode, w: nat)
    requires SameBut(v, v', w) && |ino.direct| == DIRECT && (ino.indirect != 0 ==> w != ino.indirect)
    ensures forall k: nat :: BlockOf(v', ino, k) == BlockOf(v, ino, k)
  {
  }

  lemma ReadableFrame(v: Volume, v': Volume, ino: Inode, w: nat)
    requires Sized(v) && SameBut(v, v', w) && |ino.direct| == DIRECT && Readable(v, ino)
    requires forall k: nat :: BlockOf(v', ino, k) == BlockOf(v, ino, k)
    requires Block(v', w).Ok?
    ensures Readable(v', ino)
  {
    forall k: nat | Times(k, v.bs) < ino.size ensures FileBlock(v', ino, k).Ok? {
      assert FileBlock(v, ino, k).Ok?;
    }
  }

  /** Changing a piece of a block changes that piece of the file. */
  lemma ContentsPatched(v: Volume, v': Volume, ino: Inode, n: nat, w: nat, o: nat, piece: seq<Byte>)
    requires Sized(v) && SameBut(v, v', w) && |ino.direct| == DIRECT && ino.inlineLen == 0 && Readable(v, ino)
    requires forall k: nat :: BlockOf(v', ino, k) == BlockOf(v, ino, k)
    requires forall k: nat :: BlockOf(v, ino, k) == Ok(w) ==> k == n
    requires BlockOf(v, ino, n) == Ok(w) && Block(v, w).Ok?
    requires ino.size >= Times(n, v.bs) + o + |piece| && o + |piece| <= v.bs
    requires Block(v', w) == Ok(Patch(Block(v, w).value, o, piece))
    ensures Contents(v, ino).Ok? && |Contents(v, ino).value| == ino.size
    ensures Contents(v', ino) == Ok(Patch(Contents(v, ino).value, Times(n, v.bs) + o, piece))
  {
    ReadableFrame(v, v', ino, w);
    var at := Times(n, v.bs) + o;
    ContentsAre(v, ino);
    ContentsAre(v', ino);
    hide Contents, Readable, FileByte, Block;
    forall j: nat | j < ino.size
      ensures FileByte(v', ino, j) == if at <= j < at + |piece| then piece[j - at] else FileByte(v, ino, j)
    {
      BytePatched(v, v', ino, n, w, o, piece, j);
    }
    SamePatch(Contents(v, ino).value, Contents(v', ino).value, at, piece);
  }

  lemma ContentsAre(v: Volume, ino: Inode)
    requires Sized(v) && |ino.direct| == DIRECT && ino.inlineLen == 0 && Readable(v, ino)
    ensures Contents(v, ino).Ok? && |Contents(v, ino).value| == ino.size
    ensures forall j: nat :: j < ino.size ==> Contents(v, ino).value[j] == FileByte(v, ino, j)
  {
  }

  lemma SamePatch(c: seq<Byte>, c': seq<Byte>, at: nat, piece: seq<Byte>)
    requires |c| == |c'| >= at + |piece|
    requires forall j: nat :: j < |c| ==> c'[j] == if at <= j < at + |piece| then piece[j - at] else c[j]
    ensures c' == Patch(c, at, piece)
  {
  }

  lemma BytePatched(v: Volume, v': Volume, ino: Inode, n: nat, w: nat, o: nat, piece: seq<Byte>, j: nat)
    requires Sized(v) && SameBut(v, v', w) && |ino.direct| == DIRECT && Readable(v, ino) && Readable(v', ino)
    requires forall k: nat :: BlockOf(v', ino, k) == BlockOf(v, ino, k)
    requires forall k: nat :: BlockOf(v, ino, k) == Ok(w) ==> k == n
    requires BlockOf(v, ino, n) == Ok(w) && Block(v, w).Ok?
    requires ino.size >= Times(n, v.bs) + o + |piece| && o + |piece| <= v.bs && j < ino.size
    requires Block(v', w) == Ok(Patch(Block(v, w).value, o, piece))
    ensures var at := Times(n, v.bs) + o;
            FileByte(v', ino, j) == if at <= j < at + |piece| then piece[j - at] else FileByte(v, ino, j)
  {
    var q, r := Quot(j, v.bs), Rem(j, v.bs);
    Divided(j, v.bs);
    assert FileBlock(v, ino, q).Ok?;
    if q > n {
      TimesGrows(n, q, v.bs);
    } else if q < n {
      TimesGrows(q, n, v.bs);
    }
  }

  // --- Where the tearing lands ---

  /** settings is one file in the root directory, and not an inline one. */
  ghost predicate OneSettings(v: Volume, key: seq<Byte> -> string, m: nat, ino: Inode)
    requires Sized(v)
  {
    && RootEntries(v).Ok? && Matches(RootEntries(v).value, SETTINGS, key) == [m]
    && ReadInode(v, v.super.root).Ok? && ReadInode(v, v.super.root).value.kind == TYPE_DIR
    && ReadInode(v, m) == Ok(ino) && ino.kind == TYPE_FILE && ino.inlineLen == 0
  }

  /** And its last four bytes are in one block. */
  ghost predicate PlainSettings(v: Volume, key: seq<Byte> -> string, m: nat, ino: Inode)
    requires Sized(v)
  {
    OneSettings(v, key, m, ino) && ino.size > 0 && Rem(ino.size - 1, v.bs) >= 3
  }

  /** The number that is changed: stretch n of the file, block w, offset o in it. */
  datatype Spot = Spot(n: nat, w: nat, o: nat)

  ghost predicate Aimed(v: Volume, ino: Inode, s: Spot)
    requires Sized(v) && |ino.direct| == DIRECT
  {
    && BlockOf(v, ino, s.n) == Ok(s.w) && Block(v, s.w).Ok? && s.o + 4 <= v.bs
    && ino.size == Times(s.n, v.bs) + s.o + 4
    && TornAt(v, ino) == Ok(Times(s.w, v.bs) + s.o)
  }

  lemma AimedAt(v: Volume, ino: Inode, s: Spot)
    requires Sized(v) && |ino.direct| == DIRECT && Aimed(v, ino, s)
    ensures BlockOf(v, ino, s.n) == Ok(s.w)
  {
  }

  lemma TornSpot(v: Volume, ino: Inode) returns (s: Spot)
    requires Sized(v) && |ino.direct| == DIRECT && ino.inlineLen == 0 && Readable(v, ino)
    requires ino.size > 0 && Rem(ino.size - 1, v.bs) >= 3
    ensures Aimed(v, ino, s)
  {
    var n := Quot(ino.size - 1, v.bs);
    Divided(ino.size - 1, v.bs);
    assert FileBlock(v, ino, n).Ok?;
    s := Spot(n, BlockOf(v, ino, n).value, Rem(ino.size - 1, v.bs) - 3);
    SpotAimed(v, ino, n, s.w, s.o);
  }

  lemma SpotAimed(v: Volume, ino: Inode, n: nat, w: nat, o: nat)
    requires Sized(v) && |ino.direct| == DIRECT && ino.inlineLen == 0 && ino.size > 0
    requires n == Quot(ino.size - 1, v.bs) && o + 3 == Rem(ino.size - 1, v.bs) && BlockOf(v, ino, n) == Ok(w)
    ensures TornAt(v, ino) == Ok(Times(w, v.bs) + o)
  {
    assert TornBlock(v, ino, n) == Ok(w);
  }

  lemma {:induction false} MatchIsChild(es: seq<Entry>, want: string, key: seq<Byte> -> string, m: nat)
    requires m in Matches(es, want, key)
    ensures m in ChildrenOf(es)
  {
    if key(es[0].name) == want && m == es[0].child {
      assert ChildrenOf(es)[0] == m;
    } else {
      MatchIsChild(es[1..], want, key, m);
      var i :| 0 <= i < |es[1..]| && ChildrenOf(es[1..])[i] == m;
      assert ChildrenOf(es)[i + 1] == m;
    }
  }

  // --- What the clean verdict says about the file's blocks ---

  lemma {:induction false} SiblingOwn(v: View, ts: seq<Tree>, blks: seq<nat>, dossier: nat, depth: nat, m: nat)
    requires AreTrees(v, ts, blks, dossier, depth) && Distinct(TreesClaims(ts, dossier)) && m in blks
    ensures v.node(m).Ok? && NoRepeat(v.node(m).value.own) && m !in v.node(m).value.own
    decreases ts, 0
  {
    DistinctAppend(TreeClaims(ts[0], dossier), TreesClaims(ts[1..], dossier));
    if m == blks[0] {
      OwnApart(ts[0], dossier);
    } else {
      SiblingOwn(v, ts[1..], blks[1..], dossier, depth, m);
    }
  }

  lemma OwnApart(t: Tree, owner: nat)
    requires Distinct(TreeClaims(t, owner))
    ensures NoRepeat(t.node.own) && t.blk !in t.node.own
  {
    var first, mine := [Claim(t.blk, owner)], Owned(t.node.own, t.node.dossier);
    var below := TreesClaims(t.kids, t.node.dossier);
    DistinctAppend(first, mine + below);
    DistinctAppend(mine, below);
    ClaimsAppend(mine, below, t.blk);
    OwnedClaims(t.node.own, t.node.dossier, t.blk);
    assert first[0].blk == t.blk;
    forall i, j | 0 <= i < j < |t.node.own| ensures t.node.own[i] != t.node.own[j] {
      assert mine[i].blk != mine[j].blk;
    }
  }

  lemma KidOwn(v: View, t: Tree, m: nat)
    requires IsTree(v, t, v.root, 0, 0) && Distinct(TreeClaims(t, OWNER_ARCHIVE))
    requires t.node.kind.Directory? && m in t.node.kids
    ensures v.node(m).Ok? && NoRepeat(v.node(m).value.own) && m !in v.node(m).value.own
  {
    var first, mine := [Claim(t.blk, OWNER_ARCHIVE)], Owned(t.node.own, t.node.dossier);
    var below := TreesClaims(t.kids, t.node.dossier);
    DistinctAppend(first, mine + below);
    DistinctAppend(mine, below);
    SiblingOwn(v, t.kids, t.node.kids, t.node.dossier, 1, m);
  }

  /** A block the tree claims is past the superblocks and not in the table. */
  lemma TreeApart(v: View, table: Table, tree: Tree, w: nat)
    requires Distinct(AllClaims(v, table, tree)) && Fits(Unclaimed(v.total), AllClaims(v, table, tree))
    requires Claims(TreeClaims(tree, OWNER_ARCHIVE), w)
    ensures v.reserved <= w && !Claims(TableClaims(table), w)
  {
    var front := SuperClaims(v) + TableClaims(table);
    FitsMeans(Unclaimed(v.total), AllClaims(v, table, tree));
    ClaimsAppend(front, TreeClaims(tree, OWNER_ARCHIVE), w);
    DistinctAppend(front, TreeClaims(tree, OWNER_ARCHIVE));
    ClaimsAppend(SuperClaims(v), TableClaims(table), w);
    assert w < |SuperClaims(v)| ==> SuperClaims(v)[w].blk == w;
  }

  /** One file m of the root directory, one of its blocks w: what the trees say. */
  lemma KidBlock(v: View, owners: seq<nat>, m: nat, w: nat) returns (table: Table, tree: Tree)
    requires |owners| == v.total && Accepted(v, owners) && Numbered(v, v.root)
    requires v.node(v.root).Ok? && v.node(v.root).value.kind.Directory? && m in v.node(v.root).value.kids
    requires v.node(m).Ok? && v.node(m).value.kind.File? && w in v.node(m).value.own
    ensures HoldsTogether(v, owners, table, tree)
    ensures Distinct(TreeClaims(tree, OWNER_ARCHIVE)) && Distinct(TableClaims(table))
    ensures v.reserved <= w && !Claims(TableClaims(table), w) && w != m && NoRepeat(v.node(m).value.own)
  {
    table, tree := AcceptedTrees(v, owners);
    AllNumbered(v, table, tree);
    FitsDistinct(Unclaimed(v.total), AllClaims(v, table, tree));
    DistinctAppend(SuperClaims(v) + TableClaims(table), TreeClaims(tree, OWNER_ARCHIVE));
    DistinctAppend(SuperClaims(v), TableClaims(table));
    KidOwn(v, tree, m);
    assert IsPath(v, [v.root, m]) && EndsAt(v, [v.root, m], w);
    PathIsClaimed(v, tree, v.root, 0, OWNER_ARCHIVE, 0, [v.root, m], w);
    TreeApart(v, table, tree, w);
  }

  /** The verdict is the same on the volume whose block w, a data block of m, has changed. */
  lemma VerdictFrame(v: Volume, v': Volume, owners: seq<nat>, table: Table, tree: Tree, m: nat, w: nat)
    requires Sized(v) && SameBut(v, v', w) && Owners(v) == Ok(owners)
    requires HoldsTogether(ViewOf(v), owners, table, tree)
    requires Distinct(TreeClaims(tree, OWNER_ARCHIVE)) && Distinct(TableClaims(table)) && !Claims(TableClaims(table), w)
    requires tree.node.kind.Directory? && m in tree.node.kids
    requires ReadNode(v, m).Ok? && ReadNode(v, m).value.kind.File? && w in ReadNode(v, m).value.own
    requires ReadNode(v', m) == ReadNode(v, m)
    ensures Owners(v') == Ok(owners) && Accepted(ViewOf(v'), owners)
    ensures w != v.super.root && w !in tree.node.own
  {
    ViewsAgree(v, v', w);
    RootFrame(ViewOf(v), ViewOf(v'), tree, m, w);
    TableFrame(ViewOf(v), ViewOf(v'), table, v.super.tableRoot, v.super.tableDepth, w);
    OwnersFrame(v, v', table, w);
    VerdictOf(ViewOf(v'), owners, table, tree);
  }

  // --- The payload after the change ---

  /**
   A file that is no payload, or a whole one, with its last number changed: never a whole payload,
   and from eight bytes on one that looks like a payload exactly when it did before.
   */
  lemma PayloadTorn(sum: Sum, c: seq<Byte>, piece: seq<Byte>)
    requires |c| >= 4 && |piece| == 4 && LE(piece) != U32(c, |c| - 4)
    requires LooksLikePayload(c) ==> WholePayload(sum, c)
    ensures var c' := Patch(c, |c| - 4, piece);
            && (LooksLikePayload(c') ==> !WholePayload(sum, c'))
            && (|c| >= 8 ==> (LooksLikePayload(c') <==> LooksLikePayload(c)))
  {
    if |c| >= 8 { PatchElsewhere(c, |c| - 4, piece, 0, 4); }
    if |c| >= 24 { PatchElsewhere(c, |c| - 4, piece, 4, 8); }
    assert Patch(c, |c| - 4, piece)[|c| - 4..|c|] == piece;
  }

  // --- Putting it together ---

  lemma {:induction false} SiblingReadable(v: View, ts: seq<Tree>, blks: seq<nat>, dossier: nat, depth: nat, m: nat)
    requires AreTrees(v, ts, blks, dossier, depth) && m in blks
    ensures v.node(m).Ok?
    decreases ts, 0
  {
    if m != blks[0] { SiblingReadable(v, ts[1..], blks[1..], dossier, depth, m); }
  }

  lemma PointerOwned(v: Volume, ino: Inode, n: nat)
    requires |ino.direct| == DIRECT && ino.inlineLen == 0 && FileOwn(v, ino).Ok? && BlockOf(v, ino, n).Ok?
    ensures BlockOf(v, ino, n).value in FileOwn(v, ino).value
  {
    if n < DIRECT {
      NonZeroHas(ino.direct, n);
    } else {
      NonZeroHas(Index(v, ino.indirect).value, n - DIRECT);
    }
  }

  /** settings and its blocks, as the walk sees them. */
  lemma SettingsNode(v: Volume, owners: seq<nat>, key: seq<Byte> -> string, m: nat, ino: Inode)
    requires Sized(v) && |owners| == v.super.total && Accepted(ViewOf(v), owners) && OneSettings(v, key, m, ino)
    ensures ReadNode(v, v.super.root).Ok? && ReadNode(v, v.super.root).value.kind.Directory?
    ensures m in ReadNode(v, v.super.root).value.kids
    ensures FileOwn(v, ino).Ok? && ReadNode(v, m) == Ok(Node(ino.dossier, ino.parent, File, FileOwn(v, ino).value, []))
  {
    MatchIsChild(RootEntries(v).value, SETTINGS, key, m);
    var table, tree := AcceptedTrees(ViewOf(v), owners);
    SiblingReadable(ViewOf(v), tree.kids, tree.node.kids, tree.node.dossier, 1, m);
  }

  /** Block w, a data block of settings, does not matter to the walk, the sweep or the listing. */
  lemma BlockVerdict(v: Volume, v': Volume, owners: seq<nat>, key: seq<Byte> -> string, m: nat, ino: Inode, n: nat,
      w: nat)
    requires Sized(v) && Owners(v) == Ok(owners) && Accepted(ViewOf(v), owners) && Numbered(ViewOf(v), v.super.root)
    requires OneSettings(v, key, m, ino) && |ino.direct| == DIRECT && BlockOf(v, ino, n) == Ok(w) && SameBut(v, v', w)
    ensures Owners(v') == Ok(owners) && Accepted(ViewOf(v'), owners)
    ensures RootEntries(v') == RootEntries(v) && ReadInode(v', m) == Ok(ino)
    ensures FileOwn(v, ino).Ok? && NoRepeat(FileOwn(v, ino).value)
  {
    SettingsNode(v, owners, key, m, ino);
    PointerOwned(v, ino, n);
    var table, tree := KidBlock(ViewOf(v), owners, m, w);
    PointersApart(v, ino, n, n);
    InodeFrame(v, v', m, w);
    FileNodeFrame(v, v', ino, w);
    VerdictFrame(v, v', owners, table, tree, m, w);
    RootEntriesFrame(v, v', w);
  }

  lemma BlockContents(v: Volume, v': Volume, ino: Inode, n: nat, w: nat, o: nat, piece: seq<Byte>)
    requires Sized(v) && |ino.direct| == DIRECT && ino.inlineLen == 0 && Readable(v, ino)
    requires BlockOf(v, ino, n) == Ok(w) && Block(v, w).Ok?
    requires o + |piece| <= v.bs && Times(n, v.bs) + o + |piece| <= ino.size
    requires SameBut(v, v', w) && FileOwn(v, ino).Ok? && NoRepeat(FileOwn(v, ino).value)
    requires Block(v', w) == Ok(Patch(Block(v, w).value, o, piece))
    ensures Contents(v, ino).Ok? && |Contents(v, ino).value| == ino.size
    ensures Contents(v', ino) == Ok(Patch(Contents(v, ino).value, Times(n, v.bs) + o, piece))
  {
    PointersApart(v, ino, n, n);
    PointersFrame(v, v', ino, w);
    forall k: nat | BlockOf(v, ino, k) == Ok(w) ensures k == n { PointersApart(v, ino, n, k); }
    ContentsPatched(v, v', ino, n, w, o, piece);
  }

  lemma FileNodeFrame(v: Volume, v': Volume, ino: Inode, w: nat)
    requires SameBut(v, v', w) && ino.kind == TYPE_FILE && (ino.indirect != 0 ==> w != ino.indirect)
    ensures NodeOf(v', ino) == NodeOf(v, ino)
  {
  }

  lemma RootEntriesFrame(v: Volume, v': Volume, w: nat)
    requires Sized(v) && SameBut(v, v', w) && w != v.super.root
    requires ReadInode(v, v.super.root).Ok? && w !in DirOwn(ReadInode(v, v.super.root).value)
    ensures RootEntries(v') == RootEntries(v)
  {
    InodeFrame(v, v', v.super.root, w);
    EntriesFrame(v, v', ReadInode(v, v.super.root).value, w);
  }

  /** A data block of settings lies past the superblocks. */
  lemma BlockPlaced(v: Volume, owners: seq<nat>, key: seq<Byte> -> string, m: nat, ino: Inode, n: nat, w: nat)
    requires Sized(v) && |owners| == v.super.total && Accepted(ViewOf(v), owners) && Numbered(ViewOf(v), v.super.root)
    requires OneSettings(v, key, m, ino) && |ino.direct| == DIRECT && BlockOf(v, ino, n) == Ok(w)
    ensures Times(w, v.bs) >= BLOCK_MAX + v.bs
  {
    SettingsNode(v, owners, key, m, ino);
    PointerOwned(v, ino, n);
    var table, tree := KidBlock(ViewOf(v), owners, m, w);
    PastSupers(v.bs, w);
  }

  /** What the check says of settings once its contents are known. */
  lemma FoundSettings(v: Volume, key: seq<Byte> -> string, m: nat, ino: Inode)
    requires Sized(v) && RootEntries(v).Ok? && Matches(RootEntries(v).value, SETTINGS, key) == [m]
    requires ReadInode(v, m) == Ok(ino)
    ensures FoundIn(v, Some(SETTINGS), key) == Inspect(v.sum, m, Contents(v, ino))
  {
  }

  /** The four bytes written are the number before, plus one. */
  lemma BumpPiece(data: seq<Byte>, at: nat) returns (piece: seq<Byte>)
    requires Bump(data, at).Ok?
    ensures at + 4 <= |data| && Successor(data[at..at + 4]) == Ok(piece)
    ensures |piece| == 4 && at + 4 <= |data| && Bump(data, at) == Ok(Patch(data, at, piece))
    ensures data[at..at + 4] != piece && LE(piece) != LE(data[at..at + 4])
  {
    piece := Successor(data[at..at + 4]).value;
    SuccessorIs(data[at..at + 4]);
  }

  lemma DamageTorn(sum: Sum, data: seq<Byte>, l: Loaded, key: seq<Byte> -> string)
    requires Load(sum, data) == Ok(l)
    ensures Damage(sum, data, Torn, key) == TornDamage(VolumeOf(sum, data, l), key)
  {
  }

  lemma TornDamageIs(v: Volume, key: seq<Byte> -> string, ino: Inode, at: int)
    requires Sized(v) && SettingsInode(v, key) == Ok(ino) && TornAt(v, ino) == Ok(at)
    ensures TornDamage(v, key) == Bump(v.data, at)
  {
  }

  lemma SettingsAre(v: Volume, key: seq<Byte> -> string, m: nat, ino: Inode)
    requires Sized(v) && PlainSettings(v, key, m, ino)
    ensures SettingsInode(v, key) == Ok(ino)
  {
  }

  /** The number changed is the last of the file. */
  lemma TailNumber(v: Volume, ino: Inode, s: Spot)
    requires Sized(v) && |ino.direct| == DIRECT && ino.inlineLen == 0 && Readable(v, ino) && Aimed(v, ino, s)
    ensures Contents(v, ino).Ok? && |Contents(v, ino).value| == ino.size >= 4
    ensures Contents(v, ino).value[ino.size - 4..ino.size] == Block(v, s.w).value[s.o..s.o + 4]
  {
    ContentsAre(v, ino);
    var c, buf, at := Contents(v, ino).value, Block(v, s.w).value, Times(s.n, v.bs) + s.o;
    forall j: nat | at <= j < ino.size ensures c[j] == buf[j - at + s.o] {
      DividedOnce(j, s.n, v.bs, j - at + s.o);
    }
    TailSlice(c, buf, at, s.o);
  }

  lemma TailSlice(c: seq<Byte>, buf: seq<Byte>, at: nat, o: nat)
    requires |c| == at + 4 && o + 4 <= |buf| && forall j: nat :: at <= j < |c| ==> c[j] == buf[j - at + o]
    ensures c[at..at + 4] == buf[o..o + 4]
  {
  }

  lemma VolumeAgain(v: Volume, v': Volume, owners: seq<nat>, key: seq<Byte> -> string, m: nat, ino: Inode)
    requires Sized(v) && Sized(v') && v'.sum == v.sum && |owners| == v'.super.total
    requires RootEntries(v).Ok? && Matches(RootEntries(v).value, SETTINGS, key) == [m]
    requires Owners(v') == Ok(owners) && Accepted(ViewOf(v'), owners)
    requires RootEntries(v') == RootEntries(v) && ReadInode(v', m) == Ok(ino)
    ensures VolumePasses(v', Some(SETTINGS), key) <==> Inspect(v.sum, m, Contents(v', ino)).problems == []
  {
    FoundSettings(v', key, m, ino);
  }

  lemma TornInspect(v: Volume, v': Volume, m: nat, ino: Inode, s: Spot, piece: seq<Byte>)
    requires Sized(v) && |ino.direct| == DIRECT && ino.inlineLen == 0 && Readable(v, ino) && Aimed(v, ino, s)
    requires FileOwn(v, ino).Ok? && NoRepeat(FileOwn(v, ino).value) && BumpedBy(v, v', s.w, s.o, piece)
    requires LooksLikePayload(Contents(v, ino).value) ==> WholePayload(v.sum, Contents(v, ino).value)
    ensures Contents(v, ino).Ok? && |Contents(v, ino).value| == ino.size >= 4 && Contents(v', ino).Ok?
    ensures Bump(Contents(v, ino).value, ino.size - 4) == Contents(v', ino)
    ensures Inspect(v.sum, m, Contents(v', ino)).problems == [] <==> !LooksLikePayload(Contents(v', ino).value)
    ensures ino.size >= 8 ==>
              (LooksLikePayload(Contents(v', ino).value) <==> LooksLikePayload(Contents(v, ino).value))
  {
    hide LE, Contents, Successor;
    BlockContents(v, v', ino, s.n, s.w, s.o, piece);
    TailNumber(v, ino, s);
    PayloadTorn(v.sum, Contents(v, ino).value, piece);
  }

  /** What a volume says once the last number of its settings file has been changed. */
  ghost predicate TornOutcome(v: Volume, v': Volume, key: seq<Byte> -> string, ino: Inode)
    requires Sized(v) && Sized(v') && |ino.direct| == DIRECT && ino.size >= 4
  {
    && Contents(v, ino).Ok? && |Contents(v, ino).value| == ino.size
    && var after := Bump(Contents(v, ino).value, ino.size - 4);
       && after.Ok?
       && (VolumePasses(v', Some(SETTINGS), key) <==> !LooksLikePayload(after.value))
       && (ino.size >= 8 ==> (LooksLikePayload(after.value) <==> LooksLikePayload(Contents(v, ino).value)))
  }

  lemma TornVolume(v: Volume, v': Volume, owners: seq<nat>, key: seq<Byte> -> string, m: nat, ino: Inode, s: Spot,
      piece: seq<Byte>)
    requires Sized(v) && Owners(v) == Ok(owners) && Accepted(ViewOf(v), owners) && Numbered(ViewOf(v), v.super.root)
    requires PlainSettings(v, key, m, ino) && Readable(v, ino) && Aimed(v, ino, s) && BumpedBy(v, v', s.w, s.o, piece)
    requires LooksLikePayload(Contents(v, ino).value) ==> WholePayload(v.sum, Contents(v, ino).value)
    ensures ino.size >= 4 && TornOutcome(v, v', key, ino)
  {
    hide LE, ReadInode, DirEntries, Forward, Inspect, Bump, Contents, Successor, LooksLikePayload, WholePayload;
    hide Accepted, Numbered, VolumePasses, Block, Aimed, Readable;
    BumpedSame(v, v', s.w, s.o, piece);
    AimedAt(v, ino, s);
    BlockVerdict(v, v', owners, key, m, ino, s.n, s.w);
    hide BumpedBy;
    TornInspect(v, v', m, ino, s, piece);
    VolumeAgain(v, v', owners, key, m, ino);
  }

  lemma BumpedSame(v: Volume, v': Volume, w: nat, o: nat, piece: seq<Byte>)
    requires BumpedBy(v, v', w, o, piece)
    ensures SameBut(v, v', w) && v'.super == v.super && v'.bs == v.bs && v'.sum == v.sum
  {
  }

  /** A wanted file that passed was readable, and its round reported exactly when it looked like the workload's. */
  lemma PassedContents(v: Volume, key: seq<Byte> -> string, m: nat, ino: Inode)
    requires Sized(v) && VolumePasses(v, Some(SETTINGS), key) && OneSettings(v, key, m, ino)
    ensures Readable(v, ino) && Contents(v, ino).Ok?
    ensures FoundIn(v, Some(SETTINGS), key).round.Some? <==> LooksLikePayload(Contents(v, ino).value)
    ensures LooksLikePayload(Contents(v, ino).value) ==> WholePayload(v.sum, Contents(v, ino).value)
  {
    FoundSettings(v, key, m, ino);
  }

  /**
   The `torn` mode on a plain settings file. Unless the second slot was poised for it, the result
   passes exactly when the file with its last number raised does not look like a payload; from
   eight bytes on, that is when no round had been reported for it.
   */
  lemma TornExact(sum: Sum, data: seq<Byte>, key: seq<Byte> -> string, l: Loaded, m: nat, ino: Inode, data': seq<Byte>)
    returns (at: nat, piece: seq<Byte>)
    requires Passes(sum, data, Some(SETTINGS), key) && Load(sum, data) == Ok(l)
    requires var v := VolumeOf(sum, data, l);
             PlainSettings(v, key, m, ino) && Numbered(ViewOf(v), v.super.root)
    requires Damage(sum, data, Torn, key) == Ok(data')
    ensures at + 4 <= |data| && TornAt(VolumeOf(sum, data, l), ino) == Ok(at as int)
    ensures Successor(data[at..at + 4]) == Ok(piece) && data' == Patch(data, at, piece)
    ensures var c := Contents(VolumeOf(sum, data, l), ino);
            && c.Ok? && |c.value| == ino.size >= 4 && Bump(c.value, ino.size - 4).Ok?
            && (Passes(sum, data', Some(SETTINGS), key) <==>
                if Poised(sum, data, at, piece) then VolumePasses(Promoted(sum, data, at, piece), Some(SETTINGS), key)
                else !LooksLikePayload(Bump(c.value, ino.size - 4).value))
            && (ino.size >= 8 ==>
                  (LooksLikePayload(Bump(c.value, ino.size - 4).value) <==>
                   Check(sum, data, Some(SETTINGS), key).value.round.Some?))
    ensures SecondSlotFits(sum, data) ==> !Poised(sum, data, at, piece)
  {
    PassesParts(sum, data, Some(SETTINGS), key);
    DamageTorn(sum, data, l, key);
    var v := VolumeOf(sum, data, l);
    PassedRound(sum, data, l, key);
    hide Passes, VolumePasses, Poised, SecondSlotFits, Patch, Load, Bump, Successor, PlainSettings, Numbered, Check;
    hide Contents, TornAt, LooksLikePayload, FoundIn;
    at, piece := TornExactly(v, VolumeOf(sum, data', l), key, m, ino);
    PassesIn(sum, data, at, piece, l, Some(SETTINGS), key);
  }

  lemma PassedRound(sum: Sum, data: seq<Byte>, l: Loaded, key: seq<Byte> -> string)
    requires Passes(sum, data, Some(SETTINGS), key) && Load(sum, data) == Ok(l)
    ensures Check(sum, data, Some(SETTINGS), key).value.round
         == FoundIn(VolumeOf(sum, data, l), Some(SETTINGS), key).round
  {
    hide LE, Forward, Owners, FoundIn, RootEntries;
  }

  lemma TornExactly(v: Volume, v': Volume, key: seq<Byte> -> string, m: nat, ino: Inode)
    returns (at: nat, piece: seq<Byte>)
    requires Sized(v) && VolumePasses(v, Some(SETTINGS), key) && Numbered(ViewOf(v), v.super.root)
    requires PlainSettings(v, key, m, ino)
    requires v' == v.(data := v'.data) && TornDamage(v, key) == Ok(v'.data)
    ensures BLOCK_MAX + v.bs <= at && at + 4 <= |v.data| && TornAt(v, ino) == Ok(at as int)
    ensures Successor(v.data[at..at + 4]) == Ok(piece) && v'.data == Patch(v.data, at, piece)
    ensures ino.size >= 4 && TornOutcome(v, v', key, ino)
    ensures FoundIn(v, Some(SETTINGS), key).round.Some? <==> LooksLikePayload(Contents(v, ino).value)
  {
    PassedContents(v, key, m, ino);
    var owners := Owners(v).value;
    hide ReadInode, Forward, TornOutcome, VolumePasses, Contents, Numbered, Accepted, PlainSettings, LooksLikePayload,
        WholePayload;
    hide TornDamage, Successor, Patch, FoundIn, TornAt;
    at, piece := TornAimed(v, v', owners, key, m, ino);
  }

  lemma TornAimed(v: Volume, v': Volume, owners: seq<nat>, key: seq<Byte> -> string, m: nat, ino: Inode)
    returns (at: nat, piece: seq<Byte>)
    requires Sized(v) && Owners(v) == Ok(owners) && Accepted(ViewOf(v), owners) && Numbered(ViewOf(v), v.super.root)
    requires PlainSettings(v, key, m, ino) && Readable(v, ino) && Contents(v, ino).Ok?
    requires LooksLikePayload(Contents(v, ino).value) ==> WholePayload(v.sum, Contents(v, ino).value)
    requires v' == v.(data := v'.data) && TornDamage(v, key) == Ok(v'.data)
    ensures BLOCK_MAX + v.bs <= at && at + 4 <= |v.data| && TornAt(v, ino) == Ok(at as int)
    ensures Successor(v.data[at..at + 4]) == Ok(piece) && v'.data == Patch(v.data, at, piece)
    ensures ino.size >= 4 && TornOutcome(v, v', key, ino)
  {
    hide LE, ReadInode, Bump, TornOutcome, Contents, Numbered, Accepted, LooksLikePayload, WholePayload;
    hide TornDamage, Successor, Patch, TornAt, Quot, Rem, EntryAt, Owners, FileOwn;
    var s := TornSpot(v, ino);
    BlockPlaced(v, owners, key, m, ino, s.n, s.w);
    TornBump(v, key, m, ino, s);
    at := Times(s.w, v.bs) + s.o;
    piece := TornPiece(v, v', s.w, s.o, Times(s.w, v.bs));
    TornVolume(v, v', owners, key, m, ino, s, piece);
  }

  lemma TornBump(v: Volume, key: seq<Byte> -> string, m: nat, ino: Inode, s: Spot)
    requires Sized(v) && PlainSettings(v, key, m, ino) && Aimed(v, ino, s)
    ensures TornDamage(v, key) == Bump(v.data, Times(s.w, v.bs) + s.o)
  {
    hide LE, ReadInode, DirEntries, Bump;
    SettingsAre(v, key, m, ino);
    TornDamageIs(v, key, ino, Times(s.w, v.bs) + s.o);
  }

  /** Block w has the next number at offset o, and nothing else has changed. */
  ghost predicate BumpedBy(v: Volume, v': Volume, w: nat, o: nat, piece: seq<Byte>)
  {
    && SameBut(v, v', w) && Block(v, w).Ok? && o + 4 <= v.bs && |piece| == 4
    && LE(piece) != LE(Block(v, w).value[o..o + 4])
    && Successor(Block(v, w).value[o..o + 4]) == Ok(piece)
    && Block(v', w) == Ok(Patch(Block(v, w).value, o, piece))
  }

  lemma TornPiece(v: Volume, v': Volume, w: nat, o: nat, lo: nat) returns (piece: seq<Byte>)
    requires Block(v, w).Ok? && o + 4 <= v.bs && lo == Times(w, v.bs) >= BLOCK_MAX + v.bs
    requires v' == v.(data := v'.data) && Bump(v.data, lo + o) == Ok(v'.data)
    ensures BumpedBy(v, v', w, o, piece)
    ensures lo + o + 4 <= |v.data| && Successor(v.data[lo + o..lo + o + 4]) == Ok(piece)
    ensures v'.data == Patch(v.data, lo + o, piece)
  {
    hide LE, Successor, Patch, Bump;
    piece := BumpPiece(v.data, lo + o);
    SliceOfSlice(v.data, lo, lo + v.bs, o, o + 4);
    PatchPlaced(v, v', w, o, lo, piece);
  }

  // --- An inline settings file ---

  /**
   For an inline file the program aims into the root inode's block instead. That is refused by the
   root inode's checksum, as long as the four bytes aimed at lie inside that block, unless the
   second slot was poised for it.
   */
  lemma TornInlineCaught(
      sum: Sum, data: seq<Byte>, want: Option<string>, key: seq<Byte> -> string, want': Option<string>,
      l: Loaded, ino: Inode, data': seq<Byte>)
    returns (at: nat, piece: seq<Byte>)
    requires Notices(sum) && Passes(sum, data, want, key) && Load(sum, data) == Ok(l)
    requires var v := VolumeOf(sum, data, l);
             SettingsInode(v, key) == Ok(ino) && ino.inlineLen != 0 && INODE_SIZE + ino.size <= v.bs
    requires Damage(sum, data, Torn, key) == Ok(data')
    ensures at + 4 <= |data| && at == Times(l.super.root, l.super.blockSize) + INODE_SIZE + ino.size - 4
    ensures Successor(data[at..at + 4]) == Ok(piece) && data' == Patch(data, at, piece)
    ensures Passes(sum, data', want', key) <==>
            Poised(sum, data, at, piece) && VolumePasses(Promoted(sum, data, at, piece), want', key)
    ensures SecondSlotFits(sum, data) ==> !Passes(sum, data', want', key)
  {
    hide Poised, VolumePasses, SecondSlotFits, Patch, LE, ReadInode, Load, Notices, Owners, Passes, SettingsInode,
        Successor;
    PassesParts(sum, data, want, key);
    var v := VolumeOf(sum, data, l);
    RootPlaced(v, want, key);
    DamageTorn(sum, data, l, key);
    at, piece := InlineSpoils(v, Times(v.super.root, v.bs), key, ino, data');
    BadRoot(VolumeOf(sum, data', l), want', key);
    PassesIn(sum, data, at, piece, l, want', key);
  }

  lemma InlineSpoils(v: Volume, lo: nat, key: seq<Byte> -> string, ino: Inode, data': seq<Byte>)
    returns (at: nat, piece: seq<Byte>)
    requires Sized(v) && Notices(v.sum) && ReadInode(v, v.super.root).Ok?
    requires lo == Times(v.super.root, v.bs) >= BLOCK_MAX + v.bs
    requires SettingsInode(v, key) == Ok(ino) && ino.inlineLen != 0 && INODE_SIZE + ino.size <= v.bs
    requires TornDamage(v, key) == Ok(data')
    ensures at == lo + INODE_SIZE + ino.size - 4 && at + 4 <= |v.data|
    ensures Successor(v.data[at..at + 4]) == Ok(piece) && data' == Patch(v.data, at, piece)
    ensures ReadInode(v.(data := data'), v.super.root).Bad?
  {
    hide LE, ReadInode, SettingsInode, Bump, Successor, Patch, Notices;
    var o := INODE_SIZE + ino.size - 4;
    InlineAims(v, ino, lo + o);
    TornDamageIs(v, key, ino, lo + o);
    at := lo + o;
    piece := RootBumped(v, lo, o, data');
  }

  lemma InlineAims(v: Volume, ino: Inode, at: nat)
    requires Sized(v) && |ino.direct| == DIRECT && ino.inlineLen != 0
    requires at == Times(v.super.root, v.bs) + INODE_SIZE + ino.size - 4
    ensures TornAt(v, ino) == Ok(at as int)
  {
  }

  lemma RootBumped(v: Volume, lo: nat, o: nat, data': seq<Byte>) returns (piece: seq<Byte>)
    requires Sized(v) && Notices(v.sum) && ReadInode(v, v.super.root).Ok?
    requires lo == Times(v.super.root, v.bs) >= BLOCK_MAX + v.bs && INODE_CSUM + 4 <= o && o + 4 <= v.bs
    requires Bump(v.data, lo + o) == Ok(data')
    ensures lo + o + 4 <= |v.data| && Successor(v.data[lo + o..lo + o + 4]) == Ok(piece)
    ensures data' == Patch(v.data, lo + o, piece) && ReadInode(v.(data := data'), v.super.root).Bad?
  {
    hide LE, ReadInode, Notices;
    piece := BumpPiece(v.data, lo + o);
    InodeChange(v, v.(data := data'), v.super.root, lo, o, piece);
  }
}

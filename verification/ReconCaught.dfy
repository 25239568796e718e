/**
 Why the damage is noticed. The proofs use what a clean verdict established, that
 superblocks, owner table and tree share no block, to show that the damage leaves
 everything else as it was.
 */
module ReconCaught {
  import opened Bytes
  import Crc
  import opened Arith
  import opened ReconImage
  import opened ReconTree
  import opened ReconVerdict
  import opened ReconCheck
  import opened ReconDamage

  // --- What a clean verdict says about particular blocks ---

  lemma MarkKeeps(held: seq<nat>, cs: seq<Claim>, b: nat)
    requires Fits(held, cs) && b < |held| && held[b] != 0
    ensures Mark(held, cs)[b] == held[b]
    decreases |cs|
  {
    if cs != [] { MarkKeeps(held[cs[0].blk := cs[0].owner], cs[1..], b); }
  }

  /** A block claimed for somebody is entered under that owner, whatever is claimed after. */
  lemma {:induction false} MarkEnters(held: seq<nat>, cs: seq<Claim>, i: nat)
    requires Fits(held, cs) && i < |cs| && cs[i].owner != 0
    ensures cs[i].blk < |held| && Mark(held, cs)[cs[i].blk] == cs[i].owner
    decreases |cs|
  {
    var next := held[cs[0].blk := cs[0].owner];
    if i == 0 { MarkKeeps(next, cs[1..], cs[0].blk); } else { MarkEnters(next, cs[1..], i - 1); }
  }

  /** The root is a block of its own, past the superblocks, and the table enters it as the archive's. */
  lemma RootEntered(v: View, owners: seq<nat>)
    requires |owners| == v.total && Accepted(v, owners)
    ensures v.reserved <= v.root < v.total && owners[v.root] == OWNER_ARCHIVE
  {
    var table, tree := AcceptedTrees(v, owners);
    var cs := AllClaims(v, table, tree);
    var k := |SuperClaims(v) + TableClaims(table)|;
    assert cs[k] == Claim(v.root, OWNER_ARCHIVE);
    MarkEnters(Unclaimed(v.total), cs, k);
    FitsMeans(Unclaimed(v.total), cs);
    assert forall b :: 0 <= b < |SuperClaims(v)| ==> cs[b] == Claim(b, OWNER_ARCHIVE);
  }

  lemma DistinctAppend(a: seq<Claim>, c: seq<Claim>)
    requires Distinct(a + c)
    ensures Distinct(a) && Distinct(c) && forall b: nat :: Claims(a, b) ==> !Claims(c, b)
  {
    var all := a + c;
    forall i, j | 0 <= i < j < |c| ensures c[i].blk != c[j].blk {
      assert all[|a| + i] == c[i] && all[|a| + j] == c[j];
    }
    forall i, j | 0 <= i < j < |a| ensures a[i].blk != a[j].blk { assert all[i] == a[i] && all[j] == a[j]; }
    forall i, j | 0 <= i < |a| && 0 <= j < |c| ensures a[i].blk != c[j].blk {
      assert all[i] == a[i] && all[|a| + j] == c[j];
    }
  }

  /** Superblocks and owner table never share a block, whatever the dossiers. */
  lemma TableApart(v: View, table: Table, tree: Tree)
    requires Fits(Unclaimed(v.total), AllClaims(v, table, tree))
    ensures Distinct(TableClaims(table))
    ensures forall b: nat :: Claims(TableClaims(table), b) ==> v.reserved <= b < v.total
  {
    var cs := SuperClaims(v) + TableClaims(table);
    FitsAppend(Unclaimed(v.total), cs, TreeClaims(tree, OWNER_ARCHIVE));
    TableOwners(table);
    FitsDistinct(Unclaimed(v.total), cs);
    DistinctAppend(SuperClaims(v), TableClaims(table));
    forall b: nat | Claims(TableClaims(table), b) ensures v.reserved <= b < v.total {
      var i :| 0 <= i < |TableClaims(table)| && TableClaims(table)[i].blk == b;
      assert cs[|SuperClaims(v)| + i].blk == b;
      assert b < |SuperClaims(v)| ==> SuperClaims(v)[b].blk == b;
    }
  }

  // --- Descending a table of which one leaf was changed ---

  lemma {:induction false} NonZeroHas(slots: seq<nat>, i: nat)
    requires i < |slots| && slots[i] != 0
    ensures slots[i] in NonZero(slots)
  {
    if i > 0 { NonZeroHas(slots[1..], i - 1); }
  }

  /** Following digits ends inside the table, and goes the same way when only that last block has changed. */
  lemma {:induction false} FollowInTable(v: Volume, v': Volume, t: Table, node: nat, digits: seq<nat>, leaf: nat,
      w: nat)
    requires Sized(v) && IsTable(ViewOf(v), t, node, |digits|) && Distinct(TableClaims(t))
    requires Follow(v, node, digits) == Ok(leaf) && SameBut(v, v', w)
    requires w == leaf || !Claims(TableClaims(t), w)
    ensures Claims(TableClaims(t), leaf) && Follow(v', node, digits) == Ok(leaf)
    decreases t, 1
  {
    var first, below := [Claim(t.blk, OWNER_ARCHIVE)], TablesClaims(t.kids);
    assert TableClaims(t)[0].blk == node;
    if digits != [] {
      var slots := Index(v, node).value;
      assert ViewOf(v).index(node) == Ok(slots);
      NonZeroHas(slots, digits[0]);
      DistinctAppend(first, below);
      forall b: nat ensures Claims(TableClaims(t), b) <==> b == node || Claims(below, b) {
        ClaimsAppend(first, below, b);
        if b == node { assert first[0].blk == b; }
      }
      FollowInTables(v, v', t.kids, NonZero(slots), slots[digits[0]], digits[1..], leaf, w);
      assert Claims(first, node) by { assert first[0].blk == node; }
      assert w != node;
    }
  }

  lemma {:induction false} FollowInTables(v: Volume, v': Volume, ts: seq<Table>, nodes: seq<nat>, node: nat,
                                          digits: seq<nat>, leaf: nat, w: nat)
    requires Sized(v) && AreTables(ViewOf(v), ts, nodes, |digits|) && Distinct(TablesClaims(ts)) && node in nodes
    requires Follow(v, node, digits) == Ok(leaf) && SameBut(v, v', w)
    requires w == leaf || !Claims(TablesClaims(ts), w)
    ensures Claims(TablesClaims(ts), leaf) && Follow(v', node, digits) == Ok(leaf)
    decreases ts, 0
  {
    var head, rest := TableClaims(ts[0]), TablesClaims(ts[1..]);
    DistinctAppend(head, rest);
    ClaimsAppend(head, rest, leaf);
    ClaimsAppend(head, rest, w);
    if node == nodes[0] {
      FollowInTable(v, v', ts[0], node, digits, leaf, w);
    } else {
      FollowInTables(v, v', ts[1..], nodes[1..], node, digits, leaf, w);
    }
  }

  // --- A changed inode is refused ---

  lemma PatchTwice(buf: seq<Byte>, a: nat, x: seq<Byte>, b: nat, y: seq<Byte>)
    requires a + |x| <= b && b + |y| <= |buf|
    ensures Patch(Patch(buf, b, y), a, x) == Patch(Patch(buf, a, x), b, y)
    ensures Patch(buf, b, y)[a..a + |x|] == buf[a..a + |x|]
    ensures Patch(buf, a, x)[b..b + |y|] == buf[b..b + |y|]
  {
  }

  /** The checksum of the format is one that notices. */
  lemma Crc32Notices()
    ensures Notices(Crc.Matches)
  {
    forall m: seq<Byte>, stored: seq<Byte>, at: nat, piece: seq<Byte>
      | Alters(m, at, piece) && Crc.Matches(m, stored)
      ensures !Crc.Matches(Patch(m, at, piece), stored)
    {
      Crc.CrcNotices(m, at, piece);
      Crc.MatchesBreaks(m, Patch(m, at, piece), stored);
    }
  }

  /** Any change to an inode's block that is one byte, or inside four in a row, past its checksum field, is noticed. */
  lemma ChangedInodeRefused(sum: Sum, buf: seq<Byte>, at: nat, piece: seq<Byte>)
    requires Notices(sum) && |buf| >= BLOCK_MIN && ChecksumOk(sum, buf, INODE_CSUM)
    requires INODE_CSUM + 4 <= at && at + |piece| <= |buf| && buf[at..at + |piece|] != piece
    requires |piece| == 1 || |piece| == 4
    ensures !ChecksumOk(sum, Patch(buf, at, piece), INODE_CSUM)
  {
    PatchTwice(buf, INODE_CSUM, ZERO4, at, piece);
    assert Alters(Patch(buf, INODE_CSUM, ZERO4), at, piece);
  }

  /** `inode` refuses a block so changed. */
  lemma InodeRefused(v: Volume, v': Volume, n: nat, o: nat, piece: seq<Byte>)
    requires Sized(v) && Notices(v.sum) && v'.bs == v.bs && v'.sum == v.sum && ReadInode(v, n).Ok?
    requires INODE_CSUM + 4 <= o && o + |piece| <= v.bs && (|piece| == 1 || |piece| == 4)
    requires Block(v, n).value[o..o + |piece|] != piece
    requires Block(v', n) == Ok(Patch(Block(v, n).value, o, piece))
    ensures ReadInode(v', n).Bad?
  {
    ChangedInodeRefused(v.sum, Block(v, n).value, o, piece);
  }

  // --- From volumes to images ---

  /** The volume the damaged image is loaded as, when the second slot was poised. */
  ghost function Promoted(sum: Sum, data: seq<Byte>, at: nat, piece: seq<Byte>): (v: Volume)
    requires at + |piece| <= |data| && Poised(sum, data, at, piece)
    ensures Sized(v)
  {
    VolumeOf(sum, Patch(data, at, piece), Loaded(ParseSuper(SecondHead(data).value), BLOCK_MAX))
  }

  /**
   An image damaged past its superblocks passes exactly when the volume with the new bytes does,
   or, where the second slot was poised, when the volume of that slot does.
   */
  lemma PassesIn(sum: Sum, data: seq<Byte>, at: nat, piece: seq<Byte>, l: Loaded, want: Option<string>,
      key: seq<Byte> -> string)
    requires Load(sum, data) == Ok(l) && BLOCK_MAX + l.super.blockSize <= at && at + |piece| <= |data|
    ensures SecondSlotFits(sum, data) ==> !Poised(sum, data, at, piece)
    ensures Passes(sum, Patch(data, at, piece), want, key) <==>
            if Poised(sum, data, at, piece) then VolumePasses(Promoted(sum, data, at, piece), want, key)
            else VolumePasses(VolumeOf(sum, Patch(data, at, piece), l), want, key)
  {
    hide SecondSlotFits, Poised, VolumePasses, Patch, Plausible, ParseSuper;
    if SecondSlotFits(sum, data) { SecondSlotSettles(sum, data, at, piece); }
    LoadMoves(sum, data, at, piece, l.super.blockSize);
    PassesParts(sum, Patch(data, at, piece), want, key);
  }

  /** What passing says about the root inode. */
  lemma RootPlaced(v: Volume, want: Option<string>, key: seq<Byte> -> string)
    requires Sized(v) && VolumePasses(v, want, key)
    ensures Times(v.super.root, v.bs) >= BLOCK_MAX + v.bs && v.super.root < v.super.total
    ensures ReadInode(v, v.super.root).Ok? && Owners(v).value[v.super.root] == OWNER_ARCHIVE
  {
    RootEntered(ViewOf(v), Owners(v).value);
    PastSupers(v.bs, v.super.root);
  }

  lemma BadRoot(v: Volume, want: Option<string>, key: seq<Byte> -> string)
    requires Sized(v) && ReadInode(v, v.super.root).Bad?
    ensures !VolumePasses(v, want, key)
  {
  }

  lemma PatchedBlock(v: Volume, n: nat, lo: nat, o: nat, piece: seq<Byte>)
    requires Block(v, n).Ok? && lo == Times(n, v.bs) && o + |piece| <= v.bs
    requires lo + o + |piece| <= |v.data| && v.data[lo + o..lo + o + |piece|] != piece
    ensures Block(v, n).value[o..o + |piece|] != piece
    ensures Block(v.(data := Patch(v.data, lo + o, piece)), n) == Ok(Patch(Block(v, n).value, o, piece))
  {
    PatchBlock(v, n, lo, o, piece);
    SliceOfSlice(v.data, lo, lo + v.bs, o, o + |piece|);
  }

  lemma InodeChange(v: Volume, v': Volume, n: nat, lo: nat, o: nat, piece: seq<Byte>)
    requires Sized(v) && Notices(v.sum) && ReadInode(v, n).Ok? && lo == Times(n, v.bs)
    requires INODE_CSUM + 4 <= o && o + |piece| <= v.bs && (|piece| == 1 || |piece| == 4)
    requires lo + o + |piece| <= |v.data| && v.data[lo + o..lo + o + |piece|] != piece
    requires v' == v.(data := Patch(v.data, lo + o, piece))
    ensures ReadInode(v', n).Bad?
  {
    PatchedBlock(v, n, lo, o, piece);
    InodeRefused(v, v', n, o, piece);
  }

  // --- checksum ---

  lemma ChecksumAims(v: Volume, key: seq<Byte> -> string, at: nat) returns (piece: seq<Byte>)
    requires Sized(v) && at == Times(v.super.root, v.bs) + CHECKSUM_BYTE < |v.data|
    ensures piece == [255 - v.data[at]] && v.data[at..at + 1] != piece
    ensures DamageVolume(v, Checksum, key) == Ok(Patch(v.data, at, piece))
  {
    var b, c := v.data[at], 255 - v.data[at];
    piece := [c];
    assert v.data[at..at + 1] == [b];
    FlipIsPatch(v.data, at, c);
  }

  /**
   The `checksum` mode, exactly: from an image that passes, the result passes if and only if the
   second slot was poised for that very byte and the volume it names passes too.
   */
  lemma ChecksumCaught(sum: Sum, data: seq<Byte>, want: Option<string>, key: seq<Byte> -> string, want': Option<string>)
    returns (at: nat, piece: seq<Byte>)
    requires Notices(sum) && Passes(sum, data, want, key)
    ensures Load(sum, data).Ok? && at + |piece| <= |data|
    ensures var l := Load(sum, data).value;
            at == Times(l.super.root, l.super.blockSize) + CHECKSUM_BYTE < |data| && piece == [255 - data[at]]
    ensures Damage(sum, data, Checksum, key) == Ok(Patch(data, at, piece))
    ensures Passes(sum, Patch(data, at, piece), want', key) <==>
            Poised(sum, data, at, piece) && VolumePasses(Promoted(sum, data, at, piece), want', key)
    ensures SecondSlotFits(sum, data) ==> !Passes(sum, Patch(data, at, piece), want', key)
  {
    hide Poised, VolumePasses, SecondSlotFits, Patch, LE, ReadInode, Load, DamageVolume, Notices, Owners, Passes;
    PassesParts(sum, data, want, key);
    var l := Load(sum, data).value;
    var v := VolumeOf(sum, data, l);
    RootPlaced(v, want, key);
    at := Times(v.super.root, v.bs) + CHECKSUM_BYTE;
    piece := ChecksumSpoils(v, at - CHECKSUM_BYTE, key);
    BadRoot(VolumeOf(sum, Patch(data, at, piece), l), want', key);
    PassesIn(sum, data, at, piece, l, want', key);
  }

  lemma RootInside(v: Volume, lo: nat)
    requires Sized(v) && ReadInode(v, v.super.root).Ok? && lo == Times(v.super.root, v.bs)
    ensures lo + v.bs <= |v.data| && v.bs >= BLOCK_MIN
  {
    hide LE;
  }

  lemma ChecksumSpoils(v: Volume, lo: nat, key: seq<Byte> -> string) returns (piece: seq<Byte>)
    requires Sized(v) && Notices(v.sum) && ReadInode(v, v.super.root).Ok?
    requires lo == Times(v.super.root, v.bs) >= BLOCK_MAX + v.bs
    ensures lo + CHECKSUM_BYTE < |v.data| && piece == [255 - v.data[lo + CHECKSUM_BYTE]]
    ensures DamageVolume(v, Checksum, key) == Ok(Patch(v.data, lo + CHECKSUM_BYTE, piece))
    ensures ReadInode(v.(data := Patch(v.data, lo + CHECKSUM_BYTE, piece)), v.super.root).Bad?
  {
    RootInside(v, lo);
    hide LE, Patch, ReadInode, Notices, DamageVolume;
    var at := lo + CHECKSUM_BYTE;
    piece := ChecksumAims(v, key, at);
    InodeChange(v, v.(data := Patch(v.data, at, piece)), v.super.root, lo, CHECKSUM_BYTE, piece);
  }

  // --- unallocated ---

  /** Writing eight zero bytes over slot i of a block makes word i zero. */
  lemma WordCleared(buf: seq<Byte>, i: nat, piece: seq<Byte>)
    requires 8 * i + 8 <= |buf| && |piece| == 8 && LE(piece) == 0
    ensures i < |Words(buf)| && Words(Patch(buf, 8 * i, piece))[i] == 0
  {
  }

  /** Each leaf the table leads to is one of the table's own blocks, past the superblocks. */
  lemma TableLeaf(v: Volume, v': Volume, owners: seq<nat>, i: nat, leaf: nat)
    requires Sized(v) && |owners| == v.super.total && Accepted(ViewOf(v), owners)
    requires LeafBlock(v, i) == Ok(leaf) && SameBut(v, v', leaf)
    ensures Reserved(v.bs) <= leaf < v.super.total && LeafBlock(v', i) == Ok(leaf)
  {
    var table, tree := AcceptedTrees(ViewOf(v), owners);
    TableApart(ViewOf(v), table, tree);
    FollowInTable(v, v', table, v.super.tableRoot, Digits(i, PerIndex(v), v.super.tableDepth), leaf, leaf);
  }

  lemma LeafCleared(v: Volume, v': Volume, owners: seq<nat>, leaf: nat, q: nat, i: nat, piece: seq<Byte>)
    requires Sized(v) && |owners| == v.super.total && Accepted(ViewOf(v), owners)
    requires LeafBlock(v, q) == Ok(leaf) && Block(v, leaf).Ok? && |piece| == 8 && LE(piece) == 0
    requires SameBut(v, v', leaf) && i < PerIndex(v)
    requires Block(v', leaf) == Ok(Patch(Block(v, leaf).value, 8 * i, piece))
    ensures Times(leaf, v.bs) >= BLOCK_MAX + v.bs && SlotAt(v', q, i) == Ok(0)
  {
    TableLeaf(v, v', owners, q, leaf);
    PastSupers(v.bs, leaf);
    WordCleared(Block(v, leaf).value, i, piece);
  }

  lemma BlockFits(v: Volume, n: nat)
    requires Block(v, n).Ok?
    ensures Times(n, v.bs) + v.bs <= |v.data| && |Block(v, n).value| == v.bs
  {
  }

  lemma SlotFits(v: Volume, i: nat)
    requires Sized(v)
    ensures i < PerIndex(v) ==> 8 * i + 8 <= v.bs
    ensures Rem(v.super.root, PerIndex(v)) < PerIndex(v)
  {
  }

  lemma UnallocatedSpoils(v: Volume, want: Option<string>, key: seq<Byte> -> string, want': Option<string>,
                          leaf: nat, q: nat, i: nat, at: nat, piece: seq<Byte>)
    requires Sized(v) && VolumePasses(v, want, key) && |piece| == 8 && LE(piece) == 0
    requires q == Quot(v.super.root, PerIndex(v)) && i == Rem(v.super.root, PerIndex(v))
    requires LeafBlock(v, q) == Ok(leaf) && Block(v, leaf).Ok? && at == Times(leaf, v.bs) + 8 * i
    ensures BLOCK_MAX + v.bs <= at && at + |piece| <= |v.data|
    ensures !VolumePasses(v.(data := Patch(v.data, at, piece)), want', key)
  {
    hide LE, LeafBlock, Accepted, SlotAt, Block, FoundIn;
    BlockFits(v, leaf);
    SlotFits(v, i);
    var v' := v.(data := Patch(v.data, at, piece));
    PatchPlaced(v, v', leaf, 8 * i, Times(leaf, v.bs), piece);
    LeafCleared(v, v', Owners(v).value, leaf, q, i, piece);
    RootVoid(v', want', key);
  }

  lemma RootVoid(v: Volume, want: Option<string>, key: seq<Byte> -> string)
    requires Sized(v) && EntryAt(v, v.super.root) == Ok(0)
    ensures !VolumePasses(v, want, key)
  {
    if VolumePasses(v, want, key) {
      RootPlaced(v, want, key);
    }
  }

  lemma UnallocatedAims(v: Volume, key: seq<Byte> -> string, leaf: nat, q: nat, i: nat, at: nat, piece: seq<Byte>)
    requires Sized(v) && q == Quot(v.super.root, PerIndex(v)) && i == Rem(v.super.root, PerIndex(v))
    requires LeafBlock(v, q) == Ok(leaf) && at == Times(leaf, v.bs) + 8 * i && at + 8 <= |v.data|
    requires piece == PackLE(OWNER_VOID, ENTRY_BYTES)
    ensures DamageVolume(v, Unallocated, key) == Ok(Patch(v.data, at, piece))
  {
  }

  lemma RootLeaf(v: Volume, want: Option<string>, key: seq<Byte> -> string, q: nat, i: nat) returns (leaf: nat)
    requires Sized(v) && VolumePasses(v, want, key)
    requires q == Quot(v.super.root, PerIndex(v)) && i == Rem(v.super.root, PerIndex(v))
    ensures LeafBlock(v, q) == Ok(leaf) && Block(v, leaf).Ok?
  {
    RootPlaced(v, want, key);
    assert EntryAt(v, v.super.root).Ok?;
    leaf := LeafBlock(v, q).value;
  }

  /** The `unallocated` mode, exactly, in the same way: eight zero bytes over the root's entry in its leaf. */
  lemma UnallocatedCaught(sum: Sum, data: seq<Byte>, want: Option<string>, key: seq<Byte> -> string,
      want': Option<string>)
    returns (at: nat, piece: seq<Byte>)
    requires Passes(sum, data, want, key)
    ensures at + |piece| <= |data| && piece == PackLE(OWNER_VOID, ENTRY_BYTES) && Load(sum, data).Ok?
    ensures var v := VolumeOf(sum, data, Load(sum, data).value);
            var leaf := LeafBlock(v, Quot(v.super.root, PerIndex(v)));
            leaf.Ok? && at == Times(leaf.value, v.bs) + 8 * Rem(v.super.root, PerIndex(v))
    ensures Damage(sum, data, Unallocated, key) == Ok(Patch(data, at, piece))
    ensures Passes(sum, Patch(data, at, piece), want', key) <==>
            Poised(sum, data, at, piece) && VolumePasses(Promoted(sum, data, at, piece), want', key)
    ensures SecondSlotFits(sum, data) ==> !Passes(sum, Patch(data, at, piece), want', key)
  {
    PassesParts(sum, data, want, key);
    hide Poised, VolumePasses, SecondSlotFits, Patch;
    var l := Load(sum, data).value;
    var v := VolumeOf(sum, data, l);
    var q, i := Quot(v.super.root, PerIndex(v)), Rem(v.super.root, PerIndex(v));
    piece := PackLE(OWNER_VOID, ENTRY_BYTES);
    UnpackPack(OWNER_VOID, ENTRY_BYTES);
    var leaf := RootLeaf(v, want, key, q, i);
    at := Times(leaf, v.bs) + 8 * i;
    UnallocatedSpoils(v, want, key, want', leaf, q, i, at, piece);
    UnallocatedAims(v, key, leaf, q, i, at, piece);
    PassesIn(sum, data, at, piece, l, want', key);
  }
}

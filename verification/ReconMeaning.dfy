/** What the readers and the verdict come to, said of the image in plain division and remainder. */
module ReconMeaning {
  import opened Bytes
  import Crc
  import opened Arith
  import opened ReconImage
  import opened ReconTree
  import opened ReconVerdict
  import opened ReconCheck
  import ReconCaught

  /** A number written as q blocks of d and r over is what counting finds. */
  lemma Split(k: nat, q: nat, d: nat, r: nat)
    requires r < d && k == q * d + r
    ensures Quot(k, d) == q && Rem(k, d) == r
  {
    TimesIs(q, d);
    DividedOnce(k, q, d, r);
  }

  /** The radix table is a flat array: entry q * per + r is slot r of leaf q, found by the digits of q. */
  lemma OwnersAreFlat(v: Volume, b: nat, q: nat, r: nat, per: nat)
    requires Sized(v) && Owners(v).Ok? && b < v.super.total
    requires per == PerIndex(v) && b == q * per + r && r < per
    ensures |Owners(v).value| == v.super.total
    ensures var leaf := Follow(v, v.super.tableRoot, Digits(q, per, v.super.tableDepth));
            && leaf.Ok? && Index(v, leaf.value).Ok?
            && r < |Index(v, leaf.value).value| && Owners(v).value[b] == Index(v, leaf.value).value[r]
  {
    hide Follow, Digits, Index;
    Split(b, q, per, r);
    assert EntryAt(v, b) == Ok(Owners(v).value[b]);
  }

  /** Reading a file refines its block map: byte n * bs + r is byte r of direct slot n, or of indirect slot n - 12. */
  lemma ContentsAreBlocks(v: Volume, ino: Inode, k: nat, n: nat, r: nat)
    requires Sized(v) && |ino.direct| == DIRECT && ino.inlineLen == 0 && Contents(v, ino).Ok?
    requires k == n * v.bs + r && r < v.bs && k < ino.size
    ensures |Contents(v, ino).value| == ino.size
    ensures n >= DIRECT ==> Index(v, ino.indirect).Ok? && n - DIRECT < |Index(v, ino.indirect).value|
    ensures var where := if n < DIRECT then ino.direct[n] else Index(v, ino.indirect).value[n - DIRECT];
            where != 0 && Block(v, where).Ok? && r < |Block(v, where).value|
                && Contents(v, ino).value[k] == Block(v, where).value[r]
  {
    hide Block, Index;
    Split(k, n, v.bs, r);
    Divided(k, v.bs);
    assert FileBlock(v, ino, n).Ok?;
    assert Contents(v, ino).value[k] == FileByte(v, ino, k);
  }

  /** An inode's block with one byte altered, anywhere outside its checksum field, is refused. */
  lemma InodeRefusesByte(v: Volume, v': Volume, n: nat, k: nat, y: Byte)
    requires Sized(v) && v'.bs == v.bs && v'.sum == v.sum && Notices(v.sum) && ReadInode(v, n).Ok?
    requires k < v.bs && !(INODE_CSUM <= k < INODE_CSUM + 4) && Block(v, n).value[k] != y
    requires Block(v', n) == Ok(Block(v, n).value[k := y])
    ensures ReadInode(v', n).Bad?
  {
    hide LE, ParseInode;
    var buf := Block(v, n).value;
    var buf' := buf[k := y];
    var zeroed := Patch(buf, INODE_CSUM, ZERO4);
    assert buf'[INODE_CSUM..INODE_CSUM + 4] == buf[INODE_CSUM..INODE_CSUM + 4];
    assert zeroed[k] == buf[k];
    assert zeroed[k..k + 1] == [buf[k]];
    assert Alters(zeroed, k, [y]);
    assert Patch(buf', INODE_CSUM, ZERO4) == Patch(zeroed, k, [y]);
  }

  /** The same with the checksum the format uses. */
  lemma InodeRefusesByteUnderCrc(v: Volume, v': Volume, n: nat, k: nat, y: Byte)
    requires Sized(v) && v'.bs == v.bs && v.sum == v'.sum == Crc.Matches && ReadInode(v, n).Ok?
    requires k < v.bs && !(INODE_CSUM <= k < INODE_CSUM + 4) && Block(v, n).value[k] != y
    requires Block(v', n) == Ok(Block(v, n).value[k := y])
    ensures ReadInode(v', n).Bad?
  {
    ReconCaught.Crc32Notices();
    InodeRefusesByte(v, v', n, k, y);
  }

  /**
   The verdict on an image. When the check finds nothing, the superblocks, the owner table
   and the tree share no block, every entry is the owner that reaches the block, and an
   entry is void exactly when nothing does, provided no object is numbered zero.
   */
  lemma PassedImage(sum: Sum, data: seq<Byte>, want: Option<string>, key: seq<Byte> -> string)
    returns (table: Table, tree: Tree)
    requires Passes(sum, data, want, key)
    ensures Load(sum, data).Ok?
    ensures var v := VolumeOf(sum, data, Load(sum, data).value);
            var view := ViewOf(v);
            && Owners(v).Ok? && |Owners(v).value| == view.total
            && IsTable(view, table, view.tableRoot, view.tableDepth) && IsTree(view, tree, view.root, 0, 0)
            && (Numbered(view, view.root) ==>
                  && Distinct(AllClaims(view, table, tree))
                  && (forall i :: 0 <= i < |AllClaims(view, table, tree)| ==>
                        AllClaims(view, table, tree)[i].blk < view.total &&
                        Owners(v).value[AllClaims(view, table, tree)[i].blk] == AllClaims(view, table, tree)[i].owner)
                  && (forall b :: 0 <= b < view.total ==>
                        (Owners(v).value[b] == OWNER_VOID <==>
                         view.reserved <= b && !Claims(TableClaims(table), b) && !Reaches(view, view.root, b))))
  {
    PassesParts(sum, data, want, key);
    var v := VolumeOf(sum, data, Load(sum, data).value);
    hide ViewOf, VolumeOf, IsTable, IsTree, Accepted, Reaches, Numbered, AllClaims;
    PassedVolume(v, want, key);
    table, tree := AcceptedImage(ViewOf(v), Owners(v).value);
  }

  /**
   The verdict on an image is exact: it passes if and only if it loads, its table can be swept and
   its root listed, the wanted file is in order, and it is one owner table and one directory tree
   whose claims fit and leave just what the owner table says.
   */
  lemma ImageExact(sum: Sum, data: seq<Byte>, want: Option<string>, key: seq<Byte> -> string)
    ensures Passes(sum, data, want, key) <==>
            && Load(sum, data).Ok?
            && var v := VolumeOf(sum, data, Load(sum, data).value);
               && Owners(v).Ok? && RootEntries(v).Ok? && FoundIn(v, want, key).problems == []
               && exists table, tree :: HoldsTogether(ViewOf(v), Owners(v).value, table, tree)
  {
    hide Owners, RootEntries, FoundIn, Accepted, HoldsTogether, Passes, Load;
    PassesParts(sum, data, want, key);
    if Load(sum, data).Ok? {
      var v := VolumeOf(sum, data, Load(sum, data).value);
      if Owners(v).Ok? { VerdictExact(ViewOf(v), Owners(v).value); }
    }
  }

  /**
   Completeness for a whole image: a table and a tree of distinct blocks with matching owners, and a
   root that can be listed, get no problem at all.
   */
  lemma ImageComplete(sum: Sum, data: seq<Byte>, l: Loaded, table: Table, tree: Tree, key: seq<Byte> -> string)
    requires Load(sum, data) == Ok(l)
    requires var v := VolumeOf(sum, data, l);
             var view := ViewOf(v);
             && Owners(v).Ok? && RootEntries(v).Ok?
             && IsTable(view, table, view.tableRoot, view.tableDepth) && IsTree(view, tree, view.root, 0, 0)
             && Distinct(AllClaims(view, table, tree))
             && Records(Unclaimed(view.total), AllClaims(view, table, tree), Owners(v).value)
    ensures Passes(sum, data, None, key)
  {
    var v := VolumeOf(sum, data, l);
    CheckerComplete(ViewOf(v), Owners(v).value, table, tree);
    hide Owners, RootEntries, Accepted, IsTable, IsTree, Records, Distinct, Passes, Load, AllClaims;
    PassesParts(sum, data, None, key);
  }

  lemma PassedVolume(v: Volume, want: Option<string>, key: seq<Byte> -> string)
    requires Sized(v) && VolumePasses(v, want, key)
    ensures Owners(v).Ok? && |Owners(v).value| == ViewOf(v).total && Accepted(ViewOf(v), Owners(v).value)
  {
  }

  lemma AcceptedImage(view: View, owners: seq<nat>) returns (table: Table, tree: Tree)
    requires |owners| == view.total && Accepted(view, owners)
    ensures IsTable(view, table, view.tableRoot, view.tableDepth) && IsTree(view, tree, view.root, 0, 0)
    ensures Numbered(view, view.root) ==>
              var cs := AllClaims(view, table, tree);
              && Distinct(cs)
              && (forall i :: 0 <= i < |cs| ==> cs[i].blk < view.total && owners[cs[i].blk] == cs[i].owner)
              && (forall b :: 0 <= b < view.total ==>
                    (owners[b] == OWNER_VOID <==>
                     view.reserved <= b && !Claims(TableClaims(table), b) && !Reaches(view, view.root, b)))
  {
    if Numbered(view, view.root) {
      table, tree := AllocatedExactlyWhenReached(view, owners);
    } else {
      table, tree := CheckerSound(view, owners);
    }
  }
}

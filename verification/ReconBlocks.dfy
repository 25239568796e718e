/**
 Blocks of a ReconFS image written out: superblocks, inodes and table leaves, byte by byte, and
 what the readers make of them.
 */
module ReconBlocks {
  import opened Bytes
  import Crc
  import opened Arith
  import opened ReconImage

  // --- Checksums ---

  /** A way of finding four bytes that a checksum accepts for a message. */
  type Stamp = seq<Byte> -> seq<Byte>

  ghost predicate Stamps(sum: Sum, stamp: Stamp)
  {
    forall m {:trigger stamp(m)} :: |stamp(m)| == 4 && sum(m, stamp(m))
  }

  /** A block with its checksum, taken with the field zero, written into the field. */
  function Sealed(stamp: Stamp, buf: seq<Byte>, off: nat): (r: seq<Byte>)
    requires off + 4 <= |buf| && |stamp(buf)| == 4
    ensures |r| == |buf|
  {
    Patch(buf, off, stamp(buf))
  }

  lemma SealedOk(sum: Sum, stamp: Stamp, buf: seq<Byte>, off: nat)
    requires Stamps(sum, stamp) && off + 4 <= |buf| && buf[off..off + 4] == ZERO4
    ensures ChecksumOk(sum, Sealed(stamp, buf, off), off)
  {
    var r := Sealed(stamp, buf, off);
    assert r[off..off + 4] == stamp(buf);
    SealedBack(buf, off, stamp(buf));
  }

  lemma SealedBack(buf: seq<Byte>, off: nat, piece: seq<Byte>)
    requires off + 4 <= |buf| && buf[off..off + 4] == ZERO4 && |piece| == 4
    ensures Patch(Patch(buf, off, piece), off, ZERO4) == buf
  {
    var r := Patch(Patch(buf, off, piece), off, ZERO4);
    forall i | 0 <= i < |buf| ensures r[i] == buf[i] {
      if off <= i < off + 4 {
        assert r[off..off + 4][i - off] == ZERO4[i - off] == buf[off..off + 4][i - off];
      }
    }
  }

  /** A field the seal does not cover reads as it was. */
  lemma SealedField(stamp: Stamp, buf: seq<Byte>, off: nat, a: nat, b: nat)
    requires off + 4 <= |buf| && |stamp(buf)| == 4 && a <= b <= |buf| && (b <= off || off + 4 <= a)
    ensures Sealed(stamp, buf, off)[a..b] == buf[a..b]
  {
    var r := Sealed(stamp, buf, off);
    forall i | a <= i < b ensures r[i] == buf[i] { }
  }

  /** The checksum of the format, stored. */
  ghost function CrcStamp(m: seq<Byte>): seq<Byte> { Crc.Spelled(Crc.Crc32(m)) }

  lemma CrcStamps()
    ensures Stamps(Crc.Matches, CrcStamp)
  {
    forall m: seq<Byte> ensures |CrcStamp(m)| == 4 && Crc.Matches(m, CrcStamp(m)) { Crc.SpelledMatches(m); }
  }

  // --- Superblocks ---

  function SuperByte(s: Super, i: nat): Byte
  {
    if i < 8 then PackLE(MAGIC, LONG)[i]
    else if i < 12 then PackLE(VERSION, SHORT)[i - 8]
    else if i < 16 then PackLE(s.blockSize, SHORT)[i - 12]
    else if i < 24 then PackLE(s.epoch, LONG)[i - 16]
    else if i < 32 then PackLE(s.total, LONG)[i - 24]
    else if i < 40 then PackLE(s.root, LONG)[i - 32]
    else if i < 48 then PackLE(s.tableRoot, LONG)[i - 40]
    else if i < 52 then PackLE(s.tableDepth, SHORT)[i - 48]
    else 0
  }

  function SuperBlock(s: Super, size: nat): (b: seq<Byte>)
    ensures |b| == size
  {
    seq(size, (i: nat) => SuperByte(s, i))
  }

  ghost predicate SmallSuper(s: Super)
  {
    && IsBlockSize(s.blockSize) && s.epoch < 256 && s.total < 256 && s.root < 256 && s.tableRoot < 256
    && s.tableDepth < 256
  }

  /** A block that starts as written is plausible and parsed as meant. */
  lemma SuperReads(s: Super, head: seq<Byte>)
    requires SmallSuper(s) && |head| == BLOCK_MIN && head[0..52] == SuperBlock(s, 52)
    ensures Plausible(head) && ParseSuper(head) == s
  {
    hide LE, PackLE;
    var h := SuperBlock(s, 52);
    SuperPieces(s);
    assert head[0..8] == h[0..8] && head[8..12] == h[8..12] && head[12..16] == h[12..16];
    assert head[16..24] == h[16..24] && head[24..32] == h[24..32] && head[32..40] == h[32..40];
    assert head[40..48] == h[40..48] && head[48..52] == h[48..52];
    Widths();
    UnpackPack(MAGIC, LONG);
    UnpackPack(VERSION, SHORT);
    UnpackPack(s.blockSize, SHORT);
    UnpackPack(s.epoch, LONG);
    UnpackPack(s.total, LONG);
    UnpackPack(s.root, LONG);
    UnpackPack(s.tableRoot, LONG);
    UnpackPack(s.tableDepth, SHORT);
  }

  lemma SuperPieces(s: Super)
    ensures var h := SuperBlock(s, 52);
            && h[0..8] == PackLE(MAGIC, LONG) && h[8..12] == PackLE(VERSION, SHORT)
            && h[12..16] == PackLE(s.blockSize, SHORT) && h[16..24] == PackLE(s.epoch, LONG)
            && h[24..32] == PackLE(s.total, LONG) && h[32..40] == PackLE(s.root, LONG)
            && h[40..48] == PackLE(s.tableRoot, LONG) && h[48..52] == PackLE(s.tableDepth, SHORT)
  {
    hide PackLE;
  }

  lemma SuperParts(s: Super, size: nat)
    requires size >= BLOCK_MIN
    ensures SuperBlock(s, size)[0..52] == SuperBlock(s, 52)
    ensures SuperBlock(s, size)[SUPER_CSUM..SUPER_CSUM + 4] == ZERO4
  {
    hide PackLE;
  }

  // --- Inodes ---

  /** An inode that is not indirect and uses at most two direct slots, and what follows it in its block. */
  datatype Shape = Shape(dossier: nat, parent: nat, kind: nat, size: nat, inlineLen: nat, first: nat, second: nat,
      tail: seq<Byte>)

  function InodeByte(s: Shape, i: nat): Byte
  {
    if i < 8 then PackLE(INODE_MAGIC, LONG)[i]
    else if i < 16 then PackLE(s.dossier, LONG)[i - 8]
    else if i < 24 then PackLE(s.parent, LONG)[i - 16]
    else if i < 28 then PackLE(s.kind, SHORT)[i - 24]
    else if 40 <= i < 48 then PackLE(s.size, LONG)[i - 40]
    else if 80 <= i < 84 then PackLE(s.inlineLen, SHORT)[i - 80]
    else if 88 <= i < 96 then PackLE(s.first, LONG)[i - 88]
    else if 96 <= i < 104 then PackLE(s.second, LONG)[i - 96]
    else if INODE_SIZE <= i < INODE_SIZE + |s.tail| then s.tail[i - INODE_SIZE]
    else 0
  }

  function InodeBlock(s: Shape, size: nat): (b: seq<Byte>)
    ensures |b| == size
  {
    seq(size, (i: nat) => InodeByte(s, i))
  }

  ghost predicate SmallShape(s: Shape)
  {
    && s.dossier < 256 && s.parent < 256 && s.kind < 256 && s.size < 0x1_0000_0000 && s.inlineLen < 256
    && s.first < 256 && s.second < 256
  }

  lemma InodePieces(s: Shape, size: nat)
    requires size >= BLOCK_MIN
    ensures var b := InodeBlock(s, size);
            && b[0..8] == PackLE(INODE_MAGIC, LONG) && b[8..16] == PackLE(s.dossier, LONG)
            && b[16..24] == PackLE(s.parent, LONG) && b[24..28] == PackLE(s.kind, SHORT)
            && b[40..48] == PackLE(s.size, LONG) && b[80..84] == PackLE(s.inlineLen, SHORT)
            && b[88..96] == PackLE(s.first, LONG) && b[96..104] == PackLE(s.second, LONG)
            && b[INODE_CSUM..INODE_CSUM + 4] == ZERO4
            && (forall i {:trigger b[i]} :: 104 <= i < 192 ==> b[i] == 0)
  {
    hide PackLE;
  }

  /** The sealed block of an inode. */
  function InodeOf(stamp: Stamp, s: Shape, size: nat): (b: seq<Byte>)
    requires size >= BLOCK_MIN && |stamp(InodeBlock(s, size))| == 4
    ensures |b| == size
  {
    Sealed(stamp, InodeBlock(s, size), INODE_CSUM)
  }

  /** The twelve direct slots of such an inode. */
  function Slots(first: nat, second: nat): seq<nat>
  {
    [first, second, 0, 0, 0, 0, 0, 0, 0, 0, 0, 0]
  }

  lemma InodeNumbers(stamp: Stamp, s: Shape, size: nat)
    requires SmallShape(s) && size >= BLOCK_MIN && |stamp(InodeBlock(s, size))| == 4
    ensures var b := InodeOf(stamp, s, size);
            && U64(b, 0) == INODE_MAGIC && U64(b, 8) == s.dossier && U64(b, 16) == s.parent && U32(b, 24) == s.kind
            && U64(b, 40) == s.size && U32(b, 80) == s.inlineLen && U64(b, 88) == s.first && U64(b, 96) == s.second
  {
    hide LE, PackLE, InodeBlock, Sealed;
    var p := InodeBlock(s, size);
    InodePieces(s, size);
    Widths();
    SealedField(stamp, p, INODE_CSUM, 0, 8);
    SealedField(stamp, p, INODE_CSUM, 8, 16);
    SealedField(stamp, p, INODE_CSUM, 16, 24);
    SealedField(stamp, p, INODE_CSUM, 24, 28);
    SealedField(stamp, p, INODE_CSUM, 40, 48);
    SealedField(stamp, p, INODE_CSUM, 80, 84);
    SealedField(stamp, p, INODE_CSUM, 88, 96);
    SealedField(stamp, p, INODE_CSUM, 96, 104);
    UnpackPack(INODE_MAGIC, LONG);
    UnpackPack(s.dossier, LONG);
    UnpackPack(s.parent, LONG);
    UnpackPack(s.kind, SHORT);
    UnpackPack(s.size, LONG);
    UnpackPack(s.inlineLen, SHORT);
    UnpackPack(s.first, LONG);
    UnpackPack(s.second, LONG);
  }

  lemma InodeEmptySlot(stamp: Stamp, s: Shape, size: nat, at: nat)
    requires size >= BLOCK_MIN && |stamp(InodeBlock(s, size))| == 4 && 104 <= at && at + 8 <= 192
    ensures U64(InodeOf(stamp, s, size), at) == 0
  {
    hide PackLE, LE, Sealed;
    var p := InodeBlock(s, size);
    InodePieces(s, size);
    hide InodeBlock;
    SealedField(stamp, p, INODE_CSUM, at, at + 8);
    var z := p[at..at + 8];
    assert forall i :: 0 <= i < |z| ==> z[i] == p[at + i];
    LEZero(z);
  }

  /** The slots of a block, each read on its own. */
  lemma DirectSlots(buf: seq<Byte>, first: nat, second: nat)
    requires |buf| >= BLOCK_MIN && U64(buf, 88) == first && U64(buf, 96) == second
    requires forall k {:trigger 88 + 8 * k} :: 2 <= k < DIRECT ==> U64(buf, 88 + 8 * k) == 0
    ensures Words(buf[INODE_DIRECT_AT..INODE_DIRECT_AT + 8 * DIRECT]) == Slots(first, second)
  {
    hide LE;
    var d := buf[INODE_DIRECT_AT..INODE_DIRECT_AT + 8 * DIRECT];
    var w := Words(d);
    forall k | 0 <= k < DIRECT ensures w[k] == U64(buf, 88 + 8 * k) {
      SliceOfSlice(buf, INODE_DIRECT_AT, INODE_DIRECT_AT + 8 * DIRECT, 8 * k, 8 * k + 8);
    }
    assert w[0] == U64(buf, 88 + 8 * 0) && w[1] == U64(buf, 88 + 8 * 1);
  }

  /** An inode so written is accepted and read as meant. */
  lemma InodeReads(sum: Sum, stamp: Stamp, s: Shape, v: Volume, n: nat)
    requires Sized(v) && v.sum == sum && Stamps(sum, stamp) && SmallShape(s)
    requires |stamp(InodeBlock(s, v.bs))| == 4 && Block(v, n) == Ok(InodeOf(stamp, s, v.bs))
    ensures ReadInode(v, n) == Ok(Inode(s.dossier, s.parent, s.kind, s.size, s.inlineLen, Slots(s.first, s.second), 0,
                                        InodeOf(stamp, s, v.bs)))
  {
    hide LE, PackLE, Words, Block, ChecksumOk, Sealed;
    var buf := InodeOf(stamp, s, v.bs);
    InodeNumbers(stamp, s, v.bs);
    InodePieces(s, v.bs);
    SealedOk(sum, stamp, InodeBlock(s, v.bs), INODE_CSUM);
    hide InodeBlock, InodeOf;
    forall k {:trigger 88 + 8 * k} | 2 <= k < DIRECT ensures U64(buf, 88 + 8 * k) == 0 {
      InodeEmptySlot(stamp, s, v.bs, 88 + 8 * k);
    }
    InodeEmptySlot(stamp, s, v.bs, 184);
    DirectSlots(buf, s.first, s.second);
  }

  lemma {:induction false} NonZeroNone(s: seq<nat>)
    requires forall i :: 0 <= i < |s| ==> s[i] == 0
    ensures NonZero(s) == []
  {
    if s != [] { NonZeroNone(s[1..]); }
  }

  lemma SlotsUsed(first: nat, second: nat)
    ensures NonZero(Slots(first, second)) ==
            (if first == 0 then [] else [first]) + (if second == 0 then [] else [second])
  {
    var s := Slots(first, second);
    var t := s[1..];
    NonZeroNone(t[1..]);
    assert NonZero(t) == (if second == 0 then [] else [second]) + NonZero(t[1..]);
  }

  // --- Table leaves ---

  function LeafByte(words: seq<nat>, i: nat): Byte
  {
    if i / 8 < |words| then PackLE(words[i / 8], LONG)[i % 8] else 0
  }

  function LeafOf(words: seq<nat>, size: nat): (b: seq<Byte>)
    ensures |b| == size
  {
    seq(size, (i: nat) => LeafByte(words, i))
  }

  lemma Eighths(k: nat, j: nat)
    requires j < 8
    ensures (8 * k + j) / 8 == k && (8 * k + j) % 8 == j
  {
  }

  lemma LeafPiece(words: seq<nat>, size: nat, k: nat)
    requires k < |words| && 8 * k + 8 <= size
    ensures LeafOf(words, size)[8 * k..8 * k + 8] == PackLE(words[k], LONG)
  {
    hide PackLE;
    var b := LeafOf(words, size);
    forall j: nat | j < 8 ensures b[8 * k + j] == PackLE(words[k], LONG)[j] { Eighths(k, j); }
    hide LeafOf;
    var piece := b[8 * k..8 * k + 8];
    assert forall j: nat :: j < 8 ==> piece[j] == b[8 * k + j];
  }

  /** A leaf so written has the words it was made of. */
  lemma LeafReads(words: seq<nat>, size: nat, k: nat)
    requires k < |words| && words[k] < 0x1_0000_0000 && 8 * k + 8 <= size
    ensures k < |Words(LeafOf(words, size))| && Words(LeafOf(words, size))[k] == words[k]
  {
    hide LE, PackLE, LeafOf;
    LeafPiece(words, size, k);
    Widths();
    UnpackPack(words[k], LONG);
  }
}

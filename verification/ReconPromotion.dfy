/**
 An image on which the `checksum` damage is overlooked. Two clean volumes share it: one of small
 blocks, which is live, and one of bigger blocks whose superblock covers the first one's root
 inode and was sealed as if the byte that the damage flips were flipped already.
 */
module ReconPromotion {
  import opened Bytes
  import Crc
  import opened Arith
  import opened ReconImage
  import opened ReconTree
  import opened ReconVerdict
  import opened ReconCheck
  import opened ReconDamage
  import opened ReconCaught
  import opened ReconBlocks
  import opened ReconSmall

  const LIVE: Super := Super(4096, 1, 19, 17, 18, 0)
  const OTHER: Super := Super(8192, 2, 12, 11, 10, 0)
  const ROOT: Shape := Shape(1, 0, TYPE_DIR, 0, 0, 0, 0, [])

  const LENGTH: nat := 98304
  const ROOT_AT: nat := 69632
  const LEAF_AT: nat := 73728
  const OTHER_LEAF_AT: nat := 81920
  const OTHER_ROOT_AT: nat := 90112
  const HIT: nat := 69932

  /** What the owner tables say: everything is the archive's, but for one void block of the other volume. */
  function LiveWords(): (w: seq<nat>)
    ensures |w| == 19 && forall b :: 0 <= b < 19 ==> w[b] == OWNER_ARCHIVE
  {
    seq(19, b => OWNER_ARCHIVE)
  }

  function OtherWords(): (w: seq<nat>)
    ensures |w| == 12 && forall b :: 0 <= b < 12 ==> w[b] == if b == 9 then 0 else OWNER_ARCHIVE
  {
    seq(12, b => if b == 9 then 0 else OWNER_ARCHIVE)
  }

  // --- The pieces ---

  function LiveSuper(stamp: Stamp): (b: seq<Byte>)
    requires |stamp(SuperBlock(LIVE, 4096))| == 4
    ensures |b| == 4096
  {
    Sealed(stamp, SuperBlock(LIVE, 4096), SUPER_CSUM)
  }

  function Root(stamp: Stamp): (b: seq<Byte>)
    requires |stamp(InodeBlock(ROOT, 4096))| == 4
    ensures |b| == 4096
  {
    InodeOf(stamp, ROOT, 4096)
  }

  /** The other superblock before it is sealed, with the root inode's block as the damage will leave it. */
  function Covered(root: seq<Byte>): (b: seq<Byte>)
    requires |root| == 4096
    ensures |b| == 8192
  {
    SuperBlock(OTHER, 4096) + root[CHECKSUM_BYTE := 255]
  }

  function OtherSuper(stamp: Stamp, root: seq<Byte>): (b: seq<Byte>)
    requires |root| == 4096 && |stamp(Covered(root))| == 4
    ensures |b| == 4096
  {
    Patch(SuperBlock(OTHER, 4096), SUPER_CSUM, stamp(Covered(root)))
  }

  /** The image has these blocks at these places. */
  ghost predicate Holds(stamp: Stamp, data: seq<Byte>)
  {
    && (forall m {:trigger stamp(m)} :: |stamp(m)| == 4)
    && |data| == LENGTH
    && data[0..4096] == LiveSuper(stamp)
    && data[BLOCK_MAX..ROOT_AT] == OtherSuper(stamp, Root(stamp))
    && data[ROOT_AT..LEAF_AT] == Root(stamp)
    && data[LEAF_AT..LEAF_AT + 4096] == LeafOf(LiveWords(), 4096)
    && data[OTHER_LEAF_AT..OTHER_ROOT_AT] == LeafOf(OtherWords(), 8192)
    && data[OTHER_ROOT_AT..LENGTH] == InodeOf(stamp, ROOT, 8192)
  }

  /** Six pieces laid out, zeros between them. */
  function Lay(a: seq<Byte>, b: seq<Byte>, c: seq<Byte>, d: seq<Byte>, e: seq<Byte>, f: seq<Byte>): (data: seq<Byte>)
    requires |a| == |b| == |c| == |d| == 4096 && |e| == |f| == 8192
    ensures |data| == LENGTH
    ensures data[0..4096] == a && data[BLOCK_MAX..ROOT_AT] == b && data[ROOT_AT..LEAF_AT] == c
    ensures data[LEAF_AT..LEAF_AT + 4096] == d && data[OTHER_LEAF_AT..OTHER_ROOT_AT] == e
    ensures data[OTHER_ROOT_AT..LENGTH] == f
  {
    seq(LENGTH, i requires 0 <= i < LENGTH =>
      if i < 4096 then a[i]
      else if BLOCK_MAX <= i < ROOT_AT then b[i - BLOCK_MAX]
      else if ROOT_AT <= i < LEAF_AT then c[i - ROOT_AT]
      else if LEAF_AT <= i < LEAF_AT + 4096 then d[i - LEAF_AT]
      else if OTHER_LEAF_AT <= i < OTHER_ROOT_AT then e[i - OTHER_LEAF_AT]
      else if OTHER_ROOT_AT <= i then f[i - OTHER_ROOT_AT]
      else 0)
  }

  function Sample(stamp: Stamp): (data: seq<Byte>)
    requires |stamp(SuperBlock(LIVE, 4096))| == 4
    requires |stamp(InodeBlock(ROOT, 4096))| == 4 && |stamp(InodeBlock(ROOT, 8192))| == 4
    requires |stamp(Covered(Root(stamp)))| == 4
  {
    Lay(LiveSuper(stamp), OtherSuper(stamp, Root(stamp)), Root(stamp), LeafOf(LiveWords(), 4096),
        LeafOf(OtherWords(), 8192), InodeOf(stamp, ROOT, 8192))
  }

  lemma SampleHolds(sum: Sum, stamp: Stamp)
    requires Stamps(sum, stamp)
    ensures Holds(stamp, Sample(stamp))
  {
    hide LiveSuper, OtherSuper, Root, LeafOf, InodeOf, SuperBlock, InodeBlock, Covered, Lay;
  }

  // --- Reading the superblocks ---

  lemma Sizes()
    ensures SmallSuper(LIVE) && SmallSuper(OTHER) && IsBlockSize(4096) && IsBlockSize(8192)
  {
    assert PowerOfTwo(1);
    assert PowerOfTwo(8) && PowerOfTwo(64) && PowerOfTwo(512) && PowerOfTwo(4096);
  }

  lemma LiveReads(sum: Sum, stamp: Stamp, data: seq<Byte>)
    requires Stamps(sum, stamp) && |data| == LENGTH && data[0..4096] == LiveSuper(stamp)
    ensures ReadSlot(sum, data, 0) == Ok(Some(LIVE))
  {
    var p := SuperBlock(LIVE, 4096);
    Sizes();
    SuperParts(LIVE, 4096);
    hide SuperBlock, IsBlockSize, Plausible, ParseSuper, LE;
    SealedField(stamp, p, SUPER_CSUM, 0, 52);
    SuperReads(LIVE, data[0..4096]);
    SealedOk(sum, stamp, p, SUPER_CSUM);
    hide Sealed, ChecksumOk;
    SlotIs(sum, data, 0, data[0..4096]);
  }

  /** The head of the other slot, whatever follows it. */
  lemma OtherHead(stamp: Stamp, head: seq<Byte>, root: seq<Byte>)
    requires |root| == 4096 && |stamp(Covered(root))| == 4 && head == OtherSuper(stamp, root)
    ensures Plausible(head) && ParseSuper(head) == OTHER
  {
    var p := SuperBlock(OTHER, 4096);
    Sizes();
    SuperParts(OTHER, 4096);
    hide SuperBlock, IsBlockSize, Plausible, ParseSuper, LE, Covered;
    assert head[0..52] == p[0..52];
    SuperReads(OTHER, head);
  }

  /**
   With its checksum field cleared, the other superblock and what it covers are what was sealed, but
   for that block.
   */
  lemma OtherCleared(stamp: Stamp, root: seq<Byte>, rest: seq<Byte>)
    requires |root| == 4096 == |rest| && |stamp(Covered(root))| == 4
    ensures Patch(OtherSuper(stamp, root) + rest, SUPER_CSUM, ZERO4) == SuperBlock(OTHER, 4096) + rest
    ensures (OtherSuper(stamp, root) + rest)[SUPER_CSUM..SUPER_CSUM + 4] == stamp(Covered(root))
  {
    var p, piece := SuperBlock(OTHER, 4096), stamp(Covered(root));
    SuperParts(OTHER, 4096);
    hide SuperBlock, Covered;
    SealedBack(p, SUPER_CSUM, piece);
    PatchFront(Patch(p, SUPER_CSUM, piece), rest, SUPER_CSUM, ZERO4);
    FrontSlice(Patch(p, SUPER_CSUM, piece), rest, SUPER_CSUM);
  }

  lemma PatchFront(a: seq<Byte>, b: seq<Byte>, at: nat, piece: seq<Byte>)
    requires at + |piece| <= |a|
    ensures Patch(a + b, at, piece) == Patch(a, at, piece) + b
  {
  }

  lemma FrontSlice(a: seq<Byte>, b: seq<Byte>, at: nat)
    requires at + 4 <= |a|
    ensures (a + b)[at..at + 4] == a[at..at + 4]
  {
  }

  /** Sealed for the block as the damage will leave it, the other superblock validates with it and with no other. */
  lemma OtherValidates(sum: Sum, stamp: Stamp, root: seq<Byte>)
    requires Stamps(sum, stamp) && Notices(sum) && |root| == 4096 && root[CHECKSUM_BYTE] == 0
    ensures ChecksumOk(sum, OtherSuper(stamp, root) + root[CHECKSUM_BYTE := 255], SUPER_CSUM)
    ensures !ChecksumOk(sum, OtherSuper(stamp, root) + root, SUPER_CSUM)
  {
    var flipped := root[CHECKSUM_BYTE := 255];
    var c := Covered(root);
    OtherCleared(stamp, root, flipped);
    OtherCleared(stamp, root, root);
    hide SuperBlock, OtherSuper;
    assert sum(c, stamp(c));
    var at := 4096 + CHECKSUM_BYTE;
    assert c[at..at + 1] == [255];
    assert Alters(c, at, [0]);
    assert Patch(c, at, [0]) == SuperBlock(OTHER, 4096) + root;
  }

  // --- The two volumes ---

  lemma RootByte(stamp: Stamp)
    requires |stamp(InodeBlock(ROOT, 4096))| == 4
    ensures Root(stamp)[CHECKSUM_BYTE] == 0
  {
    var p := InodeBlock(ROOT, 4096);
    assert p[CHECKSUM_BYTE] == 0;
  }

  lemma LiveLoads(sum: Sum, stamp: Stamp, data: seq<Byte>)
    requires Stamps(sum, stamp) && Notices(sum) && Holds(stamp, data)
    ensures Load(sum, data) == Ok(Loaded(LIVE, 0))
    ensures HIT < |data| && data[HIT] == 0 && Poised(sum, data, HIT, [255])
  {
    hide LE, PackLE, SuperBlock, InodeBlock, Covered;
    var root := Root(stamp);
    RootByte(stamp);
    LiveReads(sum, stamp, data);
    hide Root, LiveSuper, LeafOf, InodeOf;
    var head := data[BLOCK_MAX..BLOCK_MAX + BLOCK_MIN];
    OtherHead(stamp, head, root);
    OtherValidates(sum, stamp, root);
    hide OtherSuper, Plausible, ParseSuper, ChecksumOk, LE;
    JoinAt(data, BLOCK_MAX, ROOT_AT, LEAF_AT);
    SlotIs(sum, data, BLOCK_MAX, head);
    assert data[HIT] == data[ROOT_AT..LEAF_AT][CHECKSUM_BYTE];
    var data' := Patch(data, HIT, [255]);
    JoinAt(data', BLOCK_MAX, ROOT_AT, LEAF_AT);
    assert data'[BLOCK_MAX..ROOT_AT] == data[BLOCK_MAX..ROOT_AT];
    assert data'[ROOT_AT..LEAF_AT] == root[CHECKSUM_BYTE := 255];
  }

  lemma JoinAt(data: seq<Byte>, a: nat, b: nat, c: nat)
    requires a <= b <= c <= |data|
    ensures data[a..c] == data[a..b] + data[b..c]
  {
  }

  /** Either volume, read off its root inode and its leaf. */
  lemma Clean(sum: Sum, stamp: Stamp, v: Volume, words: seq<nat>, key: seq<Byte> -> string)
    requires Sized(v) && v.sum == sum && Stamps(sum, stamp) && v.super.tableDepth == 0 && |words| <= PerIndex(v)
    requires Block(v, v.super.root) == Ok(InodeOf(stamp, ROOT, v.bs))
    requires Block(v, v.super.tableRoot) == Ok(LeafOf(words, v.bs))
    requires Few(ViewOf(v), [Claim(v.super.tableRoot, OWNER_ARCHIVE), Claim(v.super.root, OWNER_ARCHIVE)], words)
    requires forall b :: 0 <= b < |words| ==> words[b] < 256
    ensures VolumePasses(v, None, key)
  {
    hide Block, LeafOf, InodeOf, Few, ReadInode, Owners, VolumePasses;
    FewTotal(v, words);
    OneLeaf(v, words);
    InodeReads(sum, stamp, ROOT, v, v.super.root);
    EmptyPasses(v, ReadInode(v, v.super.root).value, words, key);
  }

  lemma FewTotal(v: Volume, words: seq<nat>)
    requires Sized(v)
    requires Few(ViewOf(v), [Claim(v.super.tableRoot, OWNER_ARCHIVE), Claim(v.super.root, OWNER_ARCHIVE)], words)
    ensures |words| == v.super.total
  {
  }

  lemma ReservedRuns()
    ensures Reserved(4096) == 17 && Reserved(8192) == 9
  {
    TimesIs(16, 4096);
    DividedOnce(BLOCK_MAX, 16, 4096, 0);
    TimesIs(8, 8192);
    DividedOnce(BLOCK_MAX, 8, 8192, 0);
  }

  lemma LiveClean(sum: Sum, stamp: Stamp, data: seq<Byte>, key: seq<Byte> -> string)
    requires Stamps(sum, stamp) && Holds(stamp, data)
    ensures Sized(Volume(sum, data, 4096, LIVE)) && VolumePasses(Volume(sum, data, 4096, LIVE), None, key)
  {
    var v := Volume(sum, data, 4096, LIVE);
    Sizes();
    ReservedRuns();
    TimesIs(17, 4096);
    TimesIs(18, 4096);
    var few := [Claim(18, OWNER_ARCHIVE), Claim(17, OWNER_ARCHIVE)];
    assert few[0].blk == 18 && few[1].blk == 17;
    hide LeafOf, InodeOf, LiveSuper, OtherSuper, Reserved, IsBlockSize, LiveWords;
    Clean(sum, stamp, v, LiveWords(), key);
  }

  lemma OtherClean(sum: Sum, stamp: Stamp, data: seq<Byte>, data': seq<Byte>, key: seq<Byte> -> string)
    requires Stamps(sum, stamp) && Holds(stamp, data) && |data'| == LENGTH
    requires data'[OTHER_LEAF_AT..LENGTH] == data[OTHER_LEAF_AT..LENGTH]
    ensures Sized(Volume(sum, data', 8192, OTHER)) && VolumePasses(Volume(sum, data', 8192, OTHER), None, key)
  {
    var v := Volume(sum, data', 8192, OTHER);
    Sizes();
    ReservedRuns();
    TimesIs(11, 8192);
    TimesIs(10, 8192);
    var few := [Claim(10, OWNER_ARCHIVE), Claim(11, OWNER_ARCHIVE)];
    assert few[0].blk == 10 && few[1].blk == 11;
    var span := OTHER_ROOT_AT - OTHER_LEAF_AT;
    SliceOfSlice(data', OTHER_LEAF_AT, LENGTH, 0, span);
    SliceOfSlice(data, OTHER_LEAF_AT, LENGTH, 0, span);
    SliceOfSlice(data', OTHER_LEAF_AT, LENGTH, span, LENGTH - OTHER_LEAF_AT);
    SliceOfSlice(data, OTHER_LEAF_AT, LENGTH, span, LENGTH - OTHER_LEAF_AT);
    hide LeafOf, InodeOf, LiveSuper, OtherSuper, Reserved, IsBlockSize, OtherWords;
    Clean(sum, stamp, v, OtherWords(), key);
  }

  // --- Overlooked ---

  /** The image passes, the damage is done as asked, and the damaged image passes. */
  lemma Overlooked(sum: Sum, stamp: Stamp, key: seq<Byte> -> string) returns (data: seq<Byte>, data': seq<Byte>)
    requires Stamps(sum, stamp) && Notices(sum)
    ensures Passes(sum, data, None, key) && Damage(sum, data, Checksum, key) == Ok(data')
            && Passes(sum, data', None, key)
  {
    hide VolumePasses, Passes, Load, Holds, Damage, Notices, Stamps, IsBlockSize, Poised, Patch, Lay, Promoted;
    SampleStamped(sum, stamp);
    data := Sample(stamp);
    SampleHolds(sum, stamp);
    HoldsLength(stamp, data);
    LivePasses(sum, stamp, data, key);
    LiveLoads(sum, stamp, data);
    var at, piece := ChecksumCaught(sum, data, None, key, None);
    TimesIs(17, 4096);
    data' := Patch(data, at, piece);
    OverlookedAfter(sum, stamp, data, at, piece, key);
  }

  lemma SampleStamped(sum: Sum, stamp: Stamp)
    requires Stamps(sum, stamp)
    ensures |stamp(SuperBlock(LIVE, 4096))| == 4
    ensures |stamp(InodeBlock(ROOT, 4096))| == 4 && |stamp(InodeBlock(ROOT, 8192))| == 4
    ensures |stamp(Covered(Root(stamp)))| == 4
  {
  }

  lemma HoldsLength(stamp: Stamp, data: seq<Byte>)
    requires Holds(stamp, data)
    ensures |data| == LENGTH
  {
  }

  lemma LivePasses(sum: Sum, stamp: Stamp, data: seq<Byte>, key: seq<Byte> -> string)
    requires Stamps(sum, stamp) && Notices(sum) && Holds(stamp, data)
    ensures Passes(sum, data, None, key)
  {
    hide VolumePasses, Passes, Load, Holds, Notices, Stamps, Poised;
    LiveLoads(sum, stamp, data);
    LiveClean(sum, stamp, data, key);
    PassesParts(sum, data, None, key);
  }

  lemma OverlookedAfter(sum: Sum, stamp: Stamp, data: seq<Byte>, at: nat, piece: seq<Byte>, key: seq<Byte> -> string)
    requires Stamps(sum, stamp) && Holds(stamp, data) && at == HIT && piece == [255]
    requires |data| == LENGTH && Poised(sum, data, at, piece)
    ensures VolumePasses(Promoted(sum, data, at, piece), None, key)
  {
    var data' := Patch(data, at, piece);
    OtherHead(stamp, data[BLOCK_MAX..ROOT_AT], Root(stamp));
    assert data'[OTHER_LEAF_AT..LENGTH] == data[OTHER_LEAF_AT..LENGTH];
    OtherClean(sum, stamp, data, data', key);
    hide Patch, VolumePasses, Poised, Plausible, ParseSuper;
  }

  /** So it is under CRC-32: the negative control can report a healthy volume. */
  lemma OverlookedUnderCrc(key: seq<Byte> -> string) returns (data: seq<Byte>, data': seq<Byte>)
    ensures Passes(Crc.Matches, data, None, key)
    ensures Damage(Crc.Matches, data, Checksum, key) == Ok(data') && Passes(Crc.Matches, data', None, key)
  {
    hide Passes, Damage;
    CrcStamps();
    Crc32Notices();
    data, data' := Overlooked(Crc.Matches, CrcStamp, key);
  }
}

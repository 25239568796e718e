/** One byte of the crash workload's file altered on an image: when the check still passes it. */
module ReconAltered {
  import opened Bytes
  import opened Arith
  import opened Sequences
  import Crc
  import opened ReconImage
  import opened ReconTree
  import opened ReconVerdict
  import opened ReconCheck
  import opened ReconDamage
  import opened ReconCaught
  import opened ReconTorn
  import opened ReconPayload

  /** A place in the file: stretch n of it is block w, and o is the offset in both. */
  datatype Place = Place(n: nat, w: nat, o: nat)

  ghost predicate Inside(v: Volume, ino: Inode, p: Place)
    requires Sized(v) && |ino.direct| == DIRECT
  {
    BlockOf(v, ino, p.n) == Ok(p.w) && p.o < v.bs && Times(p.n, v.bs) + p.o < ino.size
  }

  /** A wanted file that passed is readable, and whole if it looks like the workload's. */
  lemma BlockThere(v: Volume, ino: Inode, p: Place)
    requires Sized(v) && |ino.direct| == DIRECT && Readable(v, ino) && Inside(v, ino, p)
    ensures Block(v, p.w).Ok?
  {
    hide Block;
    assert FileBlock(v, ino, p.n).Ok?;
  }

  /** The byte of the file is the byte of its block. */
  lemma ByteThere(v: Volume, ino: Inode, p: Place)
    requires Sized(v) && |ino.direct| == DIRECT && ino.inlineLen == 0 && Readable(v, ino) && Inside(v, ino, p)
    ensures Block(v, p.w).Ok? && Contents(v, ino).Ok? && |Contents(v, ino).value| == ino.size
    ensures Contents(v, ino).value[Times(p.n, v.bs) + p.o] == Block(v, p.w).value[p.o]
  {
    hide Block;
    BlockThere(v, ino, p);
    ContentsAre(v, ino);
    DividedOnce(Times(p.n, v.bs) + p.o, p.n, v.bs, p.o);
  }

  /** The one byte has become y, in a block of the file, and nothing else has changed. */
  ghost predicate AlteredBy(v: Volume, v': Volume, p: Place, y: Byte)
  {
    && SameBut(v, v', p.w) && Block(v, p.w).Ok? && p.o < v.bs && Block(v, p.w).value[p.o] != y
    && Block(v', p.w) == Ok(Patch(Block(v, p.w).value, p.o, [y]))
  }

  lemma AlteredContents(v: Volume, v': Volume, ino: Inode, p: Place, y: Byte)
    requires Sized(v) && |ino.direct| == DIRECT && ino.inlineLen == 0 && Readable(v, ino) && Inside(v, ino, p)
    requires AlteredBy(v, v', p, y) && FileOwn(v, ino).Ok? && NoRepeat(FileOwn(v, ino).value)
    ensures var k := Times(p.n, v.bs) + p.o;
            && Contents(v, ino).Ok? && |Contents(v, ino).value| == ino.size && Contents(v, ino).value[k] != y
            && Contents(v', ino) == Ok(Contents(v, ino).value[k := y])
  {
    hide Block, Contents, Patch;
    ByteThere(v, ino, p);
    BlockContents(v, v', ino, p.n, p.w, p.o, [y]);
    FlipIsPatch(Contents(v, ino).value, Times(p.n, v.bs) + p.o, y);
  }

  lemma AlteredSame(v: Volume, v': Volume, p: Place, y: Byte)
    requires AlteredBy(v, v', p, y)
    ensures SameBut(v, v', p.w) && v'.super == v.super && v'.bs == v.bs && v'.sum == v.sum
  {
  }

  lemma AlteredVolume(v: Volume, v': Volume, owners: seq<nat>, key: seq<Byte> -> string, m: nat, ino: Inode,
      p: Place, y: Byte)
    requires Sized(v) && Owners(v) == Ok(owners) && Accepted(ViewOf(v), owners) && Numbered(ViewOf(v), v.super.root)
    requires OneSettings(v, key, m, ino) && Readable(v, ino) && Inside(v, ino, p) && AlteredBy(v, v', p, y)
    requires Notices(v.sum) && Contents(v, ino).Ok? && WholePayload(v.sum, Contents(v, ino).value)
    requires 12 <= Times(p.n, v.bs) + p.o < 16 ==> Single(v.sum)
    ensures VolumePasses(v', Some(SETTINGS), key) <==> Times(p.n, v.bs) + p.o < 4
  {
    hide LE, ReadInode, DirEntries, Forward, Inspect, Contents, WholePayload, Accepted, Numbered, VolumePasses, Block;
    hide Readable, Notices, Single;
    AlteredSame(v, v', p, y);
    BlockVerdict(v, v', owners, key, m, ino, p.n, p.w);
    AlteredContents(v, v', ino, p, y);
    AlteredReported(v.sum, m, Contents(v, ino).value, Times(p.n, v.bs) + p.o, y);
    VolumeAgain(v, v', owners, key, m, ino);
  }

  /** The same, said of a byte of the image. */
  lemma AlteredData(v: Volume, owners: seq<nat>, key: seq<Byte> -> string, m: nat, ino: Inode, p: Place, y: Byte)
    requires Sized(v) && Owners(v) == Ok(owners) && Accepted(ViewOf(v), owners) && Numbered(ViewOf(v), v.super.root)
    requires OneSettings(v, key, m, ino) && Readable(v, ino) && Inside(v, ino, p)
    requires Notices(v.sum) && Contents(v, ino).Ok? && WholePayload(v.sum, Contents(v, ino).value)
    requires 12 <= Times(p.n, v.bs) + p.o < 16 ==> Single(v.sum)
    requires Times(p.w, v.bs) + p.o < |v.data| && v.data[Times(p.w, v.bs) + p.o] != y
    ensures BLOCK_MAX + v.bs <= Times(p.w, v.bs)
    ensures VolumePasses(v.(data := v.data[Times(p.w, v.bs) + p.o := y]), Some(SETTINGS), key) <==>
            Times(p.n, v.bs) + p.o < 4
  {
    hide LE, ReadInode, DirEntries, Forward, Contents, Accepted, Numbered, VolumePasses, Readable, Notices, Single;
    hide WholePayload, Owners, Quot, Rem, Times, EntryAt, Block;
    BlockPlaced(v, owners, key, m, ino, p.n, p.w);
    BlockThere(v, ino, p);
    ByteInPlace(v, p, Times(p.w, v.bs), y);
    AlteredVolume(v, v.(data := v.data[Times(p.w, v.bs) + p.o := y]), owners, key, m, ino, p, y);
  }

  /** And of a volume that passes and reports a round. */
  lemma AlteredPassing(v: Volume, key: seq<Byte> -> string, m: nat, ino: Inode, p: Place, y: Byte)
    requires Sized(v) && VolumePasses(v, Some(SETTINGS), key) && Numbered(ViewOf(v), v.super.root)
    requires OneSettings(v, key, m, ino) && FoundIn(v, Some(SETTINGS), key).round.Some?
    requires |ino.direct| == DIRECT && Inside(v, ino, p) && Notices(v.sum)
    requires 12 <= Times(p.n, v.bs) + p.o < 16 ==> Single(v.sum)
    requires Times(p.w, v.bs) + p.o < |v.data| && v.data[Times(p.w, v.bs) + p.o] != y
    ensures BLOCK_MAX + v.bs <= Times(p.w, v.bs)
    ensures VolumePasses(v.(data := v.data[Times(p.w, v.bs) + p.o := y]), Some(SETTINGS), key) <==>
            Times(p.n, v.bs) + p.o < 4
  {
    PassedContents(v, key, m, ino);
    hide LE, ReadInode, DirEntries, Forward, Contents, Accepted, Numbered, OneSettings, Readable, Notices, Single;
    hide WholePayload, FoundIn, Owners, Quot, Rem, Times, EntryAt, Block;
    AlteredData(v, Owners(v).value, key, m, ino, p, y);
  }

  /** One byte of the data altered is one byte of its block altered. */
  lemma ByteInPlace(v: Volume, p: Place, lo: nat, y: Byte)
    requires Block(v, p.w).Ok? && p.o < v.bs && lo == Times(p.w, v.bs)
    requires lo + p.o < |v.data| && v.data[lo + p.o] != y
    ensures AlteredBy(v, v.(data := v.data[lo + p.o := y]), p, y)
  {
    hide Patch;
    FlipIsPatch(v.data, lo + p.o, y);
    PatchPlaced(v, v.(data := v.data[lo + p.o := y]), p.w, p.o, lo, [y]);
  }

  lemma TwelveSlots(v: Volume, key: seq<Byte> -> string, m: nat, ino: Inode)
    requires Sized(v) && OneSettings(v, key, m, ino)
    ensures |ino.direct| == DIRECT
  {
  }

  lemma AlteredImage(sum: Sum, data: seq<Byte>, key: seq<Byte> -> string, l: Loaded, m: nat, ino: Inode, p: Place,
      at: nat, k: nat, y: Byte)
    requires Load(sum, data) == Ok(l) && Notices(sum) && at < |data| && data[at] != y
    requires at == Times(p.w, l.super.blockSize) + p.o && k == Times(p.n, l.super.blockSize) + p.o
    requires 12 <= k < 16 ==> Single(sum)
    requires var v := VolumeOf(sum, data, l);
             && VolumePasses(v, Some(SETTINGS), key) && FoundIn(v, Some(SETTINGS), key).round.Some?
             && OneSettings(v, key, m, ino) && Numbered(ViewOf(v), v.super.root) && Inside(v, ino, p)
    ensures Passes(sum, data[at := y], Some(SETTINGS), key) <==>
            if Poised(sum, data, at, [y]) then VolumePasses(Promoted(sum, data, at, [y]), Some(SETTINGS), key)
            else k < 4
    ensures SecondSlotFits(sum, data) ==> !Poised(sum, data, at, [y])
  {
    hide Passes, VolumePasses, Poised, SecondSlotFits, Patch, Load, OneSettings, Numbered, Inside, FoundIn;
    hide Notices, Single, Times, Quot, Rem, EntryAt;
    TwelveSlots(VolumeOf(sum, data, l), key, m, ino);
    AlteredPassing(VolumeOf(sum, data, l), key, m, ino, p, y);
    FlipIsPatch(data, at, y);
    PassesIn(sum, data, at, [y], l, Some(SETTINGS), key);
  }

  /**
   An image that passes with a whole version in its settings file: once any byte of that file is
   altered it passes only if the byte was one of the magic number, so that the file no longer looks
   like a version, or if the second superblock was poised for that byte.
   */
  lemma AlteredCaught(sum: Sum, data: seq<Byte>, key: seq<Byte> -> string, l: Loaded, m: nat, ino: Inode, p: Place,
      at: nat, k: nat, y: Byte)
    requires Notices(sum) && Passes(sum, data, Some(SETTINGS), key) && Load(sum, data) == Ok(l)
    requires Check(sum, data, Some(SETTINGS), key).value.round.Some?
    requires var v := VolumeOf(sum, data, l);
             OneSettings(v, key, m, ino) && Numbered(ViewOf(v), v.super.root) && Inside(v, ino, p)
    requires at == p.w * l.super.blockSize + p.o && at < |data| && data[at] != y
    requires k == p.n * l.super.blockSize + p.o && (12 <= k < 16 ==> Single(sum))
    ensures Passes(sum, data[at := y], Some(SETTINGS), key) <==>
            if Poised(sum, data, at, [y]) then VolumePasses(Promoted(sum, data, at, [y]), Some(SETTINGS), key)
            else k < 4
    ensures SecondSlotFits(sum, data) ==> !Poised(sum, data, at, [y])
  {
    PassesParts(sum, data, Some(SETTINGS), key);
    PassedRound(sum, data, l, key);
    hide Passes, VolumePasses, Poised, SecondSlotFits, Patch, Load, OneSettings, Numbered, Check, Inside, FoundIn;
    hide Notices, Single, Times, Quot, Rem, EntryAt;
    TimesIs(p.w, l.super.blockSize);
    TimesIs(p.n, l.super.blockSize);
    AlteredImage(sum, data, key, l, m, ino, p, at, k, y);
  }
}

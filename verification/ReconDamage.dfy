/**
 The negative controls: three ways of breaking an image on purpose, what they leave
 alone, and what the damaged image is loaded as.
 */
module ReconDamage {
  import opened Bytes
  import opened Arith
  import opened ReconImage
  import opened ReconTree
  import opened ReconCheck

  datatype Mode = Checksum | Unallocated | Torn

  const SETTINGS: string := "settings"
  const CHECKSUM_BYTE := 300
  const ENTRY_BYTES: nat := 8

  /** Exclusive or with 0xFF, which takes b to 255 - b. */
  function Flip(data: seq<Byte>, at: nat): Result<seq<Byte>>
  {
    if at >= |data| then Bad else Ok(data[at := 255 - data[at]])
  }

  function Overwrite(data: seq<Byte>, at: int, piece: seq<Byte>): Result<seq<Byte>>
  {
    if at < 0 || at + |piece| > |data| then Bad else Ok(Patch(data, at, piece))
  }

  /** The little-endian number after s, carrying from byte to byte; there is none after the largest. */
  function Successor(s: seq<Byte>): (r: Result<seq<Byte>>)
    ensures r.Ok? ==> |r.value| == |s|
  {
    if s == [] then Bad
    else if s[0] < 255 then Ok([s[0] + 1] + s[1..])
    else
      var rest :- Successor(s[1..]);
      Ok([0] + rest)
  }

  /** Packing the number plus one is this successor, and fails when the sum no longer fits. */
  lemma {:induction false} SuccessorIs(s: seq<Byte>)
    ensures Successor(s).Ok? <==> LE(s) + 1 < Pow256(|s|)
    ensures Successor(s).Ok? ==> LE(Successor(s).value) == LE(s) + 1
  {
    if s != [] {
      SuccessorIs(s[1..]);
      LEBound(s[1..]);
      if s[0] < 255 {
        assert ([s[0] + 1] + s[1..])[1..] == s[1..];
      } else if Successor(s[1..]).Ok? {
        var rest := Successor(s[1..]).value;
        assert ([0] + rest)[1..] == rest;
      }
    }
  }

  lemma SuccessorPacks(s: seq<Byte>)
    requires Successor(s).Ok?
    ensures Successor(s).value == PackLE(LE(s) + 1, |s|)
  {
    SuccessorIs(s);
    PackUnpack(Successor(s).value);
  }

  /** Adds one to the 32-bit number stored at `at`. */
  function Bump(data: seq<Byte>, at: int): Result<seq<Byte>>
  {
    if at < 0 || at + 4 > |data| then Bad
    else
      var next :- Successor(data[at..at + 4]);
      Ok(Patch(data, at, next))
  }

  /** Where the tearing aims: at the root inode's block for an inline file, else near the end of the last block. */
  function TornAt(v: Volume, ino: Inode): Result<int>
    requires Sized(v) && |ino.direct| == DIRECT
  {
    if ino.inlineLen != 0 then Ok(Times(v.super.root, v.bs) + INODE_SIZE + ino.size - 4)
    else if ino.size == 0 then Ok(Times(ino.direct[DIRECT - 1], v.bs) + (v.bs - 1) - 3)
    else
      var n := Quot(ino.size - 1, v.bs);
      var where :- TornBlock(v, ino, n);
      Ok(Times(where, v.bs) + Rem(ino.size - 1, v.bs) - 3)
  }

  function TornBlock(v: Volume, ino: Inode, n: nat): Result<nat>
    requires |ino.direct| == DIRECT
  {
    if n < DIRECT then Ok(ino.direct[n])
    else
      var slots :- Index(v, ino.indirect);
      if n - DIRECT >= |slots| then Bad else Ok(slots[n - DIRECT])
  }

  function SettingsInode(v: Volume, key: seq<Byte> -> string): (r: Result<Inode>)
    requires Sized(v)
    ensures r.Ok? ==> |r.value.direct| == DIRECT
  {
    var es :- RootEntries(v);
    var m := Matches(es, SETTINGS, key);
    if |m| == 0 then Bad else ReadInode(v, m[|m| - 1])
  }

  function DamageVolume(v: Volume, how: Mode, key: seq<Byte> -> string): Result<seq<Byte>>
    requires Sized(v)
  {
    match how
    case Checksum => Flip(v.data, Times(v.super.root, v.bs) + CHECKSUM_BYTE)
    case Unallocated =>
      var leaf :- LeafBlock(v, Quot(v.super.root, PerIndex(v)));
      Overwrite(v.data, Times(leaf, v.bs) + 8 * Rem(v.super.root, PerIndex(v)), PackLE(OWNER_VOID, ENTRY_BYTES))
    case Torn => TornDamage(v, key)
  }

  function TornDamage(v: Volume, key: seq<Byte> -> string): Result<seq<Byte>>
    requires Sized(v)
  {
    var ino :- SettingsInode(v, key);
    var at :- TornAt(v, ino);
    Bump(v.data, at)
  }

  /** What is written back, or the failure that leaves the image alone. */
  function Damage(sum: Sum, data: seq<Byte>, how: Mode, key: seq<Byte> -> string): Result<seq<Byte>>
  {
    var l :- Load(sum, data);
    DamageVolume(VolumeOf(sum, data, l), how, key)
  }

  // --- Locality ---

  /** Same size, and the same bytes in every block but w. */
  ghost predicate SameBut(v: Volume, v': Volume, w: nat)
  {
    && v'.sum == v.sum && v'.bs == v.bs && v'.super == v.super && |v'.data| == |v.data|
    && forall n: nat :: n != w ==> Block(v', n) == Block(v, n)
  }

  lemma OutsideBlock(n: nat, w: nat, bs: nat)
    requires n != w
    ensures Times(n, bs) + bs <= Times(w, bs) || Times(w, bs) + bs <= Times(n, bs)
  {
    if n < w { TimesGrows(n, w, bs); } else { TimesGrows(w, n, bs); }
  }

  lemma PatchElsewhere(data: seq<Byte>, at: nat, piece: seq<Byte>, lo: nat, hi: nat)
    requires at + |piece| <= |data| && lo <= hi <= |data|
    requires hi <= at || at + |piece| <= lo
    ensures Patch(data, at, piece)[lo..hi] == data[lo..hi]
  {
  }

  lemma PatchWithin(data: seq<Byte>, lo: nat, hi: nat, o: nat, piece: seq<Byte>)
    requires lo + o + |piece| <= hi <= |data|
    ensures Patch(data, lo + o, piece)[lo..hi] == Patch(data[lo..hi], o, piece)
  {
  }

  lemma PatchOther(data: seq<Byte>, at: nat, piece: seq<Byte>, bs: nat, w: nat, n: nat)
    requires n != w && Times(w, bs) <= at && at + |piece| <= Times(w, bs) + bs && at + |piece| <= |data|
    ensures Raw(Patch(data, at, piece), Times(n, bs), bs) == Raw(data, Times(n, bs), bs)
  {
    OutsideBlock(n, w, bs);
    if Times(n, bs) + bs <= |data| { PatchElsewhere(data, at, piece, Times(n, bs), Times(n, bs) + bs); }
  }

  /** Overwriting inside block w changes block w as the block alone would be changed, and no other. */
  lemma PatchBlock(v: Volume, w: nat, lo: nat, o: nat, piece: seq<Byte>)
    requires Block(v, w).Ok? && lo == Times(w, v.bs) && o + |piece| <= v.bs
    ensures lo + o + |piece| <= |v.data|
    ensures var v' := v.(data := Patch(v.data, lo + o, piece));
            SameBut(v, v', w) && Block(v', w) == Ok(Patch(Block(v, w).value, o, piece))
  {
    forall n: nat | n != w ensures Block(v.(data := Patch(v.data, lo + o, piece)), n) == Block(v, n) {
      PatchOther(v.data, lo + o, piece, v.bs, w, n);
    }
    PatchWithin(v.data, lo, lo + v.bs, o, piece);
  }

  lemma PatchPlaced(v: Volume, v': Volume, w: nat, o: nat, lo: nat, piece: seq<Byte>)
    requires Block(v, w).Ok? && o + |piece| <= v.bs && lo == Times(w, v.bs)
    requires lo + o + |piece| <= |v.data| && v' == v.(data := Patch(v.data, lo + o, piece))
    ensures SameBut(v, v', w) && Block(v', w) == Ok(Patch(Block(v, w).value, o, piece))
  {
    PatchBlock(v, w, lo, o, piece);
  }

  lemma FlipIsPatch(data: seq<Byte>, at: nat, y: Byte)
    requires at < |data|
    ensures data[at := y] == Patch(data, at, [y])
  {
  }

  lemma ReservedSpan(bs: nat)
    requires IsBlockSize(bs)
    ensures Times(Reserved(bs), bs) == BLOCK_MAX + bs
  {
    BlockSizes(bs);
    var q := if bs == 4096 then 16 else if bs == 8192 then 8 else if bs == 16384 then 4
             else if bs == 32768 then 2 else 1;
    TimesIs(q, bs);
    DividedOnce(BLOCK_MAX, q, bs, 0);
  }

  /** A block number past the second superblock lies past its bytes too. */
  lemma PastSupers(bs: nat, n: nat)
    requires IsBlockSize(bs) && n >= Reserved(bs)
    ensures Times(n, bs) >= BLOCK_MAX + bs
  {
    ReservedSpan(bs);
    if n > Reserved(bs) { TimesGrows(Reserved(bs), n, bs); }
  }

  // --- Loading ---

  /**
   The second slot, if it looks like a superblock at all, claims a block no bigger
   than the volume's. Otherwise its checksum would cover blocks of the volume, and
   changing one of those could make a slot that did not validate start to.
   */
  ghost predicate SecondSlotFits(sum: Sum, data: seq<Byte>)
  {
    Load(sum, data).Ok? && |data| >= BLOCK_MAX + BLOCK_MIN ==>
      var head := data[BLOCK_MAX..BLOCK_MAX + BLOCK_MIN];
      Plausible(head) ==> U32(head, 12) <= Load(sum, data).value.super.blockSize
  }

  /** The head of the second slot, if the image is long enough to have one. */
  ghost function SecondHead(data: seq<Byte>): (h: Option<seq<Byte>>)
    ensures h.Some? ==> |h.value| == BLOCK_MIN
  {
    if |data| >= BLOCK_MAX + BLOCK_MIN then Some(data[BLOCK_MAX..BLOCK_MAX + BLOCK_MIN]) else None
  }

  /**
   The one way damage past the second superblock can be overlooked, read off the image as it is:
   the first slot is live, and the second looks like a superblock, has bigger blocks and a later
   epoch, and carries the checksum, not of its bytes as they are, but of its bytes with `piece`
   written at `at`.
   */
  ghost predicate Poised(sum: Sum, data: seq<Byte>, at: nat, piece: seq<Byte>)
    requires at + |piece| <= |data|
  {
    && Load(sum, data).Ok? && Load(sum, data).value.live == 0
    && SecondHead(data).Some?
    && Plausible(SecondHead(data).value)
    && var second := ParseSuper(SecondHead(data).value);
       && second.blockSize > Load(sum, data).value.super.blockSize && second.epoch > Load(sum, data).value.super.epoch
       && BLOCK_MAX + second.blockSize <= |data|
       && !ChecksumOk(sum, data[BLOCK_MAX..BLOCK_MAX + second.blockSize], SUPER_CSUM)
       && ChecksumOk(sum, Patch(data, at, piece)[BLOCK_MAX..BLOCK_MAX + second.blockSize], SUPER_CSUM)
  }

  /** What the damaged image is loaded as, from the undamaged one alone. */
  ghost function LoadedAfter(sum: Sum, data: seq<Byte>, at: nat, piece: seq<Byte>): Result<Loaded>
    requires at + |piece| <= |data|
  {
    if Poised(sum, data, at, piece) then Ok(Loaded(ParseSuper(SecondHead(data).value), BLOCK_MAX)) else Load(sum, data)
  }

  lemma SecondSlotSettles(sum: Sum, data: seq<Byte>, at: nat, piece: seq<Byte>)
    requires at + |piece| <= |data| && SecondSlotFits(sum, data)
    ensures !Poised(sum, data, at, piece)
  {
    hide LE, Plausible, ChecksumOk;
  }

  /** Damage past the second superblock leaves the loaded state alone, except where the second slot was poised. */
  lemma LoadMoves(sum: Sum, data: seq<Byte>, at: nat, piece: seq<Byte>, bs: nat)
    requires Load(sum, data).Ok? && bs == Load(sum, data).value.super.blockSize
    requires BLOCK_MAX + bs <= at && at + |piece| <= |data|
    ensures Load(sum, Patch(data, at, piece)) == LoadedAfter(sum, data, at, piece)
  {
    hide LE, Plausible, ParseSuper, ChecksumOk;
    var data' := Patch(data, at, piece);
    assert data[0..0 + BLOCK_MAX] == data'[0..0 + BLOCK_MAX];
    SlotFrame(sum, data, data', 0);
    assert data[BLOCK_MAX..BLOCK_MAX + bs] == data'[BLOCK_MAX..BLOCK_MAX + bs];
    var head := data[BLOCK_MAX..BLOCK_MAX + BLOCK_MIN];
    HeadSize(head);
    if Plausible(head) && U32(head, 12) > bs {
      assert head == data'[BLOCK_MAX..BLOCK_MAX + BLOCK_MIN];
      SecondSlotLarger(sum, data, data', at, piece, head);
    } else {
      SlotFrameBy(sum, data, data', BLOCK_MAX, bs);
    }
  }

  lemma HeadSize(head: seq<Byte>)
    requires |head| == BLOCK_MIN
    ensures ParseSuper(head).blockSize == U32(head, 12)
  {
  }

  lemma SecondSlotLarger(sum: Sum, data: seq<Byte>, data': seq<Byte>, at: nat, piece: seq<Byte>, head: seq<Byte>)
    requires Load(sum, data).Ok? && |data| == |data'| >= BLOCK_MAX + BLOCK_MIN
    requires at + |piece| <= |data| && data' == Patch(data, at, piece)
    requires head == data[BLOCK_MAX..BLOCK_MAX + BLOCK_MIN] == data'[BLOCK_MAX..BLOCK_MAX + BLOCK_MIN]
    requires Plausible(head) && U32(head, 12) > Load(sum, data).value.super.blockSize
    requires ReadSlot(sum, data', 0) == ReadSlot(sum, data, 0)
    ensures Load(sum, data') == LoadedAfter(sum, data, at, piece)
  {
    SlotIs(sum, data, BLOCK_MAX, head);
    SlotIs(sum, data', BLOCK_MAX, head);
    PoisedIs(sum, data, at, piece, head);
    hide LE, Plausible, ChecksumOk, ReadSlot, ParseSuper, Patch, Poised, Choose;
    HeadSize(head);
    var b, b' := ReadSlot(sum, data, BLOCK_MAX), ReadSlot(sum, data', BLOCK_MAX);
    ChooseBad(ReadSlot(sum, data, 0), b);
    ChooseMoves(ReadSlot(sum, data, 0), b, b', ParseSuper(head), Load(sum, data).value);
  }

  lemma ChooseBad(a: Result<Option<Super>>, b: Result<Option<Super>>)
    ensures Choose(a, b).Ok? ==> a.Ok? && b.Ok?
  {
  }

  lemma PoisedIs(sum: Sum, data: seq<Byte>, at: nat, piece: seq<Byte>, head: seq<Byte>)
    requires Load(sum, data).Ok? && |data| >= BLOCK_MAX + BLOCK_MIN && at + |piece| <= |data|
    requires head == data[BLOCK_MAX..BLOCK_MAX + BLOCK_MIN] && Plausible(head)
    requires ParseSuper(head).blockSize > Load(sum, data).value.super.blockSize
    ensures var second := ParseSuper(head);
            Poised(sum, data, at, piece) <==>
            && Load(sum, data).value.live == 0 && second.epoch > Load(sum, data).value.super.epoch
            && BLOCK_MAX + second.blockSize <= |data|
            && !ChecksumOk(sum, data[BLOCK_MAX..BLOCK_MAX + second.blockSize], SUPER_CSUM)
            && ChecksumOk(sum, Patch(data, at, piece)[BLOCK_MAX..BLOCK_MAX + second.blockSize], SUPER_CSUM)
  {
    SuperFits(head);
    hide LE, Plausible, ChecksumOk, ReadSlot, Patch, Choose, ParseSuper;
  }

  lemma SuperFits(head: seq<Byte>)
    requires |head| == BLOCK_MIN && Plausible(head)
    ensures ParseSuper(head).blockSize >= BLOCK_MIN
  {
  }

  /** Choosing again after a second slot with bigger blocks than the live one has begun or ceased to validate. */
  lemma ChooseMoves(a: Result<Option<Super>>, b: Result<Option<Super>>, b': Result<Option<Super>>, second: Super,
      l: Loaded)
    requires Choose(a, b) == Ok(l) && second.blockSize > l.super.blockSize
    requires b == Ok(None) || b == Ok(Some(second))
    requires b' == Ok(None) || b' == Ok(Some(second))
    ensures Choose(a, b') ==
            if l.live == 0 && second.epoch > l.super.epoch && b == Ok(None) && b' == Ok(Some(second))
            then Ok(Loaded(second, BLOCK_MAX)) else Ok(l)
  {
  }

  /** A plausible slot is read as its head says, if its checksum is right. */
  lemma SlotIs(sum: Sum, data: seq<Byte>, at: nat, head: seq<Byte>)
    requires at + BLOCK_MIN <= |data| && head == data[at..at + BLOCK_MIN] && Plausible(head)
    ensures var bs := ParseSuper(head).blockSize;
            && BLOCK_MIN <= bs
            && ReadSlot(sum, data, at) ==
               if at + bs > |data| then Bad
               else Ok(if ChecksumOk(sum, data[at..at + bs], SUPER_CSUM) then Some(ParseSuper(head)) else None)
  {
    hide LE, ChecksumOk;
  }
}

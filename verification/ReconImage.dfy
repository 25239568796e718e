/**
 Reading a ReconFS image: superblocks, the owner table, inodes, file contents and
 directory entries. Functions say what each reader means; methods follow the
 loops of the program and are proved to compute the functions.
 */
module ReconImage {
  import opened Bytes
  import opened Arith

  const BLOCK_MIN := 4096
  const BLOCK_MAX := 65536
  const MAGIC := 0x3153466E6F636552
  const INODE_MAGIC := 0x316F6E496E636552
  const VERSION := 1
  const TYPE_FILE := 1
  const TYPE_DIR := 2
  const DIRECT := 12
  const SUPER_CSUM := 204
  const INODE_DIRECT_AT := 88
  const INODE_CSUM := 224
  const INODE_SIZE := 232
  const DIRENT_SIZE := 16
  const ZERO4: seq<Byte> := [0, 0, 0, 0]

  function Raw(data: seq<Byte>, offset: nat, length: nat): Result<seq<Byte>>
  {
    if offset + length > |data| then Bad else Ok(data[offset..offset + length])
  }

  /**
   Whether four stored bytes are the checksum of a body. The program uses CRC-32,
   which is Crc.Matches; the readers are written for any checksum.
   */
  type Sum = (seq<Byte>, seq<Byte>) -> bool

  /** A block carries the checksum of itself with the checksum field taken as zero. */
  predicate ChecksumOk(sum: Sum, buf: seq<Byte>, off: nat)
    requires off + 4 <= |buf|
  {
    sum(Patch(buf, off, ZERO4), buf[off..off + 4])
  }

  /** Putting `piece` at `at` changes the message, in one byte or within four in a row. */
  ghost predicate Alters(m: seq<Byte>, at: nat, piece: seq<Byte>)
  {
    (|piece| == 1 || |piece| == 4) && at + |piece| <= |m| && m[at..at + |piece|] != piece
  }

  /** A checksum that notices every such change. */
  ghost predicate Notices(sum: Sum)
  {
    forall m: seq<Byte>, stored: seq<Byte>, at: nat, piece: seq<Byte> {:trigger Alters(m, at, piece), sum(m, stored)} ::
      Alters(m, at, piece) && sum(m, stored) ==> !sum(Patch(m, at, piece), stored)
  }

  // --- Superblocks ---

  /** The superblock fields the checker uses. */
  datatype Super = Super(blockSize: nat, epoch: nat, total: nat, root: nat, tableRoot: nat, tableDepth: nat)

  datatype Loaded = Loaded(super: Super, live: nat)

  predicate PowerOfTwo(n: nat)
  {
    n == 1 || (n > 1 && n % 2 == 0 && PowerOfTwo(n / 2))
  }

  predicate IsBlockSize(bs: nat)
  {
    BLOCK_MIN <= bs <= BLOCK_MAX && PowerOfTwo(bs)
  }

  lemma {:induction false} PowerAbove(n: nat, k: nat)
    requires PowerOfTwo(n) && PowerOfTwo(k) && n >= k
    ensures n == k || n >= 2 * k
  {
    if n > k && k > 1 { PowerAbove(n / 2, k / 2); }
  }

  lemma BlockSizes(bs: nat)
    requires IsBlockSize(bs)
    ensures bs == 4096 || bs == 8192 || bs == 16384 || bs == 32768 || bs == 65536
  {
    PowerAbove(bs, 4096);
    if bs >= 8192 { PowerAbove(bs, 8192); }
    if bs >= 16384 { PowerAbove(bs, 16384); }
    if bs >= 32768 { PowerAbove(bs, 32768); }
  }

  /** What load() looks at before it believes a slot enough to check its checksum. */
  predicate Plausible(head: seq<Byte>)
    requires |head| == BLOCK_MIN
  {
    U64(head, 0) == MAGIC && U32(head, 8) == VERSION && IsBlockSize(U32(head, 12))
  }

  function ParseSuper(head: seq<Byte>): Super
    requires |head| == BLOCK_MIN
  {
    Super(U32(head, 12), U64(head, 16), U64(head, 24), U64(head, 32), U64(head, 40), U32(head, 48))
  }

  /** One superblock slot: absent or not validating is None; a truncated one is an error. */
  function ReadSlot(sum: Sum, data: seq<Byte>, at: nat): (r: Result<Option<Super>>)
    ensures r.Ok? && r.value.Some? ==> IsBlockSize(r.value.value.blockSize)
  {
    if at + BLOCK_MIN > |data| then Ok(None)
    else
      var head := data[at..at + BLOCK_MIN];
      if !Plausible(head) then Ok(None)
      else
        var full :- Raw(data, at, U32(head, 12));
        if ChecksumOk(sum, full, SUPER_CSUM) then Ok(Some(ParseSuper(head))) else Ok(None)
  }

  function Better(best: Option<Loaded>, s: Option<Super>, at: nat): Option<Loaded>
  {
    if s.Some? && (best.None? || s.value.epoch > best.value.super.epoch) then Some(Loaded(s.value, at)) else best
  }

  function Choose(a: Result<Option<Super>>, b: Result<Option<Super>>): Result<Loaded>
  {
    if a.Bad? || b.Bad? then Bad
    else
      match Better(Better(None, a.value, 0), b.value, BLOCK_MAX)
      case None => Bad
      case Some(l) => Ok(l)
  }

  /** The live superblock: of the slots that validate, the one with the higher epoch. */
  function Load(sum: Sum, data: seq<Byte>): (r: Result<Loaded>)
    ensures r.Ok? ==> IsBlockSize(r.value.super.blockSize)
  {
    Choose(ReadSlot(sum, data, 0), ReadSlot(sum, data, BLOCK_MAX))
  }

  /** The slot that a commit may be writing while `live` holds the truth. */
  function OtherSlot(live: nat): nat
  {
    if live == 0 then BLOCK_MAX else 0
  }

  lemma LoadPicksHighestEpoch(sum: Sum, data: seq<Byte>)
    requires Load(sum, data).Ok?
    ensures var l := Load(sum, data).value;
            && (l.live == 0 || l.live == BLOCK_MAX)
            && ReadSlot(sum, data, l.live) == Ok(Some(l.super))
            && ReadSlot(sum, data, OtherSlot(l.live)).Ok?
            && var o := ReadSlot(sum, data, OtherSlot(l.live)).value;
               o.Some? ==> o.value.epoch < l.super.epoch || (o.value.epoch == l.super.epoch && l.live == 0)
  {
  }

  /** A slot is decided by its own 64 KiB alone. */
  lemma SlotFrame(sum: Sum, data: seq<Byte>, data': seq<Byte>, at: nat)
    requires at + BLOCK_MAX <= |data| == |data'|
    requires data[at..at + BLOCK_MAX] == data'[at..at + BLOCK_MAX]
    ensures ReadSlot(sum, data, at) == ReadSlot(sum, data', at)
  {
    SlotFrameBy(sum, data, data', at, BLOCK_MAX);
  }

  lemma SlotFrameBy(sum: Sum, data: seq<Byte>, data': seq<Byte>, at: nat, span: nat)
    requires at + span <= |data| == |data'| && BLOCK_MIN <= span
    requires data[at..at + span] == data'[at..at + span]
    requires Plausible(data[at..at + BLOCK_MIN]) ==> U32(data[at..at + BLOCK_MIN], 12) <= span
    ensures ReadSlot(sum, data, at) == ReadSlot(sum, data', at)
  {
    var region := data[at..at + span];
    assert data[at..at + BLOCK_MIN] == region[..BLOCK_MIN] == data'[at..at + BLOCK_MIN];
    if Plausible(data[at..at + BLOCK_MIN]) {
      var bs := U32(data[at..at + BLOCK_MIN], 12);
      assert data[at..at + bs] == region[..bs] == data'[at..at + bs];
    }
  }

  /**
   Two-superblock safety. On an image long enough for both slots, any rewrite that
   leaves the live slot alone keeps the chosen state exactly when what is now in the
   other slot does not validate, or carries a smaller epoch (or an equal one, in the
   second slot).
   */
  lemma LoadAfterRewrite(sum: Sum, data: seq<Byte>, data': seq<Byte>)
    requires |data| == |data'| >= 2 * BLOCK_MAX && Load(sum, data).Ok?
    requires var live := Load(sum, data).value.live;
             live + BLOCK_MAX <= |data| && data[live..live + BLOCK_MAX] == data'[live..live + BLOCK_MAX]
    ensures var l := Load(sum, data).value;
            && ReadSlot(sum, data', OtherSlot(l.live)).Ok?
            && var o := ReadSlot(sum, data', OtherSlot(l.live)).value;
               Load(sum, data') == Ok(l) <==>
               (o.None? || o.value.epoch < l.super.epoch || (o.value.epoch == l.super.epoch && l.live == 0))
  {
    var a, b := ReadSlot(sum, data, 0), ReadSlot(sum, data, BLOCK_MAX);
    var a', b' := ReadSlot(sum, data', 0), ReadSlot(sum, data', BLOCK_MAX);
    var l := Load(sum, data).value;
    SlotTotal(sum, data', 0);
    SlotTotal(sum, data', BLOCK_MAX);
    SlotFrame(sum, data, data', l.live);
    ChooseAgain(a, b, a', b', l);
  }

  lemma SlotTotal(sum: Sum, data: seq<Byte>, at: nat)
    requires at + BLOCK_MAX <= |data|
    ensures ReadSlot(sum, data, at).Ok?
  {
  }

  lemma ChooseAgain(a: Result<Option<Super>>, b: Result<Option<Super>>,
                    a': Result<Option<Super>>, b': Result<Option<Super>>, l: Loaded)
    requires Choose(a, b) == Ok(l) && a'.Ok? && b'.Ok?
    requires if l.live == 0 then a' == a else b' == b
    ensures var o := if l.live == 0 then b'.value else a'.value;
            Choose(a', b') == Ok(l) <==>
            (o.None? || o.value.epoch < l.super.epoch || (o.value.epoch == l.super.epoch && l.live == 0))
  {
  }

  // --- Blocks ---

  datatype Volume = Volume(sum: Sum, data: seq<Byte>, bs: nat, super: Super)

  ghost predicate Sized(v: Volume) { IsBlockSize(v.bs) }

  function Block(v: Volume, n: nat): (r: Result<seq<Byte>>)
    ensures r.Ok? ==> |r.value| == v.bs
  {
    Raw(v.data, Times(n, v.bs), v.bs)
  }

  function PerIndex(v: Volume): nat { v.bs / 8 }

  /** A whole block as eight-byte numbers. */
  function Words(buf: seq<Byte>): (w: seq<nat>)
    ensures |w| == |buf| / 8
  {
    seq(|buf| / 8, i requires 0 <= i < |buf| / 8 => LE(buf[8 * i..8 * i + 8]))
  }

  function Index(v: Volume, n: nat): (r: Result<seq<nat>>)
    ensures r.Ok? ==> |r.value| == PerIndex(v)
  {
    var b :- Block(v, n);
    Ok(Words(b))
  }

  // --- The owner table ---

  /** Following a list of slot numbers down from a node; a zero slot is a hole. */
  function Follow(v: Volume, node: nat, digits: seq<nat>): Result<nat>
    decreases |digits|
  {
    if digits == [] then Ok(node)
    else
      var slots :- Index(v, node);
      if digits[0] >= |slots| || slots[digits[0]] == 0 then Bad
      else Follow(v, slots[digits[0]], digits[1..])
  }

  /** The base-b digits of n, most significant first; a number too big shows it in the first digit. */
  function Digits(n: nat, b: nat, count: nat): (d: seq<nat>)
    requires b > 0
    ensures |d| == count
    decreases count
  {
    if count == 0 then []
    else
      PowPositive(b, count - 1);
      [Quot(n, Pow(b, count - 1))] + Digits(Rem(n, Pow(b, count - 1)), b, count - 1)
  }

  /** Positional notation. */
  function FromDigits(d: seq<nat>, b: nat): nat
    decreases |d|
  {
    if d == [] then 0 else d[0] * Pow(b, |d| - 1) + FromDigits(d[1..], b)
  }

  /** Any number of the right size is spelled by its digits, each below the base. */
  lemma {:induction false} DigitsSpell(n: nat, b: nat, count: nat)
    requires b > 0 && n < Pow(b, count)
    ensures FromDigits(Digits(n, b, count), b) == n
    ensures forall i :: 0 <= i < count ==> Digits(n, b, count)[i] < b
    decreases count
  {
    if count > 0 {
      PowPositive(b, count - 1);
      var p := Pow(b, count - 1);
      DigitsSpell(Rem(n, p), b, count - 1);
      Exactly(n, p);
      QuotientBelow(n, b, p);
      assert Digits(n, b, count)[1..] == Digits(Rem(n, p), b, count - 1);
      DivMod(n, p);
    }
  }

  /** The block of leaf number `leaf`: its base-`PerIndex` digits, followed from the table root. */
  function LeafBlock(v: Volume, leaf: nat): Result<nat>
    requires Sized(v)
  {
    Follow(v, v.super.tableRoot, Digits(leaf, PerIndex(v), v.super.tableDepth))
  }

  /** Slot i of leaf q. */
  function SlotAt(v: Volume, q: nat, i: nat): Result<nat>
    requires Sized(v) && i < PerIndex(v)
  {
    var leaf :- LeafBlock(v, q);
    var vals :- Index(v, leaf);
    Ok(vals[i])
  }

  /** The owner-table entry of block b, read on its own. */
  function EntryAt(v: Volume, b: nat): Result<nat>
    requires Sized(v)
  {
    SlotAt(v, Quot(b, PerIndex(v)), Rem(b, PerIndex(v)))
  }

  /** The whole table as one flat array, one entry for each block of the volume. */
  function Owners(v: Volume): (r: Result<seq<nat>>)
    requires Sized(v)
    ensures r.Ok? ==> |r.value| == v.super.total
    ensures r.Ok? ==> forall b {:trigger EntryAt(v, b)} :: 0 <= b < v.super.total ==> EntryAt(v, b) == Ok(r.value[b])
  {
    if forall b :: 0 <= b < v.super.total ==> EntryAt(v, b).Ok?
    then Ok(seq(v.super.total, b requires 0 <= b < v.super.total && EntryAt(v, b).Ok? => EntryAt(v, b).value))
    else Bad
  }

  // --- Inodes ---

  datatype Inode = Inode(dossier: nat, parent: nat, kind: nat, size: nat, inlineLen: nat,
                         direct: seq<nat>, indirect: nat, raw: seq<Byte>)

  function ParseInode(buf: seq<Byte>): (i: Inode)
    requires |buf| >= BLOCK_MIN
    ensures |i.direct| == DIRECT && i.raw == buf
  {
    Inode(U64(buf, 8), U64(buf, 16), U32(buf, 24), U64(buf, 40), U32(buf, 80),
          Words(buf[INODE_DIRECT_AT..INODE_DIRECT_AT + 8 * DIRECT]), U64(buf, 184), buf)
  }

  function ReadInode(v: Volume, n: nat): (r: Result<Inode>)
    requires Sized(v)
    ensures r.Ok? ==> |r.value.direct| == DIRECT && Block(v, n) == Ok(r.value.raw)
  {
    var buf :- Block(v, n);
    if U64(buf, 0) == INODE_MAGIC && ChecksumOk(v.sum, buf, INODE_CSUM) then Ok(ParseInode(buf)) else Bad
  }

  // --- File contents ---

  function Clip(s: seq<Byte>, lo: nat, hi: nat): seq<Byte>
    requires lo <= hi
  {
    if lo >= |s| then [] else if hi >= |s| then s[lo..] else s[lo..hi]
  }

  /** Which block holds the n-th stretch of a file: a direct slot, or one in the indirect block. */
  function BlockOf(v: Volume, ino: Inode, n: nat): (r: Result<nat>)
    requires |ino.direct| == DIRECT
    ensures r.Ok? ==> r.value != 0
  {
    if n < DIRECT then
      if ino.direct[n] == 0 then Bad else Ok(ino.direct[n])
    else if ino.indirect == 0 then Bad
    else
      var slots :- Index(v, ino.indirect);
      if n - DIRECT >= |slots| || slots[n - DIRECT] == 0 then Bad else Ok(slots[n - DIRECT])
  }

  function FileBlock(v: Volume, ino: Inode, n: nat): (r: Result<seq<Byte>>)
    requires |ino.direct| == DIRECT
    ensures r.Ok? ==> |r.value| == v.bs
  {
    var where :- BlockOf(v, ino, n);
    Block(v, where)
  }

  ghost predicate Readable(v: Volume, ino: Inode)
    requires Sized(v) && |ino.direct| == DIRECT
  {
    forall n: nat {:trigger FileBlock(v, ino, n)} :: Times(n, v.bs) < ino.size ==> FileBlock(v, ino, n).Ok?
  }

  /**
   A file's bytes. Inline contents are cut from the inode's own block; otherwise byte k
   is byte k mod bs of the block that holds stretch k div bs.
   */
  ghost function Contents(v: Volume, ino: Inode): (r: Result<seq<Byte>>)
    requires Sized(v) && |ino.direct| == DIRECT
    ensures ino.inlineLen == 0 && r.Ok? ==> Readable(v, ino) && |r.value| == ino.size
  {
    if ino.inlineLen != 0 then Ok(Clip(ino.raw, INODE_SIZE, INODE_SIZE + ino.size))
    else if Readable(v, ino) then
      Ok(seq(ino.size, k requires 0 <= k < ino.size => FileByte(v, ino, k)))
    else Bad
  }

  ghost function FileByte(v: Volume, ino: Inode, k: nat): Byte
    requires Sized(v) && |ino.direct| == DIRECT && Readable(v, ino) && k < ino.size
  {
    Divided(k, v.bs);
    FileBlock(v, ino, Quot(k, v.bs)).value[Rem(k, v.bs)]
  }

  // --- Directory entries ---

  datatype Entry = Entry(name: seq<Byte>, child: nat, kind: nat)

  /** What one record of a directory stream says: the end, nonsense, or an entry and where the next begins. */
  datatype Step = Stop | Broken | Record(here: seq<Entry>, next: nat)

  function NextRecord(s: seq<Byte>, off: nat): (r: Step)
    ensures r.Record? ==> off < r.next <= |s|
  {
    if off + DIRENT_SIZE > |s| then Stop
    else
      var child := U64(s, off);
      var recLen := U16(s, off + 8);
      var nameLen := s[off + 10];
      if recLen == 0 then Stop
      else if recLen < DIRENT_SIZE || off + recLen > |s| || DIRENT_SIZE + nameLen > recLen then Broken
      else
        var name := s[off + DIRENT_SIZE..off + DIRENT_SIZE + nameLen];
        Record(if child == 0 then [] else [Entry(name, child, s[off + 11])], off + recLen)
  }

  ghost predicate Advances(next: nat -> Step, len: nat)
  {
    forall off: nat :: next(off).Record? ==> off < next(off).next <= len
  }

  /** The entries from `off` on, in stored order. */
  function Scan(next: nat -> Step, len: nat, off: nat): Result<seq<Entry>>
    requires Advances(next, len)
    decreases len - off
  {
    match next(off)
    case Stop => Ok([])
    case Broken => Bad
    case Record(here, then_) =>
      var rest :- Scan(next, len, then_);
      Ok(here + rest)
  }

  function NextIn(s: seq<Byte>): nat -> Step
  {
    (off: nat) => NextRecord(s, off)
  }

  function ParseEntries(s: seq<Byte>): Result<seq<Entry>>
  {
    Scan(NextIn(s), |s|, 0)
  }

  function BlocksAt(v: Volume, at: seq<nat>): Result<seq<seq<Byte>>>
  {
    if at == [] then Ok([])
    else
      var b :- Block(v, at[0]);
      var rest :- BlocksAt(v, at[1..]);
      Ok([b] + rest)
  }

  function AllEntries(streams: seq<seq<Byte>>): Result<seq<Entry>>
  {
    if streams == [] then Ok([])
    else
      var here :- ParseEntries(streams[0]);
      var rest :- AllEntries(streams[1..]);
      Ok(here + rest)
  }

  function Streams(v: Volume, ino: Inode): Result<seq<seq<Byte>>>
  {
    if ino.inlineLen != 0 then Ok([Clip(ino.raw, INODE_SIZE, INODE_SIZE + ino.inlineLen)])
    else BlocksAt(v, NonZero(ino.direct))
  }

  function DirEntries(v: Volume, ino: Inode): Result<seq<Entry>>
  {
    var streams :- Streams(v, ino);
    AllEntries(streams)
  }
}

/**
 Superblocks and inodes written out field by field, and that the readers take exactly those: the
 fields at their places, the checksum, and whatever fills the space between.
 */
module ReconFields {
  import opened Bytes
  import opened Arith
  import opened ReconImage

  /** A number in eight bytes, and in four. */
  function Long(n: nat): (b: seq<Byte>)
    ensures |b| == 8
  {
    PackLE(n, LONG)
  }

  function Short(n: nat): (b: seq<Byte>)
    ensures |b| == 4
  {
    PackLE(n, SHORT)
  }

  lemma LongBack(n: nat)
    requires n < LONG_LIMIT
    ensures LE(Long(n)) == n
  {
    hide PackLE;
    Widths();
    UnpackPack(n, LONG);
  }

  lemma ShortBack(n: nat)
    requires n < SHORT_LIMIT
    ensures LE(Short(n)) == n
  {
    hide PackLE;
    Widths();
    UnpackPack(n, SHORT);
  }

  /** Eight bytes are the number read from them, and so are four. */
  lemma LongRead(s: seq<Byte>)
    requires |s| == 8
    ensures s == Long(LE(s)) && LE(s) < LONG_LIMIT
  {
    hide PackLE, LE;
    Widths();
    PackUnpack(s);
    LEBound(s);
  }

  lemma ShortRead(s: seq<Byte>)
    requires |s| == 4
    ensures s == Short(LE(s)) && LE(s) < SHORT_LIMIT
  {
    hide PackLE, LE;
    Widths();
    PackUnpack(s);
    LEBound(s);
  }

  // --- Superblocks ---

  ghost predicate FitSuper(s: Super)
  {
    && s.blockSize in {4096, 8192, 16384, 32768, 65536}
    && s.epoch < LONG_LIMIT && s.total < LONG_LIMIT && s.root < LONG_LIMIT && s.tableRoot < LONG_LIMIT
    && s.tableDepth < SHORT_LIMIT
  }

  function SuperFields(s: Super): (b: seq<Byte>)
    ensures |b| == 52
  {
    Long(0x3153466E6F636552) + Short(1) + Short(s.blockSize) + Long(s.epoch) + Long(s.total) + Long(s.root)
    + Long(s.tableRoot) + Short(s.tableDepth)
  }

  /** The fields, 152 bytes of other things, the checksum, and the rest of the block. */
  function SuperBytes(s: Super, between: seq<Byte>, stored: seq<Byte>, rest: seq<Byte>): seq<Byte>
  {
    SuperFields(s) + between + stored + rest
  }

  /** A sealed superblock lies at `at`. */
  ghost predicate SuperLaid(sum: Sum, data: seq<Byte>, at: nat, s: Super, between: seq<Byte>, stored: seq<Byte>,
      rest: seq<Byte>)
  {
    && |between| == 152 && |stored| == 4 && at + s.blockSize <= |data|
    && data[at..at + s.blockSize] == SuperBytes(s, between, stored, rest)
    && sum(SuperBytes(s, between, ZERO4, rest), stored)
  }

  lemma SuperCuts(a: seq<Byte>, b: seq<Byte>, c: seq<Byte>, d: seq<Byte>, e: seq<Byte>, f: seq<Byte>, g: seq<Byte>,
      h: seq<Byte>, rest: seq<Byte>)
    requires |a| == 8 && |b| == 4 && |c| == 4 && |d| == 8 && |e| == 8 && |f| == 8 && |g| == 8 && |h| == 4
    ensures var s := (a + b + c + d + e + f + g + h) + rest;
            && s[0..8] == a && s[8..12] == b && s[12..16] == c && s[16..24] == d && s[24..32] == e && s[32..40] == f
            && s[40..48] == g && s[48..52] == h
  {
  }

  lemma SuperCut(s: seq<Byte>)
    requires |s| >= 208
    ensures s == (s[0..8] + s[8..12] + s[12..16] + s[16..24] + s[24..32] + s[32..40] + s[40..48] + s[48..52])
                 + s[52..204] + s[204..208] + s[208..]
  {
  }

  /** A block that begins with the fields of s is taken for s. */
  lemma FieldsRead(s: Super, rest: seq<Byte>)
    requires FitSuper(s)
    ensures var head := SuperFields(s) + rest;
            |head| == BLOCK_MIN ==> Plausible(head) && ParseSuper(head) == s
  {
    hide LE, PackLE, Long, Short;
    SuperCuts(Long(0x3153466E6F636552), Short(1), Short(s.blockSize), Long(s.epoch), Long(s.total), Long(s.root),
              Long(s.tableRoot), Short(s.tableDepth), rest);
    LongBack(0x3153466E6F636552);
    ShortBack(1);
    ShortBack(s.blockSize);
    LongBack(s.epoch);
    LongBack(s.total);
    LongBack(s.root);
    LongBack(s.tableRoot);
    ShortBack(s.tableDepth);
    FiveSizes(s.blockSize);
  }

  lemma FiveSizes(bs: nat)
    ensures IsBlockSize(bs) <==> bs in {4096, 8192, 16384, 32768, 65536}
  {
    if IsBlockSize(bs) { BlockSizes(bs); }
    assert PowerOfTwo(1) && PowerOfTwo(2);
    assert PowerOfTwo(8) && PowerOfTwo(64) && PowerOfTwo(512) && PowerOfTwo(4096);
    assert PowerOfTwo(8192);
    assert PowerOfTwo(16384);
    assert PowerOfTwo(32768);
    assert PowerOfTwo(65536);
  }

  /** And one taken for s begins with its fields. */
  lemma FieldsThere(head: seq<Byte>)
    requires |head| == BLOCK_MIN && Plausible(head)
    ensures FitSuper(ParseSuper(head)) && head[..52] == SuperFields(ParseSuper(head))
  {
    hide LE, PackLE, Long, Short;
    SuperCut(head);
    LongRead(head[0..8]);
    ShortRead(head[8..12]);
    ShortRead(head[12..16]);
    LongRead(head[16..24]);
    LongRead(head[24..32]);
    LongRead(head[32..40]);
    LongRead(head[40..48]);
    ShortRead(head[48..52]);
    FiveSizes(U32(head, 12));
  }

  lemma ZeroedSuper(s: Super, between: seq<Byte>, stored: seq<Byte>, rest: seq<Byte>)
    requires |between| == 152 && |stored| == 4
    ensures var b := SuperBytes(s, between, stored, rest);
            && b[204..208] == stored && Patch(b, 204, ZERO4) == SuperBytes(s, between, ZERO4, rest)
  {
    hide SuperFields;
    ZeroedPart(SuperFields(s) + between, stored, rest);
  }

  lemma ZeroedPart(a: seq<Byte>, stored: seq<Byte>, rest: seq<Byte>)
    requires |stored| == 4
    ensures (a + stored + rest)[|a|..|a| + 4] == stored
    ensures Patch(a + stored + rest, |a|, ZERO4) == a + ZERO4 + rest
  {
    var b, p := a + stored + rest, Patch(a + stored + rest, |a|, ZERO4);
    var q := a + ZERO4 + rest;
    forall i | 0 <= i < |b| ensures p[i] == q[i] {
      if |a| <= i < |a| + 4 { assert p[|a|..|a| + 4][i - |a|] == ZERO4[i - |a|]; }
    }
  }

  lemma SlotWritten(sum: Sum, data: seq<Byte>, at: nat, s: Super, between: seq<Byte>, stored: seq<Byte>,
      rest: seq<Byte>)
    requires FitSuper(s) && SuperLaid(sum, data, at, s, between, stored, rest)
    ensures ReadSlot(sum, data, at) == Ok(Some(s))
  {
    hide Plausible, ParseSuper, SuperFields, Patch;
    var full := data[at..at + s.blockSize];
    var head := data[at..at + BLOCK_MIN];
    assert head == full[..BLOCK_MIN];
    assert head == SuperFields(s) + full[52..BLOCK_MIN];
    FieldsRead(s, full[52..BLOCK_MIN]);
    SizeSaid(head);
    ZeroedSuper(s, between, stored, rest);
  }

  lemma SizeSaid(head: seq<Byte>)
    requires |head| == BLOCK_MIN
    ensures ParseSuper(head).blockSize == U32(head, 12)
  {
  }

  lemma SlotHead(sum: Sum, data: seq<Byte>, at: nat, s: Super)
    requires ReadSlot(sum, data, at) == Ok(Some(s))
    ensures FitSuper(s) && at + s.blockSize <= |data|
    ensures data[at..at + 52] == SuperFields(s) && ChecksumOk(sum, data[at..at + s.blockSize], SUPER_CSUM)
  {
    hide Plausible, ParseSuper, SuperFields, ChecksumOk;
    var head := data[at..at + BLOCK_MIN];
    FieldsThere(head);
    SizeSaid(head);
    assert head[..52] == data[at..at + 52];
  }

  lemma SlotTaken(sum: Sum, data: seq<Byte>, at: nat, s: Super)
    returns (between: seq<Byte>, stored: seq<Byte>, rest: seq<Byte>)
    requires ReadSlot(sum, data, at) == Ok(Some(s))
    ensures FitSuper(s) && SuperLaid(sum, data, at, s, between, stored, rest)
  {
    hide ReadSlot, SuperFields, Patch;
    SlotHead(sum, data, at, s);
    var full := data[at..at + s.blockSize];
    between, stored, rest := full[52..204], full[204..208], full[208..];
    assert full[..52] == data[at..at + 52];
    assert full == full[..52] + full[52..204] + full[204..208] + full[208..];
    ZeroedSuper(s, between, stored, rest);
  }

  /** A slot is taken for a superblock exactly when its fields, written out, and their checksum are there. */
  lemma SlotExactly(sum: Sum, data: seq<Byte>, at: nat, s: Super)
    ensures ReadSlot(sum, data, at) == Ok(Some(s)) <==>
            FitSuper(s) && exists between, stored, rest :: SuperLaid(sum, data, at, s, between, stored, rest)
  {
    hide ReadSlot, SuperLaid, FitSuper;
    if ReadSlot(sum, data, at) == Ok(Some(s)) {
      var between, stored, rest := SlotTaken(sum, data, at, s);
    }
    if FitSuper(s) {
      if between, stored, rest :| SuperLaid(sum, data, at, s, between, stored, rest) {
        SlotWritten(sum, data, at, s, between, stored, rest);
      }
    }
  }

  // --- Inodes ---

  /** What an inode says, the bytes nobody reads, and what follows it in its block. */
  datatype Text = Text(dossier: nat, parent: nat, kind: nat, size: nat, inlineLen: nat, direct: seq<nat>,
                       indirect: nat, gaps: Gaps, tail: seq<Byte>)

  datatype Gaps = Gaps(a: seq<Byte>, b: seq<Byte>, c: seq<Byte>, d: seq<Byte>, e: seq<Byte>)

  ghost predicate FitText(x: Text)
  {
    && x.dossier < LONG_LIMIT && x.parent < LONG_LIMIT && x.kind < SHORT_LIMIT && x.size < LONG_LIMIT
    && x.inlineLen < SHORT_LIMIT && |x.direct| == 12 && x.indirect < LONG_LIMIT
    && (forall i :: 0 <= i < 12 ==> x.direct[i] < LONG_LIMIT)
    && |x.gaps.a| == 12 && |x.gaps.b| == 32 && |x.gaps.c| == 4 && |x.gaps.d| == 32 && |x.gaps.e| == 4
  }

  function InodeHead(x: Text): seq<Byte>
  {
    Long(0x316F6E49_6E636552) + Long(x.dossier) + Long(x.parent) + Short(x.kind) + x.gaps.a + Long(x.size) + x.gaps.b
    + Short(x.inlineLen) + x.gaps.c
  }

  function AllLong(ns: seq<nat>): (b: seq<Byte>)
    ensures |b| == 8 * |ns|
  {
    if ns == [] then [] else Long(ns[0]) + AllLong(ns[1..])
  }

  /** Everything before the checksum, 224 bytes of it. */
  function InodeFront(x: Text): seq<Byte>
  {
    InodeHead(x) + AllLong(x.direct) + (Long(x.indirect) + x.gaps.d)
  }

  function InodeBytes(x: Text, stored: seq<Byte>): seq<Byte>
  {
    InodeFront(x) + stored + (x.gaps.e + x.tail)
  }

  ghost predicate InodeLaid(v: Volume, n: nat, x: Text, stored: seq<Byte>)
  {
    && FitText(x) && |stored| == 4 && Block(v, n) == Ok(InodeBytes(x, stored)) && v.sum(InodeBytes(x, ZERO4), stored)
  }

  lemma {:induction false} LongsBack(ns: seq<nat>)
    requires forall i :: 0 <= i < |ns| ==> ns[i] < LONG_LIMIT
    ensures Words(AllLong(ns)) == ns
  {
    hide Long, LE;
    if ns != [] {
      LongsBack(ns[1..]);
      LongBack(ns[0]);
      WordsOfTwo(Long(ns[0]), AllLong(ns[1..]));
      assert ns == [ns[0]] + ns[1..];
    }
  }

  lemma WordsOfTwo(a: seq<Byte>, b: seq<Byte>)
    requires |a| == 8
    ensures Words(a + b) == [LE(a)] + Words(b)
  {
    hide LE;
    var w, u := Words(a + b), [LE(a)] + Words(b);
    forall i | 0 <= i < |w| ensures w[i] == u[i] {
      if i == 0 { assert (a + b)[0..8] == a; } else { LaterWord(a, b, i - 1); }
    }
  }

  lemma LaterWord(a: seq<Byte>, b: seq<Byte>, i: nat)
    requires |a| == 8 && 8 * i + 8 <= |b|
    ensures (a + b)[8 * (i + 1)..8 * (i + 1) + 8] == b[8 * i..8 * i + 8]
  {
  }

  lemma {:induction false} LongsRead(b: seq<Byte>)
    requires |b| % 8 == 0
    ensures AllLong(Words(b)) == b && forall i :: 0 <= i < |Words(b)| ==> Words(b)[i] < LONG_LIMIT
    decreases |b|
  {
    hide Long, LE;
    if b != [] {
      LongsRead(b[8..]);
      LongRead(b[..8]);
      WordsOfTwo(b[..8], b[8..]);
      assert b == b[..8] + b[8..];
    }
  }

  lemma HeadCuts(a: seq<Byte>, b: seq<Byte>, c: seq<Byte>, d: seq<Byte>, e: seq<Byte>, f: seq<Byte>, g: seq<Byte>,
      h: seq<Byte>, i: seq<Byte>, rest: seq<Byte>)
    requires |a| == 8 && |b| == 8 && |c| == 8 && |d| == 4 && |e| == 12 && |f| == 8 && |g| == 32 && |h| == 4 && |i| == 4
    ensures var s := (a + b + c + d + e + f + g + h + i) + rest;
            s[0..8] == a && s[8..16] == b && s[16..24] == c && s[24..28] == d && s[40..48] == f && s[80..84] == h
  {
  }

  lemma HeadCut(s: seq<Byte>)
    requires |s| >= 88
    ensures s[..88] == s[0..8] + s[8..16] + s[16..24] + s[24..28] + s[28..40] + s[40..48] + s[48..80] + s[80..84]
                       + s[84..88]
  {
  }

  lemma FrontCuts(head: seq<Byte>, direct: seq<Byte>, indirect: seq<Byte>, d: seq<Byte>, rest: seq<Byte>)
    requires |head| == 88 && |direct| == 96 && |indirect| == 8
    ensures var s := head + direct + (indirect + d) + rest;
            && s[..88] == head && s[88..184] == direct && s[184..192] == indirect
            && s == head + (direct + (indirect + d) + rest)
  {
  }

  /** An inode written out is read as meant. */
  lemma TextRead(x: Text, stored: seq<Byte>)
    requires FitText(x) && |stored| == 4
    ensures var b := InodeBytes(x, stored);
            |b| >= BLOCK_MIN ==>
              U64(b, 0) == INODE_MAGIC && ParseInode(b)
              == Inode(x.dossier, x.parent, x.kind, x.size, x.inlineLen, x.direct, x.indirect, b)
  {
    hide LE, PackLE, Long, Short, Words, AllLong;
    var rest := stored + (x.gaps.e + x.tail);
    var b := InodeBytes(x, stored);
    assert b == InodeFront(x) + rest;
    FrontCuts(InodeHead(x), AllLong(x.direct), Long(x.indirect), x.gaps.d, rest);
    HeadCuts(Long(0x316F6E49_6E636552), Long(x.dossier), Long(x.parent), Short(x.kind), x.gaps.a, Long(x.size),
             x.gaps.b, Short(x.inlineLen), x.gaps.c, AllLong(x.direct) + (Long(x.indirect) + x.gaps.d) + rest);
    LongBack(0x316F6E49_6E636552);
    LongBack(x.dossier);
    LongBack(x.parent);
    ShortBack(x.kind);
    LongBack(x.size);
    ShortBack(x.inlineLen);
    LongsBack(x.direct);
    LongBack(x.indirect);
  }

  lemma ZeroedInode(x: Text, stored: seq<Byte>)
    requires FitText(x) && |stored| == 4
    ensures var b := InodeBytes(x, stored);
            && |b| >= 232 && b[224..228] == stored && Patch(b, 224, ZERO4) == InodeBytes(x, ZERO4)
  {
    hide PackLE, Long, Short, AllLong;
    assert |InodeFront(x)| == 224;
    ZeroedPart(InodeFront(x), stored, x.gaps.e + x.tail);
  }

  lemma InodeWritten(v: Volume, n: nat, x: Text, stored: seq<Byte>)
    requires Sized(v) && InodeLaid(v, n, x, stored)
    ensures ReadInode(v, n) == Ok(Inode(x.dossier, x.parent, x.kind, x.size, x.inlineLen, x.direct, x.indirect,
                                        InodeBytes(x, stored)))
  {
    hide LE, Block, InodeBytes, ParseInode, Patch;
    TextRead(x, stored);
    ZeroedInode(x, stored);
  }

  /** The text of a block, whatever it is. */
  function TextOf(b: seq<Byte>): Text
    requires |b| >= BLOCK_MIN
  {
    Text(U64(b, 8), U64(b, 16), U32(b, 24), U64(b, 40), U32(b, 80), Words(b[88..184]), U64(b, 184),
         Gaps(b[28..40], b[48..80], b[84..88], b[192..224], b[228..232]), b[232..])
  }

  lemma FrontCut(s: seq<Byte>)
    requires |s| >= 232
    ensures s == s[..88] + s[88..184] + (s[184..192] + s[192..224]) + s[224..228] + (s[228..232] + s[232..])
  {
  }

  lemma TextThere(b: seq<Byte>)
    requires |b| >= BLOCK_MIN && U64(b, 0) == INODE_MAGIC
    ensures FitText(TextOf(b)) && b == InodeBytes(TextOf(b), b[224..228])
  {
    hide LE, PackLE, Long, Short, Words, AllLong;
    HeadCut(b);
    FrontCut(b);
    LongRead(b[0..8]);
    LongRead(b[8..16]);
    LongRead(b[16..24]);
    ShortRead(b[24..28]);
    LongRead(b[40..48]);
    ShortRead(b[80..84]);
    LongsRead(b[88..184]);
    LongRead(b[184..192]);
  }

  lemma InodeTaken(v: Volume, n: nat) returns (x: Text, stored: seq<Byte>)
    requires Sized(v) && ReadInode(v, n).Ok?
    ensures InodeLaid(v, n, x, stored)
  {
    hide LE, Block, InodeBytes, ParseInode, Patch, FitText;
    var b := Block(v, n).value;
    x, stored := TextOf(b), b[224..228];
    TextThere(b);
    ZeroedInode(x, stored);
  }

  /** A block is taken for an inode exactly when its fields, written out, and their checksum are there. */
  lemma InodeExactly(v: Volume, n: nat, ino: Inode)
    requires Sized(v)
    ensures ReadInode(v, n) == Ok(ino) <==>
            exists x, stored :: InodeLaid(v, n, x, stored)
                                && ino == Inode(x.dossier, x.parent, x.kind, x.size, x.inlineLen, x.direct, x.indirect,
                                                InodeBytes(x, stored))
  {
    hide ReadInode, InodeLaid, InodeBytes;
    if ReadInode(v, n).Ok? {
      var x, stored := InodeTaken(v, n);
      InodeWritten(v, n, x, stored);
    }
    if x: Text, stored :| InodeLaid(v, n, x, stored)
                          && ino == Inode(x.dossier, x.parent, x.kind, x.size, x.inlineLen, x.direct, x.indirect,
                                          InodeBytes(x, stored)) {
      InodeWritten(v, n, x, stored);
    }
  }

  /** A file kept inside its inode is what follows the inode in its block, up to its size or the end of the block. */
  lemma InlineContents(v: Volume, n: nat, x: Text, stored: seq<Byte>)
    requires Sized(v) && InodeLaid(v, n, x, stored) && x.inlineLen != 0
    ensures var ino := ReadInode(v, n);
            && ino.Ok?
            && Contents(v, ino.value) == Ok(if x.size < |x.tail| then x.tail[..x.size] else x.tail)
  {
    hide LE, Block, PackLE, Long, Short, AllLong;
    InodeWritten(v, n, x, stored);
    var b := InodeBytes(x, stored);
    hide ReadInode;
    assert |InodeFront(x)| == 224;
    assert b[232..] == x.tail;
    assert |b| == 232 + |x.tail|;
    if x.size < |x.tail| { assert b[232..232 + x.size] == x.tail[..x.size]; }
  }
}

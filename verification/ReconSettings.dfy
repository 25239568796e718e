/**
 Images with one file in the root directory, called settings: what the check says of them, one on
 which an owner of zero hides a block claimed twice, and two for the `torn` damage.
 */
module ReconSettings {
  import opened Bytes
  import Crc
  import opened Arith
  import opened ReconImage
  import opened ReconTree
  import opened ReconVerdict
  import opened ReconCheck
  import opened ReconBlocks
  import opened ReconSmall
  import opened ReconDamage
  import opened ReconCaught
  import opened ReconTorn

  const SUPER: Super := Super(4096, 1, 21, 17, 18, 0)
  const BS: nat := 4096
  const LENGTH: nat := 86016
  const ROOT_AT: nat := 69632
  const LEAF_AT: nat := 73728
  const FILE_AT: nat := 77824
  const DATA_AT: nat := 81920

  const FILE: nat := 19
  const DATA: nat := 20
  const DIRECTORY: nat := 5
  const RECORD: nat := 24
  const LONE: nat := 1

  /** The bytes of the name. */
  const NAME: seq<Byte> := [0x73, 0x65, 0x74, 0x74, 0x69, 0x6E, 0x67, 0x73]

  // --- The root directory ---

  /** One directory record: child, length, name length, type, four bytes unused, name. */
  function RecordByte(i: nat): Byte
  {
    if i < 8 then PackLE(FILE, LONG)[i]
    else if i < 10 then PackLE(RECORD, HALF)[i - 8]
    else if i == 10 then 8
    else if i == 11 then TYPE_FILE
    else if 16 <= i < 24 then NAME[i - 16]
    else 0
  }

  function RecordOf(): (r: seq<Byte>)
    ensures |r| == 24
  {
    seq(24, (i: nat) => RecordByte(i))
  }

  lemma RecordReads()
    ensures NextRecord(RecordOf(), 0) == Record([Entry(NAME, FILE, TYPE_FILE)], 24)
    ensures NextRecord(RecordOf(), 24) == Stop
  {
    hide PackLE, LE;
    var r := RecordOf();
    assert r[0..8] == PackLE(FILE, LONG) && r[8..10] == PackLE(RECORD, HALF) && r[16..24] == NAME;
    assert r[10] == 8 && r[11] == TYPE_FILE;
    Widths();
    UnpackPack(FILE, LONG);
    UnpackPack(RECORD, HALF);
  }

  lemma RecordParses()
    ensures ParseEntries(RecordOf()) == Ok([Entry(NAME, FILE, TYPE_FILE)])
  {
    var r := RecordOf();
    RecordReads();
    hide RecordOf, NextRecord;
    var next := NextIn(r);
    assert next(0) == Record([Entry(NAME, FILE, TYPE_FILE)], 24) && next(24) == Stop;
    assert Scan(next, |r|, 24) == Ok([]);
    assert [Entry(NAME, FILE, TYPE_FILE)] + [] == [Entry(NAME, FILE, TYPE_FILE)];
  }

  function RootShape(): Shape { Shape(DIRECTORY, 0, TYPE_DIR, 0, RECORD, 0, 0, RecordOf()) }

  /** The record lies after the inode, in its own block, and the seal does not touch it. */
  lemma RootTail(stamp: Stamp)
    requires |stamp(InodeBlock(RootShape(), BS))| == 4
    ensures Clip(InodeOf(stamp, RootShape(), BS), INODE_SIZE, INODE_SIZE + RECORD) == RecordOf()
  {
    hide PackLE, RecordOf;
    var p := InodeBlock(RootShape(), BS);
    assert p[INODE_SIZE..INODE_SIZE + RECORD] == RecordOf();
    hide InodeBlock;
    SealedField(stamp, p, INODE_CSUM, INODE_SIZE, INODE_SIZE + RECORD);
  }

  lemma RootLists(v: Volume, stamp: Stamp, root: Inode)
    requires |stamp(InodeBlock(RootShape(), BS))| == 4 && root.inlineLen == RECORD
             && root.raw == InodeOf(stamp, RootShape(), BS)
    ensures DirEntries(v, root) == Ok([Entry(NAME, FILE, TYPE_FILE)])
  {
    RootTail(stamp);
    RecordParses();
    hide RecordOf, InodeOf, ParseEntries, Clip;
    var es := [Entry(NAME, FILE, TYPE_FILE)];
    assert [RecordOf()][1..] == [];
    assert AllEntries([]) == Ok([]);
    assert es + [] == es;
    assert AllEntries([RecordOf()]) == Ok(es);
  }

  // --- The image ---

  /** The file: its number, its size, and a second slot that may name its block again. */
  datatype Plan = Plan(dossier: nat, size: nat, second: nat, content: seq<Byte>)

  ghost predicate Fair(p: Plan) { p.dossier < 256 && p.size <= BS && p.second < 256 && |p.content| == BS }

  function FileShape(p: Plan): Shape { Shape(p.dossier, DIRECTORY, TYPE_FILE, p.size, 0, DATA, p.second, []) }

  function OwnerWords(dossier: nat): (w: seq<nat>)
    ensures |w| == 21
    ensures forall b :: 0 <= b < 21 ==>
              w[b] == if b < 19 then OWNER_ARCHIVE else if b == FILE then DIRECTORY else dossier
  {
    seq(21, b => if b < 19 then OWNER_ARCHIVE else if b == FILE then DIRECTORY else dossier)
  }

  /** The image has these blocks at these places, and no second superblock. */
  ghost predicate Holds(stamp: Stamp, p: Plan, data: seq<Byte>)
  {
    && (forall m {:trigger stamp(m)} :: |stamp(m)| == 4)
    && |data| == LENGTH
    && data[0..BS] == Sealed(stamp, SuperBlock(SUPER, BS), SUPER_CSUM)
    && data[BLOCK_MAX] == 0
    && data[ROOT_AT..LEAF_AT] == InodeOf(stamp, RootShape(), BS)
    && data[LEAF_AT..FILE_AT] == LeafOf(OwnerWords(p.dossier), BS)
    && data[FILE_AT..DATA_AT] == InodeOf(stamp, FileShape(p), BS)
    && data[DATA_AT..LENGTH] == p.content
  }

  function Lay(a: seq<Byte>, c: seq<Byte>, d: seq<Byte>, e: seq<Byte>, f: seq<Byte>): (data: seq<Byte>)
    requires |a| == |c| == |d| == |e| == |f| == BS
    ensures |data| == LENGTH && data[BLOCK_MAX] == 0
    ensures data[0..BS] == a && data[ROOT_AT..LEAF_AT] == c && data[LEAF_AT..FILE_AT] == d
    ensures data[FILE_AT..DATA_AT] == e && data[DATA_AT..LENGTH] == f
  {
    seq(LENGTH, i requires 0 <= i < LENGTH =>
      if i < BS then a[i]
      else if ROOT_AT <= i < LEAF_AT then c[i - ROOT_AT]
      else if LEAF_AT <= i < FILE_AT then d[i - LEAF_AT]
      else if FILE_AT <= i < DATA_AT then e[i - FILE_AT]
      else if DATA_AT <= i then f[i - DATA_AT]
      else 0)
  }

  ghost function Sample(sum: Sum, stamp: Stamp, p: Plan): (data: seq<Byte>)
    requires Stamps(sum, stamp) && Fair(p)
    ensures Holds(stamp, p, data)
  {
    Lay(Sealed(stamp, SuperBlock(SUPER, BS), SUPER_CSUM), InodeOf(stamp, RootShape(), BS),
        LeafOf(OwnerWords(p.dossier), BS), InodeOf(stamp, FileShape(p), BS), p.content)
  }

  // --- Loading it ---

  lemma Size()
    ensures SmallSuper(SUPER) && IsBlockSize(BS)
  {
    assert PowerOfTwo(1);
    assert PowerOfTwo(8) && PowerOfTwo(64) && PowerOfTwo(512) && PowerOfTwo(4096);
  }

  lemma FirstReads(sum: Sum, stamp: Stamp, data: seq<Byte>)
    requires Stamps(sum, stamp) && |data| == LENGTH && data[0..BS] == Sealed(stamp, SuperBlock(SUPER, BS), SUPER_CSUM)
    ensures ReadSlot(sum, data, 0) == Ok(Some(SUPER))
  {
    var p := SuperBlock(SUPER, BS);
    Size();
    SuperParts(SUPER, BS);
    hide SuperBlock, IsBlockSize, Plausible, ParseSuper, LE;
    SealedField(stamp, p, SUPER_CSUM, 0, 52);
    SuperReads(SUPER, data[0..BS]);
    SealedOk(sum, stamp, p, SUPER_CSUM);
    hide Sealed, ChecksumOk;
    SlotIs(sum, data, 0, data[0..BS]);
  }

  /** A slot whose first byte is zero is no superblock. */
  lemma NoSecond(head: seq<Byte>)
    requires |head| == BLOCK_MIN && head[0] == 0
    ensures !Plausible(head)
  {
    var s := head[0..8];
    assert LE(s) == s[0] + 256 * LE(s[1..]);
    assert LE(s) % 256 == 0;
  }

  lemma Loads(sum: Sum, stamp: Stamp, p: Plan, data: seq<Byte>)
    requires Stamps(sum, stamp) && Holds(stamp, p, data)
    ensures Load(sum, data) == Ok(Loaded(SUPER, 0)) && SecondSlotFits(sum, data)
  {
    FirstReads(sum, stamp, data);
    var head := data[BLOCK_MAX..BLOCK_MAX + BLOCK_MIN];
    NoSecond(head);
    hide Plausible, LE, ParseSuper, ChecksumOk, Sealed, InodeOf, LeafOf;
  }

  // --- The volume ---

  ghost function Vol(sum: Sum, data: seq<Byte>): (v: Volume)
    ensures Sized(v)
  {
    Size();
    Volume(sum, data, BS, SUPER)
  }

  function RootInode(stamp: Stamp): Inode
    requires |stamp(InodeBlock(RootShape(), BS))| == 4
  {
    Inode(DIRECTORY, 0, TYPE_DIR, 0, RECORD, Slots(0, 0), 0, InodeOf(stamp, RootShape(), BS))
  }

  function FileInode(stamp: Stamp, p: Plan): Inode
    requires |stamp(InodeBlock(FileShape(p), BS))| == 4
  {
    Inode(p.dossier, DIRECTORY, TYPE_FILE, p.size, 0, Slots(DATA, p.second), 0, InodeOf(stamp, FileShape(p), BS))
  }

  lemma BlocksPlaced(sum: Sum, stamp: Stamp, p: Plan, data: seq<Byte>)
    requires Holds(stamp, p, data)
    ensures var v := Vol(sum, data);
            && Block(v, 17) == Ok(InodeOf(stamp, RootShape(), BS))
               && Block(v, 18) == Ok(LeafOf(OwnerWords(p.dossier), BS))
            && Block(v, FILE) == Ok(InodeOf(stamp, FileShape(p), BS)) && Block(v, DATA) == Ok(p.content)
  {
    hide InodeOf, LeafOf, Sealed, OwnerWords, RootShape, FileShape;
    TimesIs(17, BS);
    TimesIs(18, BS);
    TimesIs(FILE, BS);
    TimesIs(DATA, BS);
  }

  lemma VolumeReads(sum: Sum, stamp: Stamp, p: Plan, data: seq<Byte>)
    requires Stamps(sum, stamp) && Fair(p) && Holds(stamp, p, data)
    ensures OneFile(Vol(sum, data), RootInode(stamp), NAME, FILE, FileInode(stamp, p), OwnerWords(p.dossier))
  {
    hide LE, Quot, Rem, Times, EntryAt;
    var v := Vol(sum, data);
    BlocksPlaced(sum, stamp, p, data);
    hide InodeOf, LeafOf, Sealed, Block, Owners, ReadInode, DirEntries, RecordOf, Holds;
    OneLeaf(v, OwnerWords(p.dossier));
    InodeReads(sum, stamp, RootShape(), v, 17);
    InodeReads(sum, stamp, FileShape(p), v, FILE);
    RootLists(v, stamp, RootInode(stamp));
  }

  lemma ReservedRun()
    ensures Reserved(BS) == 17
  {
    TimesIs(16, BS);
    DividedOnce(BLOCK_MAX, 16, BS, 0);
  }

  lemma TimesAtLeast(n: nat, d: nat)
    ensures n > 0 ==> Times(n, d) >= d
  {
  }

  /** What the check asks of the wanted file, given its bytes. */
  lemma Readings(sum: Sum, stamp: Stamp, p: Plan, data: seq<Byte>)
    requires Stamps(sum, stamp) && Fair(p) && Holds(stamp, p, data)
    ensures Contents(Vol(sum, data), FileInode(stamp, p)) == Ok(p.content[..p.size])
  {
    var v, ino := Vol(sum, data), FileInode(stamp, p);
    BlocksPlaced(sum, stamp, p, data);
    hide InodeOf, LeafOf, Sealed, Block, Holds;
    assert BlockOf(v, ino, 0) == Ok(DATA);
    assert FileBlock(v, ino, 0) == Ok(p.content);
    forall n: nat | Times(n, v.bs) < ino.size ensures FileBlock(v, ino, n).Ok? {
      TimesAtLeast(n, v.bs);
    }
    assert Readable(v, ino);
    forall k: nat | k < ino.size ensures FileByte(v, ino, k) == p.content[k] { FirstLeaf(k, v.bs); }
    assert Contents(v, ino).value == p.content[..p.size];
  }

  // --- What the check says ---

  /** A file with a number, one block and the right size passes exactly when it is no payload or a whole one. */
  lemma NumberedPasses(sum: Sum, stamp: Stamp, p: Plan, data: seq<Byte>, key: seq<Byte> -> string)
    requires Stamps(sum, stamp) && Fair(p) && Holds(stamp, p, data) && p.dossier != 0 && p.second == 0
    requires key(NAME) == SETTINGS
    ensures var c := p.content[..p.size];
            && (Passes(sum, data, Some(SETTINGS), key) <==> (LooksLikePayload(c) ==> WholePayload(sum, c)))
            && (Passes(sum, data, Some(SETTINGS), key) ==>
                  (Check(sum, data, Some(SETTINGS), key).value.round.Some? <==> LooksLikePayload(c)))
  {
    hide LE, Quot, Rem, Times, EntryAt, NonZero, OwnerWords;
    var v := Vol(sum, data);
    Loads(sum, stamp, p, data);
    hide Passes, Load, SecondSlotFits, Check;
    NumberedAccepted(sum, stamp, p, data);
    SettingsFound(sum, stamp, p, data, key);
    hide FoundIn, Accepted, LooksLikePayload, WholePayload, OneFile;
    PassesParts(sum, data, Some(SETTINGS), key);
    if Passes(sum, data, Some(SETTINGS), key) { PassedRound(sum, data, Loaded(SUPER, 0), key); }
  }

  lemma NumberedAccepted(sum: Sum, stamp: Stamp, p: Plan, data: seq<Byte>)
    requires Stamps(sum, stamp) && Fair(p) && Holds(stamp, p, data) && p.dossier != 0 && p.second == 0
    ensures Owners(Vol(sum, data)) == Ok(OwnerWords(p.dossier))
            && Accepted(ViewOf(Vol(sum, data)), OwnerWords(p.dossier))
    ensures RootEntries(Vol(sum, data)) == Ok([Entry(NAME, FILE, TYPE_FILE)])
  {
    hide LE, Quot, Rem, Times, EntryAt, OwnerWords;
    var v, root, file := Vol(sum, data), RootInode(stamp), FileInode(stamp, p);
    VolumeReads(sum, stamp, p, data);
    SlotsUsed(DATA, 0);
    hide Holds, InodeOf, ReadInode, DirEntries, Owners, Accepted, Few, ViewOf, Fixed, OwnerWords, Slots, NonZero;
    FewBlocks(v, root, p.dossier);
    NumberedFileAccepted(v, root, NAME, FILE, file, DATA, OwnerWords(p.dossier));
  }

  /** The owner table agrees with the claims on the volume, with the file's block or, if it is void, without. */
  lemma FewBlocks(v: Volume, root: Inode, dossier: nat)
    requires Sized(v) && v.bs == BS && v.super == SUPER && root.dossier == DIRECTORY
    ensures Few(ViewOf(v), Fixed(v, root, FILE) + [Claim(DATA, dossier)], OwnerWords(dossier))
    ensures dossier == 0 ==> Few(ViewOf(v), Fixed(v, root, FILE), OwnerWords(dossier))
  {
    ReservedRun();
    var few := Fixed(v, root, FILE);
    assert few[0].blk == 18 && few[1].blk == 17 && few[2].blk == FILE;
    var more := few + [Claim(DATA, dossier)];
    assert more[0] == few[0] && more[1] == few[1] && more[2] == few[2] && more[3] == Claim(DATA, dossier);
    hide ReadNode, Index, Reserved, IsBlockSize;
  }

  lemma SettingsFound(sum: Sum, stamp: Stamp, p: Plan, data: seq<Byte>, key: seq<Byte> -> string)
    requires Stamps(sum, stamp) && Fair(p) && Holds(stamp, p, data) && key(NAME) == SETTINGS
    ensures var c := p.content[..p.size];
            var f := FoundIn(Vol(sum, data), Some(SETTINGS), key);
            && (f.problems == [] <==> (LooksLikePayload(c) ==> WholePayload(sum, c)))
            && (f.problems == [] ==> (f.round.Some? <==> LooksLikePayload(c)))
  {
    hide LE, Quot, Rem, Times, EntryAt, NonZero, OwnerWords;
    var v := Vol(sum, data);
    VolumeReads(sum, stamp, p, data);
    Readings(sum, stamp, p, data);
    hide Holds, InodeOf, ReadInode, DirEntries, Contents, LooksLikePayload, WholePayload, Owners;
    NameMatches(key);
    FoundSettings(v, key, FILE, FileInode(stamp, p));
  }

  lemma NameMatches(key: seq<Byte> -> string)
    requires key(NAME) == SETTINGS
    ensures Matches([Entry(NAME, FILE, TYPE_FILE)], SETTINGS, key) == [FILE]
  {
    assert [Entry(NAME, FILE, TYPE_FILE)][1..] == [];
    assert Matches([], SETTINGS, key) == [];
  }

  // --- Owner zero ---

  /** A file numbered zero that lists its one block twice, on a block the owner table calls void. */
  function Twice(): Plan
  {
    Plan(0, 8, DATA, Zeros(BS))
  }

  /**
   An image that passes although one of its blocks is listed twice, is reached, and is void:
   without a number, soundness fails, and this is how.
   */
  lemma DossierZeroHides(sum: Sum, stamp: Stamp, key: seq<Byte> -> string) returns (data: seq<Byte>)
    requires Stamps(sum, stamp)
    ensures Passes(sum, data, None, key) && Load(sum, data) == Ok(Loaded(SUPER, 0))
    ensures var v := Vol(sum, data);
            && Owners(v).Ok? && DATA < |Owners(v).value| && Owners(v).value[DATA] == OWNER_VOID
            && Reaches(ViewOf(v), v.super.root, DATA)
            && ReadInode(v, FILE).Ok? && NonZero(ReadInode(v, FILE).value.direct) == [DATA, DATA]
  {
    var p := Twice();
    data := Sample(sum, stamp, p);
    hide Holds, Passes, Load, Owners, ReadInode, Reaches, SecondSlotFits;
    Loads(sum, stamp, p, data);
    TwicePasses(sum, stamp, p, data, key);
    TwiceReads(sum, stamp, p, data);
  }

  lemma SlotTwice()
    ensures NonZero(Slots(DATA, DATA)) == [DATA, DATA]
  {
    SlotsUsed(DATA, DATA);
  }

  lemma TwiceAccepted(sum: Sum, stamp: Stamp, p: Plan, data: seq<Byte>)
    requires Stamps(sum, stamp) && Fair(p) && Holds(stamp, p, data) && p.dossier == 0 && p.second == DATA
    ensures Owners(Vol(sum, data)) == Ok(OwnerWords(0)) && Accepted(ViewOf(Vol(sum, data)), OwnerWords(0))
    ensures RootEntries(Vol(sum, data)) == Ok([Entry(NAME, FILE, TYPE_FILE)])
  {
    hide LE, Quot, Rem, Times, EntryAt, NonZero, OwnerWords;
    var v, root, file := Vol(sum, data), RootInode(stamp), FileInode(stamp, p);
    VolumeReads(sum, stamp, p, data);
    hide Holds, InodeOf, ReadInode, DirEntries, Owners, Accepted, Few, ViewOf, Fixed, Slots, NonZero, OwnerWords;
    SlotTwice();
    FewBlocks(v, root, 0);
    UnnumberedFileAccepted(v, root, NAME, FILE, file, OwnerWords(0));
  }

  lemma TwicePasses(sum: Sum, stamp: Stamp, p: Plan, data: seq<Byte>, key: seq<Byte> -> string)
    requires Stamps(sum, stamp) && Fair(p) && Holds(stamp, p, data) && p.dossier == 0 && p.second == DATA
    ensures Passes(sum, data, None, key)
  {
    Loads(sum, stamp, p, data);
    TwiceAccepted(sum, stamp, p, data);
    hide Holds, Owners, Accepted, Load, Passes, SecondSlotFits, ViewOf, RootEntries;
    PassesParts(sum, data, None, key);
  }

  lemma TwiceReads(sum: Sum, stamp: Stamp, p: Plan, data: seq<Byte>)
    requires Stamps(sum, stamp) && Fair(p) && Holds(stamp, p, data) && p.dossier == 0 && p.second == DATA
    ensures var v := Vol(sum, data);
            && Owners(v).Ok? && DATA < |Owners(v).value| && Owners(v).value[DATA] == OWNER_VOID
            && Reaches(ViewOf(v), v.super.root, DATA)
            && ReadInode(v, FILE).Ok? && NonZero(ReadInode(v, FILE).value.direct) == [DATA, DATA]
  {
    hide LE, Quot, Rem, Times, EntryAt, NonZero, OwnerWords;
    var v, root, file := Vol(sum, data), RootInode(stamp), FileInode(stamp, p);
    VolumeReads(sum, stamp, p, data);
    hide Holds, InodeOf, ReadInode, DirEntries, Owners, Slots, Reaches, ReadNode, ViewOf, NonZero, OwnerWords;
    SlotTwice();
    TwoNodes(v, root, file, OwnerWords(0));
    ViewRoot(v);
    DataReached(ViewOf(v));
  }

  lemma ViewRoot(v: Volume)
    requires Sized(v)
    ensures ViewOf(v).root == v.super.root
  {
  }

  /** The volume as the walk sees it: the root names the file, and the file names nothing. */
  lemma TwoNodes(v: Volume, root: Inode, file: Inode, words: seq<nat>)
    requires Sized(v) && OneFile(v, root, NAME, FILE, file, words)
    ensures var view := ViewOf(v);
            && view.node(v.super.root) == Ok(Node(root.dossier, 0, Directory, [], [FILE]))
            && view.node(FILE) == Ok(Node(file.dossier, root.dossier, File, NonZero(file.direct), []))
  {
    FileTreeIs(v, root, NAME, FILE, file, words);
  }

  lemma DataReached(view: View)
    requires view.root == 17 && view.node(17).Ok? && view.node(17).value.kind.Directory?
             && view.node(17).value.kids == [FILE]
    requires view.node(FILE).Ok? && DATA in view.node(FILE).value.own
    ensures Reaches(view, 17, DATA)
  {
    assert IsPath(view, [17, FILE]) && EndsAt(view, [17, FILE], DATA);
  }

  // --- Tearing ---

  lemma Onward(view: View, path: seq<nat>, i: nat)
    requires IsPath(view, path) && i + 1 < |path|
    ensures view.node(path[i]).Ok? && view.node(path[i]).value.kind.Directory?
    ensures path[i + 1] in view.node(path[i]).value.kids
  {
  }

  /** Every path ends at the root or at the file, and both are numbered. */
  lemma AllOfIt(view: View, dossier: nat, own: seq<nat>)
    requires dossier != 0 && view.node(17) == Ok(Node(DIRECTORY, 0, Directory, [], [FILE]))
    requires view.node(FILE) == Ok(Node(dossier, DIRECTORY, File, own, []))
    ensures Numbered(view, 17)
  {
    forall path {:trigger IsPath(view, path)} | IsPath(view, path) && path[0] == 17 && view.node(path[|path| - 1]).Ok?
      ensures view.node(path[|path| - 1]).value.dossier != 0
    {
      if |path| > 1 {
        Onward(view, path, 0);
      }
    }
  }

  lemma PlainHere(sum: Sum, stamp: Stamp, p: Plan, data: seq<Byte>, key: seq<Byte> -> string)
    requires Stamps(sum, stamp) && Fair(p) && Holds(stamp, p, data) && p.dossier != 0 && p.second == 0 && p.size >= 4
    requires key(NAME) == SETTINGS
    ensures PlainSettings(Vol(sum, data), key, FILE, FileInode(stamp, p))
    ensures Numbered(ViewOf(Vol(sum, data)), SUPER.root)
  {
    hide LE, Quot, Rem, Times, EntryAt, NonZero, OwnerWords;
    var v, root, file := Vol(sum, data), RootInode(stamp), FileInode(stamp, p);
    VolumeReads(sum, stamp, p, data);
    hide Holds, InodeOf, ReadInode, DirEntries, Owners, IsBlockSize, Numbered, ReadNode, ViewOf, Slots, NonZero,
        OwnerWords;
    TwoNodes(v, root, file, OwnerWords(p.dossier));
    NameMatches(key);
    FirstLeaf(p.size - 1, BS);
    AllOfIt(ViewOf(v), p.dossier, NonZero(file.direct));
  }

  /** The `torn` damage aims at the last four bytes of the file, and they are raised by one if they can be. */
  lemma TornHere(sum: Sum, stamp: Stamp, p: Plan, data: seq<Byte>, key: seq<Byte> -> string)
    requires Stamps(sum, stamp) && Fair(p) && Holds(stamp, p, data) && p.dossier != 0 && p.second == 0 && p.size >= 4
    requires key(NAME) == SETTINGS
    ensures Damage(sum, data, Torn, key) == Bump(data, DATA_AT + p.size - 4)
  {
    hide LE, Quot, Rem, Times, EntryAt, NonZero, OwnerWords, ReadInode, IsBlockSize, InodeOf;
    hide Holds, PlainSettings, Numbered, Load, SecondSlotFits, Bump, Damage, TornDamage, TornAt, SettingsInode;
    var v, file := Vol(sum, data), FileInode(stamp, p);
    Loads(sum, stamp, p, data);
    PlainHere(sum, stamp, p, data, key);
    DamageTorn(sum, data, Loaded(SUPER, 0), key);
    SettingsAre(v, key, FILE, file);
    AimsHere(v, file, p);
    TornDamageIs(v, key, file, DATA_AT + p.size - 4);
  }

  lemma AimsHere(v: Volume, file: Inode, p: Plan)
    requires Sized(v) && v.bs == BS && file.direct == Slots(DATA, 0) && file.inlineLen == 0 && file.size == p.size
    requires 4 <= p.size <= BS
    ensures TornAt(v, file) == Ok(DATA_AT + p.size - 4)
  {
    FirstLeaf(p.size - 1, BS);
    TimesIs(DATA, BS);
    hide Quot, Rem, Times, IsBlockSize;
    SpotAimed(v, file, 0, DATA, p.size - 4);
  }

  /**
   From any such image, exactly: it passes before, and it passes after the `torn` damage just when
   the file is no payload. So the damage goes unnoticed on a file the crash workload did not write.
   */
  lemma TornBothWays(sum: Sum, stamp: Stamp, p: Plan, data: seq<Byte>, data': seq<Byte>, key: seq<Byte> -> string)
    requires Stamps(sum, stamp) && Fair(p) && Holds(stamp, p, data) && p.dossier != 0 && p.second == 0 && p.size >= 8
    requires key(NAME) == SETTINGS
    requires LooksLikePayload(p.content[..p.size]) ==> WholePayload(sum, p.content[..p.size])
    requires Damage(sum, data, Torn, key) == Ok(data')
    ensures Passes(sum, data, Some(SETTINGS), key)
    ensures Passes(sum, data', Some(SETTINGS), key) <==> !LooksLikePayload(p.content[..p.size])
  {
    hide LE, Quot, Rem, Times, EntryAt, NonZero, OwnerWords;
    Loads(sum, stamp, p, data);
    PlainHere(sum, stamp, p, data, key);
    NumberedPasses(sum, stamp, p, data, key);
    hide Holds, InodeOf, Passes, Load, SecondSlotFits, Bump, PlainSettings, Numbered, Check, LooksLikePayload, Damage,
        Poised;
    hide WholePayload, Contents;
    var at, piece := TornExact(sum, data, key, Loaded(SUPER, 0), FILE, FileInode(stamp, p), data');
  }

  // --- Two files to tear ---

  /** Eight zero bytes: no payload. */
  function Nothing(): Plan { Plan(7, 8, 0, Zeros(BS)) }

  /** The damage is done and goes unnoticed, on a file that is no payload. */
  lemma TornUnnoticed(sum: Sum, stamp: Stamp, key: seq<Byte> -> string) returns (data: seq<Byte>, data': seq<Byte>)
    requires Stamps(sum, stamp) && key(NAME) == SETTINGS
    ensures Passes(sum, data, Some(SETTINGS), key)
    ensures Damage(sum, data, Torn, key) == Ok(data') && Passes(sum, data', Some(SETTINGS), key)
  {
    var p := Nothing();
    data := Sample(sum, stamp, p);
    TornHere(sum, stamp, p, data, key);
    HoldsContent(stamp, p, data, 4, 8);
    SmallNext(data, DATA_AT + 4, p.content[4..8]);
    data' := Bump(data, DATA_AT + 4).value;
    ZerosAreNoPayload(p.content[..8]);
    hide Holds, Passes, Damage, Bump, Zeros, LooksLikePayload, WholePayload;
    TornBothWays(sum, stamp, p, data, data', key);
  }

  lemma HoldsContent(stamp: Stamp, p: Plan, data: seq<Byte>, a: nat, b: nat)
    requires Fair(p) && Holds(stamp, p, data) && a <= b <= BS
    ensures |data| == LENGTH && data[DATA_AT + a..DATA_AT + b] == p.content[a..b]
  {
    SliceOfSlice(data, DATA_AT, LENGTH, a, b);
  }

  lemma ZerosAreNoPayload(c: seq<Byte>)
    requires |c| == 8 && forall i :: 0 <= i < 8 ==> c[i] == 0
    ensures !LooksLikePayload(c)
  {
    LEZero(c[0..4]);
  }

  function BodyByte(i: nat): Byte
    requires i < 20
  {
    if i < 4 then PackLE(PAYLOAD_MAGIC, SHORT)[i]
    else if i < 8 then PackLE(LONE, SHORT)[i - 4]
    else if i < 12 then PackLE(RECORD, SHORT)[i - 8]
    else if i < 16 then PackLE(LONE, SHORT)[i - 12]
    else PackLE(LONE, SHORT)[i - 16]
  }

  /** A payload of round one without its checksum, and with it. */
  function Body(): (b: seq<Byte>)
    ensures |b| == 20
  {
    seq(20, i requires 0 <= i < 20 => BodyByte(i))
  }

  function Payload(stamp: Stamp): (c: seq<Byte>)
    requires |stamp(Body())| == 4
    ensures |c| == 24
  {
    var sealed := stamp(Body());
    seq(24, i requires 0 <= i < 24 =>
      if i < 12 then BodyByte(i) else if i < 16 then sealed[i - 12] else BodyByte(i - 4))
  }

  lemma PayloadPieces(stamp: Stamp)
    requires |stamp(Body())| == 4
    ensures var c := Payload(stamp);
            && c[0..4] == PackLE(PAYLOAD_MAGIC, SHORT) && c[4..8] == PackLE(LONE, SHORT)
               && c[8..12] == PackLE(RECORD, SHORT)
            && c[12..16] == stamp(Body()) && c[16..20] == PackLE(LONE, SHORT) && c[20..24] == PackLE(LONE, SHORT)
            && c[..12] + c[16..] == Body()
  {
    hide PackLE;
  }

  lemma PayloadIsWhole(sum: Sum, stamp: Stamp)
    requires Stamps(sum, stamp)
    ensures LooksLikePayload(Payload(stamp)) && WholePayload(sum, Payload(stamp))
    ensures Payload(stamp)[20] < 255
  {
    hide LE, PackLE;
    PayloadPieces(stamp);
    hide Payload, Body;
    Widths();
    UnpackPack(PAYLOAD_MAGIC, SHORT);
    UnpackPack(LONE, SHORT);
    UnpackPack(RECORD, SHORT);
    OneByte();
    assert Payload(stamp)[20] == Payload(stamp)[20..24][0];
  }

  lemma OneByte()
    ensures PackLE(LONE, SHORT)[0] < 255
  {
  }

  function Written(stamp: Stamp): (p: Plan)
    requires |stamp(Body())| == 4
    ensures Fair(p)
  {
    Plan(7, 24, 0, Payload(stamp) + Zeros(BS - 24))
  }

  /** And it is noticed on a whole payload, which passes before. */
  lemma TornNoticed(sum: Sum, stamp: Stamp, key: seq<Byte> -> string) returns (data: seq<Byte>, data': seq<Byte>)
    requires Stamps(sum, stamp) && key(NAME) == SETTINGS
    ensures Passes(sum, data, Some(SETTINGS), key)
    ensures Damage(sum, data, Torn, key) == Ok(data') && !Passes(sum, data', Some(SETTINGS), key)
  {
    var p := Written(stamp);
    assert p.content[..24] == Payload(stamp);
    PayloadIsWhole(sum, stamp);
    hide Payload, Zeros;
    data := Sample(sum, stamp, p);
    TornHere(sum, stamp, p, data, key);
    HoldsContent(stamp, p, data, 20, 24);
    assert p.content[20..24][0] == p.content[..24][20];
    SmallNext(data, DATA_AT + 20, p.content[20..24]);
    data' := Bump(data, DATA_AT + 20).value;
    hide Holds, Passes, Damage, Bump, LooksLikePayload, WholePayload, Written;
    TornBothWays(sum, stamp, p, data, data', key);
  }

  lemma SmallNext(data: seq<Byte>, at: nat, tail: seq<Byte>)
    requires at + 4 <= |data| && data[at..at + 4] == tail && |tail| == 4 && tail[0] < 255
    ensures Bump(data, at).Ok?
  {
  }

  // --- Under CRC-32 ---

  /**
   The premises of the damage results are met, and both outcomes of tearing occur, with the checksum
   of the format.
   */
  lemma SamplesUnderCrc(key: seq<Byte> -> string)
      returns (zero: seq<Byte>, plain: seq<Byte>, plain': seq<Byte>, payload: seq<Byte>, payload': seq<Byte>)
    requires key(NAME) == SETTINGS
    ensures Passes(Crc.Matches, zero, None, key) && Owners(Vol(Crc.Matches, zero)).Ok?
    ensures Reaches(ViewOf(Vol(Crc.Matches, zero)), SUPER.root, DATA)
    ensures DATA < |Owners(Vol(Crc.Matches, zero)).value| && Owners(Vol(Crc.Matches, zero)).value[DATA] == OWNER_VOID
    ensures Passes(Crc.Matches, plain, Some(SETTINGS), key)
    ensures Damage(Crc.Matches, plain, Torn, key) == Ok(plain') && Passes(Crc.Matches, plain', Some(SETTINGS), key)
    ensures Passes(Crc.Matches, payload, Some(SETTINGS), key)
    ensures Damage(Crc.Matches, payload, Torn, key) == Ok(payload')
            && !Passes(Crc.Matches, payload', Some(SETTINGS), key)
  {
    hide Passes, Damage, Owners, Reaches, Load, ReadInode, NonZero;
    CrcStamps();
    zero := DossierZeroHides(Crc.Matches, CrcStamp, key);
    plain, plain' := TornUnnoticed(Crc.Matches, CrcStamp, key);
    payload, payload' := TornNoticed(Crc.Matches, CrcStamp, key);
  }
}

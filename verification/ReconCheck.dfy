/**
 The whole check of an image: load, forward walk, table sweep, comparison, and the
 file that is asked for by name. RunCheck at the end runs it as the program does.
 */
module ReconCheck {
  import opened Bytes
  import opened Arith
  import opened ReconImage
  import opened ReconTree
  import opened ReconVerdict
  import ReconReaders
  import ReconWalk

  const PAYLOAD_MAGIC := 0x52464350

  // --- The volume as the walk sees it ---

  function ChildrenOf(es: seq<Entry>): (kids: seq<nat>)
    ensures |kids| == |es| && forall i :: 0 <= i < |es| ==> kids[i] == es[i].child
  {
    seq(|es|, i requires 0 <= i < |es| => es[i].child)
  }

  /** The blocks a file claims: direct ones, the indirect block, and what its slots name. */
  function FileOwn(v: Volume, ino: Inode): Result<seq<nat>>
  {
    if ino.inlineLen != 0 then Ok([])
    else if ino.indirect == 0 then Ok(NonZero(ino.direct))
    else
      var slots :- Index(v, ino.indirect);
      Ok(NonZero(ino.direct) + ([ino.indirect] + NonZero(slots)))
  }

  function DirOwn(ino: Inode): seq<nat>
  {
    if ino.inlineLen != 0 then [] else NonZero(ino.direct)
  }

  function ReadNode(v: Volume, blk: nat): Result<Node>
    requires Sized(v)
  {
    var ino :- ReadInode(v, blk);
    NodeOf(v, ino)
  }

  function NodeOf(v: Volume, ino: Inode): Result<Node>
  {
    if ino.kind == TYPE_DIR then
      var es :- DirEntries(v, ino);
      Ok(Node(ino.dossier, ino.parent, Directory, DirOwn(ino), ChildrenOf(es)))
    else if ino.kind == TYPE_FILE then
      var own :- FileOwn(v, ino);
      Ok(Node(ino.dossier, ino.parent, File, own, []))
    else
      Ok(Node(ino.dossier, ino.parent, Unknown(ino.kind), [], []))
  }

  /** The number of blocks up to and including the second superblock. */
  function Reserved(bs: nat): nat
    requires bs > 0
  {
    Quot(BLOCK_MAX, bs) + 1
  }

  function ViewOf(v: Volume): View
    requires Sized(v)
  {
    View(v.super.total, Reserved(v.bs), v.super.tableRoot, v.super.tableDepth, v.super.root,
         (blk: nat) => if IsBlockSize(v.bs) then ReadNode(v, blk) else Bad, (n: nat) => Index(v, n))
  }

  // --- The wanted file ---

  /** One complete version of the crash workload's file. */
  predicate WholePayload(sum: Sum, data: seq<Byte>)
  {
    && |data| >= 24
    && U32(data, 0) == PAYLOAD_MAGIC
    && U32(data, 8) == |data|
    && U32(data, 4) == U32(data, 16) == U32(data, |data| - 4)
    && sum(data[..12] + data[16..], data[12..16])
  }

  predicate LooksLikePayload(data: seq<Byte>)
  {
    |data| >= 4 && U32(data, 0) == PAYLOAD_MAGIC
  }

  datatype Found = Found(target: Option<nat>, round: Option<nat>, problems: seq<Problem>)

  function Matches(es: seq<Entry>, want: string, key: seq<Byte> -> string): seq<nat>
  {
    if es == [] then []
    else (if key(es[0].name) == want then [es[0].child] else []) + Matches(es[1..], want, key)
  }

  function Inspect(sum: Sum, target: nat, contents: Result<seq<Byte>>): Found
  {
    if contents.Bad? then Found(Some(target), None, [Unreadable])
    else if !LooksLikePayload(contents.value) then Found(Some(target), None, [])
    else if !WholePayload(sum, contents.value) then Found(Some(target), None, [NotWhole])
    else Found(Some(target), Some(U32(contents.value, 4)), [])
  }

  ghost function ContentsAt(v: Volume, blk: nat): Result<seq<Byte>>
    requires Sized(v)
  {
    var ino :- ReadInode(v, blk);
    Contents(v, ino)
  }

  ghost function Wanted(v: Volume, es: seq<Entry>, want: Option<string>, key: seq<Byte> -> string): Found
    requires Sized(v)
  {
    if want.None? then Found(None, None, [])
    else
      var m := Matches(es, want.value, key);
      if |m| == 0 then Found(None, None, [NoSuchName])
      else if |m| > 1 then Found(None, None, [ManyNames(|m|)])
      else Inspect(v.sum, m[0], ContentsAt(v, m[0]))
  }

  // --- The check ---

  datatype Verdict = Verdict(epoch: nat, blockSize: nat, inodes: nat, names: seq<seq<Byte>>,
                             target: Option<nat>, round: Option<nat>, problems: seq<Problem>)

  function NamesOf(es: seq<Entry>): (names: seq<seq<Byte>>)
  {
    seq(|es|, i requires 0 <= i < |es| => es[i].name)
  }

  function VolumeOf(sum: Sum, data: seq<Byte>, l: Loaded): Volume
  {
    Volume(sum, data, l.super.blockSize, l.super)
  }

  lemma ForwardSize(v: View)
    requires Forward(v).Ok?
    ensures |Forward(v).value.held| == v.total
  {
    var s := ClaimTable(v, Start(v), v.tableRoot, v.tableDepth).value;
    TableGrows(v, Start(v), v.tableRoot, v.tableDepth);
    WalkGrows(v, s, v.root, 0, OWNER_ARCHIVE, 0);
  }

  function RootEntries(v: Volume): Result<seq<Entry>>
    requires Sized(v)
  {
    var root :- ReadInode(v, v.super.root);
    DirEntries(v, root)
  }

  /** The report, once the walk, the sweep and the root directory have been read. */
  function Conclude(
      sb: Super, walk: Result<State>, sweep: Result<seq<nat>>, es: Result<seq<Entry>>, f: Found): Result<Verdict>
    requires walk.Ok? ==> |walk.value.held| == sb.total
    requires sweep.Ok? ==> |sweep.value| == sb.total
  {
    if walk.Bad? || sweep.Bad? || es.Bad? then Bad
    else Ok(Verdict(sb.epoch, sb.blockSize, walk.value.inodes, NamesOf(es.value), f.target, f.round,
                    walk.value.problems + Compare(sweep.value, walk.value.held, sb.total) + f.problems))
  }

  ghost function FoundIn(v: Volume, want: Option<string>, key: seq<Byte> -> string): Found
    requires Sized(v)
  {
    var es := RootEntries(v);
    if es.Bad? then Found(None, None, []) else Wanted(v, es.value, want, key)
  }

  ghost function CheckVolume(v: Volume, want: Option<string>, key: seq<Byte> -> string): Result<Verdict>
    requires Sized(v)
  {
    assert Forward(ViewOf(v)).Ok? ==> |Forward(ViewOf(v)).value.held| == v.super.total by {
      if Forward(ViewOf(v)).Ok? { ForwardSize(ViewOf(v)); }
    }
    Conclude(v.super, Forward(ViewOf(v)), Owners(v), RootEntries(v), FoundIn(v, want, key))
  }

  /** want is already lower-cased; key decodes and lower-cases a stored name. */
  ghost function Check(sum: Sum, data: seq<Byte>, want: Option<string>, key: seq<Byte> -> string): Result<Verdict>
  {
    var l :- Load(sum, data);
    CheckVolume(VolumeOf(sum, data, l), want, key)
  }

  ghost predicate Passes(sum: Sum, data: seq<Byte>, want: Option<string>, key: seq<Byte> -> string)
  {
    var r := Check(sum, data, want, key);
    r.Ok? && r.value.problems == []
  }

  /** What passing means for a volume that has been loaded. */
  ghost predicate VolumePasses(v: Volume, want: Option<string>, key: seq<Byte> -> string)
    requires Sized(v)
  {
    && Owners(v).Ok?
    && Accepted(ViewOf(v), Owners(v).value)
    && RootEntries(v).Ok?
    && FoundIn(v, want, key).problems == []
  }

  /**
   An image passes exactly when it loads, the walk and the sweep agree in silence, and the wanted
   file is in order.
   */
  lemma PassesParts(sum: Sum, data: seq<Byte>, want: Option<string>, key: seq<Byte> -> string)
    ensures Passes(sum, data, want, key) <==>
            Load(sum, data).Ok? && VolumePasses(VolumeOf(sum, data, Load(sum, data).value), want, key)
  {
    if Load(sum, data).Ok? {
      var v := VolumeOf(sum, data, Load(sum, data).value);
      if Forward(ViewOf(v)).Ok? { ForwardSize(ViewOf(v)); }
      ConcludeClean(v.super, Forward(ViewOf(v)), Owners(v), RootEntries(v), FoundIn(v, want, key));
    }
  }

  lemma ConcludeClean(sb: Super, walk: Result<State>, sweep: Result<seq<nat>>, es: Result<seq<Entry>>, f: Found)
    requires walk.Ok? ==> |walk.value.held| == sb.total
    requires sweep.Ok? ==> |sweep.value| == sb.total
    ensures var r := Conclude(sb, walk, sweep, es, f);
            r.Ok? && r.value.problems == [] <==>
            && walk.Ok? && sweep.Ok? && es.Ok?
            && walk.value.problems == [] && sweep.value == walk.value.held && f.problems == []
  {
    if walk.Ok? && sweep.Ok? { SameAll(sweep.value, walk.value.held); }
  }

  lemma SameAll(actual: seq<nat>, held: seq<nat>)
    requires |actual| == |held|
    ensures Compare(actual, held, |held|) == [] <==> actual == held
  {
    CompareClean(actual, held, |held|);
    assert actual[..|held|] == actual && held[..|held|] == held;
  }

  // --- The run ---

  method ReadEntries(v: Volume, ino: Inode) returns (r: Result<seq<Entry>>)
    requires Sized(v)
    ensures r == DirEntries(v, ino)
  {
    var streams := Streams(v, ino);
    if streams.Bad? { return Bad; }
    r := ReconReaders.ScanStreams(streams.value);
  }

  /** check(): the verdict on an image, or the failure to read it. */
  method RunCheck(sum: Sum, data: seq<Byte>, want: Option<string>, key: seq<Byte> -> string)
    returns (r: Result<Verdict>)
    ensures r == Check(sum, data, want, key)
  {
    var image := new ReconReaders.Image(sum, data);
    var sb := image.Load();
    if sb.Bad? { return Bad; }
    var v := Volume(sum, data, image.bs, image.super);
    var checker := new ReconWalk.Checker(ViewOf(v));
    var ok := checker.ClaimTable(v.super.tableRoot, v.super.tableDepth);
    if !ok { return Bad; }
    ok := checker.Walk(v.super.root, 0, OWNER_ARCHIVE, 0);
    if !ok { return Bad; }
    ghost var s := checker.State();
    var held, problems, inodes := checker.marks[..], checker.problems, checker.inodes;
    ForwardSize(ViewOf(v));
    var actual := image.Owners();
    if actual.Bad? { return Bad; }
    var differences := Differences(actual.value, held);
    var root := ReadInode(v, v.super.root);
    if root.Bad? { return Bad; }
    var es := ReadEntries(v, root.value);
    if es.Bad? { return Bad; }
    var found := Search(v, es.value, want, key);
    return Ok(Verdict(v.super.epoch, v.super.blockSize, inodes, NamesOf(es.value), found.target, found.round,
                      problems + differences + found.problems));
  }

  /** for b in range(total): compare the table's entry with the walk's. */
  method Differences(actual: seq<nat>, held: seq<nat>) returns (ps: seq<Problem>)
    requires |actual| == |held|
    ensures ps == Compare(actual, held, |held|)
  {
    ps := [];
    for b := 0 to |held|
      invariant ps == Compare(actual, held, b)
    {
      var a, e := actual[b], held[b];
      if a == e {
        assert ps + [] == ps;
      } else if a == OWNER_VOID {
        ps := ps + [NotAllocated(b)];
      } else if e == 0 {
        ps := ps + [NotReachable(b)];
      } else {
        ps := ps + [WrongOwner(b, a, e)];
      }
    }
  }

  method Search(v: Volume, es: seq<Entry>, want: Option<string>, key: seq<Byte> -> string) returns (f: Found)
    requires Sized(v)
    ensures f == Wanted(v, es, want, key)
  {
    if want.None? { return Found(None, None, []); }
    var m := Matches(es, want.value, key);
    if |m| == 0 { return Found(None, None, [NoSuchName]); }
    if |m| > 1 { return Found(None, None, [ManyNames(|m|)]); }
    var ino := ReadInode(v, m[0]);
    if ino.Bad? { return Inspect(v.sum, m[0], Bad); }
    var image := new ReconReaders.Image(v.sum, v.data);
    image.super, image.bs := v.super, v.bs;
    var contents := image.Contents(ino.value);
    return Inspect(v.sum, m[0], contents);
  }
}

/**
 The crash-marker judge: from a disk image that was being written one marker per
 block when the machine was killed, whether the writes were ordered and untorn.
 */
module Markers {
  import opened Bytes

  const MAGIC := 0x4B52414D
  const BLOCK: nat := 512

  datatype Marker = Absent | Marker(number: nat, tail: Option<nat>)

  /** One block: the number at its front, and the one at its back if the back was written. */
  function ReadMarker(block: seq<Byte>): Marker
    requires |block| == BLOCK
  {
    var number, again := U32(block, 4), U32(block, 12);
    if U32(block, 0) != MAGIC then Absent
    else
      var tailNumber, tailAgain := U32(block, BLOCK - 12), U32(block, BLOCK - 4);
      if U32(block, BLOCK - 16) != MAGIC then Marker(number, None)
      else if number != again || tailNumber != tailAgain || number != tailNumber then Marker(number, Some(tailNumber))
      else Marker(number, Some(number))
  }

  datatype Verdict =
    | Torn(index: nat, number: nat, tail: Option<nat>, count: nat)
    | Empty
    | Gap(highest: nat, count: nat, first: nat)
    | Sound(count: nat)

  function Blocks(data: seq<Byte>): nat { |data| / BLOCK }

  function BlockAt(data: seq<Byte>, i: nat): (b: seq<Byte>)
    requires i < Blocks(data)
    ensures |b| == BLOCK
  {
    data[i * BLOCK..(i + 1) * BLOCK]
  }

  // --- What a block can be, said without the reader ---

  /** The front marker is there. */
  predicate Front(data: seq<Byte>, i: nat)
    requires i < Blocks(data)
  {
    U32(BlockAt(data, i), 0) == MAGIC
  }

  /** Both ends are there, and both carry the block's own number. */
  predicate Whole(data: seq<Byte>, i: nat)
    requires i < Blocks(data)
  {
    var b := BlockAt(data, i);
    && U32(b, 0) == MAGIC && U32(b, 4) == i
    && U32(b, BLOCK - 16) == MAGIC && U32(b, BLOCK - 12) == i
  }

  lemma ReadMarkerIs(data: seq<Byte>, i: nat)
    requires i < Blocks(data)
    ensures ReadMarker(BlockAt(data, i)).Absent? <==> !Front(data, i)
    ensures ReadMarker(BlockAt(data, i)) == Marker(i, Some(i)) <==> Whole(data, i)
  {
  }

  /** An unbroken run of n whole markers from block zero, and not one marker elsewhere. */
  ghost predicate Run(data: seq<Byte>, n: nat)
  {
    && n <= Blocks(data)
    && (forall i :: 0 <= i < n ==> Whole(data, i))
    && (forall i :: n <= i < Blocks(data) ==> !Front(data, i))
  }

  ghost predicate TornAt(data: seq<Byte>, i: nat)
  {
    i < Blocks(data) && Front(data, i) && !Whole(data, i)
  }

  /** An earlier block without a marker, and a later one with. */
  ghost predicate GapAt(data: seq<Byte>, i: nat, j: nat)
  {
    i < j < Blocks(data) && !Front(data, i) && Front(data, j)
  }

  /** What the back of a block says: nothing without the magic number there, or the number beside it. */
  function Back(b: seq<Byte>): Option<nat>
    requires |b| == BLOCK
  {
    if U32(b, 496) == MAGIC then Some(U32(b, 500)) else None
  }

  // --- The judge ---

  datatype Kind = Nothing | Half | Full

  function KindOf(data: seq<Byte>, i: nat): Kind
    requires i < Blocks(data)
  {
    if !Front(data, i) then Nothing else if Whole(data, i) then Full else Half
  }

  ghost function Kinds(data: seq<Byte>): (ks: seq<Kind>)
    ensures |ks| == Blocks(data)
    ensures forall i {:trigger ks[i]} :: 0 <= i < |ks| ==> ks[i] == KindOf(data, i)
  {
    seq(Blocks(data), i requires 0 <= i < Blocks(data) => KindOf(data, i))
  }

  /** The places below n of one kind, in order. */
  ghost function Places(ks: seq<Kind>, k: Kind, n: nat): seq<nat>
    requires n <= |ks|
  {
    if n == 0 then [] else Places(ks, k, n - 1) + (if ks[n - 1] == k then [n - 1] else [])
  }

  lemma {:induction false} PlacesAre(ks: seq<Kind>, k: Kind, n: nat)
    requires n <= |ks|
    ensures var p := Places(ks, k, n);
            && (forall a :: 0 <= a < |p| ==> p[a] < n && ks[p[a]] == k)
            && (forall a, b :: 0 <= a < b < |p| ==> p[a] < p[b])
            && (forall i :: 0 <= i < n && ks[i] == k ==> i in p)
  {
    if n > 0 {
      PlacesAre(ks, k, n - 1);
      var p, q := Places(ks, k, n - 1), Places(ks, k, n);
      forall i | 0 <= i < n && ks[i] == k ensures i in q {
        if i < n - 1 {
          assert i in p;
        } else {
          assert q[|q| - 1] == i;
        }
      }
    }
  }

  /** The first and the last place of a kind. */
  lemma PlacesEnds(ks: seq<Kind>, k: Kind, n: nat)
    requires n <= |ks| && Places(ks, k, n) != []
    ensures var p := Places(ks, k, n);
            && p[0] < n && ks[p[0]] == k && (forall i :: 0 <= i < p[0] ==> ks[i] != k)
            && p[|p| - 1] < n && ks[p[|p| - 1]] == k && (forall i :: p[|p| - 1] < i < n ==> ks[i] != k)
  {
    PlacesAre(ks, k, n);
  }

  lemma PlacesNone(ks: seq<Kind>, k: Kind, n: nat)
    requires n <= |ks|
    ensures Places(ks, k, n) == [] <==> forall i :: 0 <= i < n ==> ks[i] != k
  {
    PlacesAre(ks, k, n);
    if Places(ks, k, n) != [] { PlacesEnds(ks, k, n); }
  }

  method Survey(data: seq<Byte>) returns (present: seq<nat>, torn: seq<nat>)
    ensures present == Places(Kinds(data), Full, Blocks(data))
    ensures torn == Places(Kinds(data), Half, Blocks(data))
  {
    present, torn := [], [];
    ghost var ks := Kinds(data);
    for index := 0 to Blocks(data)
      invariant present == Places(ks, Full, index) && torn == Places(ks, Half, index)
    {
      ReadMarkerIs(data, index);
      var m := ReadMarker(BlockAt(data, index));
      if m.Marker? {
        if m.tail.None? || m.tail.value != m.number || m.number != index {
          torn := torn + [index];
        } else {
          present := present + [index];
        }
      }
    }
  }

  /** expected - set(present), in order: with no torn block, the blocks without a marker. */
  method Missing(present: seq<nat>, highest: nat, ghost ks: seq<Kind>) returns (missing: seq<nat>)
    requires highest < |ks| && present == Places(ks, Full, |ks|) && Half !in ks
    ensures missing == Places(ks, Nothing, highest + 1)
  {
    PlacesAre(ks, Full, |ks|);
    missing := [];
    for i := 0 to highest + 1
      invariant missing == Places(ks, Nothing, i)
    {
      assert ks[i] != Half;
      assert i in present ==> ks[i] == Full;
      if i !in present { missing := missing + [i]; }
    }
  }

  /** What each verdict says of the kinds of the blocks. */
  ghost predicate Judged(ks: seq<Kind>, v: Verdict)
  {
    match v
    case Torn(index, _, _, count) =>
      && index < |ks| && ks[index] == Half && (forall i :: 0 <= i < index ==> ks[i] != Half)
      && count == |Places(ks, Half, |ks|)|
    case Empty => forall i :: 0 <= i < |ks| ==> ks[i] == Nothing
    case Gap(highest, count, first) =>
      && first < highest < |ks| && ks[first] == Nothing && ks[highest] == Full && Half !in ks
      && (forall i :: 0 <= i < first ==> ks[i] == Full) && (forall i :: highest < i < |ks| ==> ks[i] == Nothing)
      && count == |Places(ks, Nothing, highest + 1)|
    case Sound(n) =>
      && 0 < n <= |ks| && (forall i :: 0 <= i < n ==> ks[i] == Full) && (forall i :: n <= i < |ks| ==> ks[i] == Nothing)
  }

  method JudgeKinds(present: seq<nat>, torn: seq<nat>, ghost ks: seq<Kind>) returns (v: Verdict)
    requires present == Places(ks, Full, |ks|) && torn == Places(ks, Half, |ks|)
    ensures Judged(ks, v)
  {
    hide Places;
    PlacesNone(ks, Full, |ks|);
    PlacesNone(ks, Half, |ks|);
    if torn != [] {
      PlacesEnds(ks, Half, |ks|);
      return Torn(torn[0], 0, None, |torn|);
    }
    if present == [] { return Empty; }
    PlacesEnds(ks, Full, |ks|);
    var highest := present[|present| - 1];
    var missing := Missing(present, highest, ks);
    PlacesNone(ks, Nothing, highest + 1);
    if missing == [] { return Sound(highest + 1); }
    PlacesEnds(ks, Nothing, highest + 1);
    v := Gap(highest, |missing|, missing[0]);
  }

  /**
   The verdict is exact. It is "ok n" just when blocks 0 to n-1 each carry their own
   number at both ends and no other block carries a marker; "torn" names the first
   block whose two ends disagree with each other or with its place; "gap" means every
   marker is whole but one is missing below another, and names the first missing.
   */
  method Judge(data: seq<Byte>) returns (v: Verdict)
    ensures forall n: nat :: v == Sound(n) <==> n > 0 && Run(data, n)
    ensures v.Empty? <==> Run(data, 0)
    ensures v.Torn? <==> exists i: nat :: TornAt(data, i)
    ensures v.Torn? ==> TornAt(data, v.index) && forall i: nat :: i < v.index ==> !TornAt(data, i)
    ensures v.Torn? ==> v.number == U32(BlockAt(data, v.index), 4) && v.tail == Back(BlockAt(data, v.index))
    ensures v.Torn? ==> v.count == |set i: nat | i < Blocks(data) && TornAt(data, i)|
    ensures v.Gap? <==> (forall i: nat :: !TornAt(data, i)) && exists i: nat, j: nat :: GapAt(data, i, j)
    ensures v.Gap? ==> GapAt(data, v.first, v.highest)
    ensures v.Gap? ==> forall i: nat :: i < v.first ==> Whole(data, i)
    ensures v.Gap? ==> forall j: nat :: v.highest < j < Blocks(data) ==> !Front(data, j)
    ensures v.Gap? ==> v.count == |set i: nat | i < v.highest && !Front(data, i)|
    ensures Judged(Kinds(data), v)
  {
    var present, torn := Survey(data);
    v := JudgeKinds(present, torn, Kinds(data));
    if v.Torn? {
      var m := ReadMarker(BlockAt(data, v.index));
      v := Torn(v.index, m.number, m.tail, v.count);
    }
    hide Places, Kinds, Judged;
    Exact(data, v);
    Counted(data, v);
  }

  /** The same places, as a set. */
  ghost function Among(ks: seq<Kind>, k: Kind, n: nat): set<nat>
    requires n <= |ks|
  {
    set i: nat | i < n && ks[i] == k
  }

  lemma AmongStep(ks: seq<Kind>, k: Kind, n: nat)
    requires n < |ks|
    ensures |Among(ks, k, n + 1)| == |Among(ks, k, n)| + if ks[n] == k then 1 else 0
  {
    if ks[n] == k {
      assert Among(ks, k, n + 1) == Among(ks, k, n) + {n};
    } else {
      assert Among(ks, k, n + 1) == Among(ks, k, n);
    }
  }

  lemma {:induction false} PlacesCount(ks: seq<Kind>, k: Kind, n: nat)
    requires n <= |ks|
    ensures |Places(ks, k, n)| == |Among(ks, k, n)|
  {
    hide Among;
    if n > 0 {
      PlacesCount(ks, k, n - 1);
      AmongStep(ks, k, n - 1);
    } else {
      AmongNone(ks, k);
    }
  }

  lemma AmongNone(ks: seq<Kind>, k: Kind)
    ensures Among(ks, k, 0) == {}
  {
  }

  /** The numbers of torn and of missing blocks in a verdict. */
  lemma Counted(data: seq<Byte>, v: Verdict)
    requires Judged(Kinds(data), v)
    ensures v.Torn? ==> v.count == |set i: nat | i < Blocks(data) && TornAt(data, i)|
    ensures v.Gap? ==> v.count == |set i: nat | i < v.highest && !Front(data, i)|
  {
    hide KindOf, Whole, Front, Places, Kinds;
    var ks := Kinds(data);
    forall i: nat | i < Blocks(data)
      ensures ks[i] == Half <==> TornAt(data, i)
      ensures ks[i] == Nothing <==> !Front(data, i)
    {
      KindsMean(data, i);
    }
    if v.Torn? {
      PlacesCount(ks, Half, |ks|);
      assert Among(ks, Half, |ks|) == set i: nat | i < Blocks(data) && TornAt(data, i);
    }
    if v.Gap? {
      PlacesCount(ks, Nothing, v.highest + 1);
      assert Among(ks, Nothing, v.highest + 1) == set i: nat | i < v.highest && !Front(data, i);
    }
  }

  lemma KindsMean(data: seq<Byte>, i: nat)
    requires i < Blocks(data)
    ensures Kinds(data)[i] == Half <==> TornAt(data, i)
    ensures Kinds(data)[i] == Full <==> Whole(data, i)
    ensures Kinds(data)[i] == Nothing <==> !Front(data, i)
  {
  }

  /** The kinds of the blocks, put in the words of the format. */
  lemma Exact(data: seq<Byte>, v: Verdict)
    requires Judged(Kinds(data), v)
    ensures forall n: nat :: v == Sound(n) <==> n > 0 && Run(data, n)
    ensures v.Empty? <==> Run(data, 0)
    ensures v.Torn? <==> exists i: nat :: TornAt(data, i)
    ensures v.Torn? ==> TornAt(data, v.index) && forall i: nat :: i < v.index ==> !TornAt(data, i)
    ensures v.Gap? <==> (forall i: nat :: !TornAt(data, i)) && exists i: nat, j: nat :: GapAt(data, i, j)
    ensures v.Gap? ==> GapAt(data, v.first, v.highest)
    ensures v.Gap? ==> forall i: nat :: i < v.first ==> Whole(data, i)
    ensures v.Gap? ==> forall j: nat :: v.highest < j < Blocks(data) ==> !Front(data, j)
  {
    hide KindOf, Whole, Front, Places, Kinds;
    var ks := Kinds(data);
    forall i: nat | i < Blocks(data)
      ensures ks[i] == Half <==> TornAt(data, i)
      ensures ks[i] == Full <==> Whole(data, i)
      ensures ks[i] == Nothing <==> !Front(data, i)
    {
      KindsMean(data, i);
    }
    forall n: nat ensures Run(data, n) <==> RunOf(ks, n) { }
    forall n: nat | RunOf(ks, n) ensures v == if n == 0 then Empty else Sound(n) { RunDecides(ks, v, n); }
    if i: nat :| TornAt(data, i) { assert ks[i] == Half; }
    if i: nat, j: nat :| GapAt(data, i, j) { assert ks[i] == Nothing && ks[j] != Nothing; }
    if v.Torn? { assert TornAt(data, v.index); }
    if v.Gap? { assert GapAt(data, v.first, v.highest); }
    if v.Sound? { assert RunOf(ks, v.count) && Run(data, v.count); }
    if v.Empty? { assert RunOf(ks, 0) && Run(data, 0); }
  }

  lemma RunDecides(ks: seq<Kind>, v: Verdict, n: nat)
    requires Judged(ks, v) && RunOf(ks, n)
    ensures v == if n == 0 then Empty else Sound(n)
  {
    hide Places;
    assert n > 0 ==> ks[0] == Full;
    assert n < |ks| ==> ks[n] == Nothing;
    assert v.Sound? && v.count < |ks| ==> ks[v.count] == Nothing;
  }

  ghost predicate RunOf(ks: seq<Kind>, n: nat)
  {
    n <= |ks| && (forall i :: 0 <= i < n ==> ks[i] == Full) && (forall i :: n <= i < |ks| ==> ks[i] == Nothing)
  }

  // --- What an ordered, untorn writer leaves ---

  /** One marker as the kernel writes it: its number four times, and two checksums nobody reads back here. */
  ghost predicate IsMarkerBlock(b: seq<Byte>, i: nat)
  {
    && |b| == BLOCK
    && U32(b, 0) == MAGIC && U32(b, 4) == i && U32(b, 12) == i
    && U32(b, BLOCK - 16) == MAGIC && U32(b, BLOCK - 12) == i && U32(b, BLOCK - 4) == i
  }

  /** The image after n whole writes in order, over an image that held no marker. */
  ghost predicate WrittenTo(before: seq<Byte>, after: seq<Byte>, n: nat)
  {
    && |after| == |before| && n <= Blocks(before)
    && (forall i :: 0 <= i < n ==> IsMarkerBlock(BlockAt(after, i), i))
    && (forall i :: n <= i < Blocks(before) ==> BlockAt(after, i) == BlockAt(before, i))
  }

  /** Every prefix of an ordered, untorn run is accepted, with its length. */
  method OrderedWritesAccepted(before: seq<Byte>, after: seq<Byte>, n: nat) returns (v: Verdict)
    requires Run(before, 0) && WrittenTo(before, after, n)
    ensures v == if n == 0 then Empty else Sound(n)
  {
    v := Judge(after);
    WrittenRun(before, after, n);
  }

  lemma WrittenRun(before: seq<Byte>, after: seq<Byte>, n: nat)
    requires Run(before, 0) && WrittenTo(before, after, n)
    ensures Run(after, n)
  {
    forall i | n <= i < Blocks(after) ensures !Front(after, i) { assert !Front(before, i); }
  }

  /** Where a block keeps the second copies of its number, front and back. */
  const FRONT_COPY: nat := 12
  const BACK_COPY: nat := BLOCK - 4

  /**
   The second copies of a number are not looked at when the first copies agree: whatever is
   written over one, in any block of an accepted image, the verdict stays the same.
   */
  lemma CopiesAreNotCompared(data: seq<Byte>, n: nat, i: nat, copy: nat, piece: seq<Byte>)
    requires Run(data, n) && i < n && |piece| == 4 && (copy == FRONT_COPY || copy == BACK_COPY)
    ensures i * BLOCK + copy + 4 <= |data| && Run(Patch(data, i * BLOCK + copy, piece), n)
  {
    var after := Patch(data, i * BLOCK + copy, piece);
    forall j | 0 <= j < Blocks(data) ensures Whole(after, j) == Whole(data, j) && Front(after, j) == Front(data, j) {
      CopyOutside(data, i, copy, piece, j, 0);
      CopyOutside(data, i, copy, piece, j, 4);
      CopyOutside(data, i, copy, piece, j, BLOCK - 16);
      CopyOutside(data, i, copy, piece, j, BLOCK - 12);
    }
  }

  lemma CopyOutside(data: seq<Byte>, i: nat, copy: nat, piece: seq<Byte>, j: nat, o: nat)
    requires i < Blocks(data) && j < Blocks(data) && |piece| == 4 && copy + 4 <= BLOCK && o + 4 <= BLOCK
    requires o + 4 <= copy || copy + 4 <= o
    ensures i * BLOCK + copy + 4 <= |data|
    ensures U32(BlockAt(Patch(data, i * BLOCK + copy, piece), j), o) == U32(BlockAt(data, j), o)
  {
    hide LE;
    SliceOfSlice(data, j * BLOCK, (j + 1) * BLOCK, o, o + 4);
    SliceOfSlice(Patch(data, i * BLOCK + copy, piece), j * BLOCK, (j + 1) * BLOCK, o, o + 4);
    assert j < i ==> (j + 1) * BLOCK <= i * BLOCK;
    assert i < j ==> (i + 1) * BLOCK <= j * BLOCK;
    Untouched(data, i * BLOCK + copy, piece, j * BLOCK + o);
  }

  lemma Untouched(data: seq<Byte>, at: nat, piece: seq<Byte>, a: nat)
    requires at + |piece| <= |data| && a + 4 <= |data| && (a + 4 <= at || at + |piece| <= a)
    ensures Patch(data, at, piece)[a..a + 4] == data[a..a + 4]
  {
    var r := Patch(data, at, piece);
    assert r[a] == data[a] && r[a + 1] == data[a + 1] && r[a + 2] == data[a + 2] && r[a + 3] == data[a + 3];
    Four(r, a);
    Four(data, a);
  }

  lemma Four(s: seq<Byte>, a: nat)
    requires a + 4 <= |s|
    ensures s[a..a + 4] == [s[a], s[a + 1], s[a + 2], s[a + 3]]
  {
  }
}

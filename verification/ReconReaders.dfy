/**
 The readers as the program runs them: an image object whose `load` fills in its
 fields, and the loops that descend the owner table, sweep it, assemble a file and
 list a directory.
 */
module ReconReaders {
  import opened Bytes
  import opened Sequences
  import opened Arith
  import opened ReconImage

  class Image {
    const sum: Sum
    const data: seq<Byte>
    var super: Super
    var live: nat
    var bs: nat

    constructor (sum: Sum, data: seq<Byte>)
      ensures this.sum == sum && this.data == data
    {
      this.sum, this.data := sum, data;
      super, live, bs := Super(0, 0, 0, 0, 0, 0), 0, 0;
    }

    ghost predicate Ready()
      reads this
    {
      IsBlockSize(bs)
    }

    ghost function Vol(): Volume
      reads this
    {
      Volume(sum, data, bs, super)
    }

    /** Both slots are tried in order; the higher epoch wins, and the fields record it. */
    method Load() returns (r: Result<Super>)
      modifies this
      ensures r.Ok? <==> ReconImage.Load(sum, data).Ok?
      ensures r.Ok? ==> ReconImage.Load(sum, data) == Ok(Loaded(super, live)) && r.value == super
      ensures r.Ok? ==> bs == super.blockSize && Ready()
    {
      var best: Option<Loaded> := None;
      ghost var a := ReadSlot(sum, data, 0);
      for k := 0 to 2
        invariant best.Some? ==> IsBlockSize(best.value.super.blockSize)
        invariant k >= 1 ==> a.Ok?
        invariant k == 0 ==> best.None?
        invariant k == 1 ==> best == Better(None, a.value, 0)
        invariant k == 2 ==> ReadSlot(sum, data, BLOCK_MAX).Ok?
        invariant k == 2 ==> best == Better(Better(None, a.value, 0), ReadSlot(sum, data, BLOCK_MAX).value, BLOCK_MAX)
      {
        var at := if k == 0 then 0 else BLOCK_MAX;
        var slot := ReadSlot(sum, data, at);
        if slot.Bad? { return Bad; }
        var s := slot.value;
        if s.Some? && (best.None? || s.value.epoch > best.value.super.epoch) {
          best := Some(Loaded(s.value, at));
        }
      }
      if best.None? { return Bad; }
      super, live, bs := best.value.super, best.value.live, best.value.super.blockSize;
      return Ok(super);
    }

    method LeafBlock(leafIndex: nat) returns (r: Result<nat>)
      requires Ready()
      ensures r == ReconImage.LeafBlock(Vol(), leafIndex)
    {
      r := DescendTable(Volume(sum, data, bs, super), leafIndex);
    }

    /** Leaf by leaf, extending the list by as much of each leaf as the volume has blocks. */
    method Owners() returns (r: Result<seq<nat>>)
      requires Ready()
      ensures r == ReconImage.Owners(Vol())
    {
      var v := Volume(sum, data, bs, super);
      var per := PerIndex(v);
      var total := super.total;
      var out: seq<nat> := [];
      var first: nat := 0;
      ghost var q: nat := 0;
      while first < total
        invariant |out| == (if first < total then first else total)
        invariant first == Times(q, per)
        invariant forall b :: 0 <= b < |out| ==> EntryAt(v, b) == Ok(out[b])
        decreases total - first
      {
        DividedOnce(first, q, per, 0);
        var leaf := LeafBlock(Quot(first, per));
        var vals := if leaf.Ok? then Index(v, leaf.value) else Bad;
        LeafEntries(v, q, per, first);
        if vals.Bad? {
          assert EntryAt(v, first + 0).Bad?;
          return Bad;
        }
        var take := if per <= total - first then per else total - first;
        out := out + vals.value[..take];
        first := first + per;
        q := q + 1;
      }
      assert out == ReconImage.Owners(v).value;
      return Ok(out);
    }

    /** Block after block until `size` bytes are gathered; the indirect block is read once, when first needed. */
    method Contents(ino: Inode) returns (r: Result<seq<Byte>>)
      requires Ready() && |ino.direct| == DIRECT
      ensures r == ReconImage.Contents(Vol(), ino)
    {
      var v := Volume(sum, data, bs, super);
      var want := ino.size;
      if ino.inlineLen != 0 { return Ok(Clip(ino.raw, INODE_SIZE, INODE_SIZE + want)); }
      var out: seq<Byte> := [];
      var n := 0;
      var slots: Option<seq<nat>> := None;
      NothingFilled(v, ino);
      hide Filled, ReconImage.Contents, Readable, Block, Index;
      while |out| < want
        invariant |out| == (if Times(n, bs) <= want then Times(n, bs) else want)
        invariant slots.Some? ==> ino.indirect != 0 && Index(v, ino.indirect) == Ok(slots.value)
        invariant Filled(v, ino, out, n)
        decreases want - |out|
      {
        var where;
        if n < DIRECT {
          where := ino.direct[n];
        } else {
          if slots.None? {
            if ino.indirect == 0 { Unreadable(v, ino, n); return Bad; }
            var s := Index(v, ino.indirect);
            if s.Bad? { Unreadable(v, ino, n); return Bad; }
            slots := Some(s.value);
          }
          if n - DIRECT >= |slots.value| { Unreadable(v, ino, n); return Bad; }
          where := slots.value[n - DIRECT];
        }
        if where == 0 { Unreadable(v, ino, n); return Bad; }
        var take := if bs <= want - |out| then bs else want - |out|;
        var block := Block(v, where);
        if block.Bad? { Unreadable(v, ino, n); return Bad; }
        assert FileBlock(v, ino, n) == block;
        out := Extend(v, ino, out, n, block.value[..take]);
        n := n + 1;
      }
      Gathered(v, ino, out, n);
      return Ok(out);
    }

    /** Every stream in turn. */
    method DirEntries(ino: Inode) returns (r: Result<seq<Entry>>)
      requires Ready()
      ensures r == ReconImage.DirEntries(Vol(), ino)
    {
      var streams := Streams(Volume(sum, data, bs, super), ino);
      if streams.Bad? { return Bad; }
      r := ScanStreams(streams.value);
    }
  }

  /** One level at a time, dividing the span by the fan-out. */
  method DescendTable(v: Volume, leafIndex: nat) returns (r: Result<nat>)
    requires Sized(v)
    ensures r == ReconImage.LeafBlock(v, leafIndex)
  {
    var per := PerIndex(v);
    var node, depth, idx := v.super.tableRoot, v.super.tableDepth, leafIndex;
    var span := Pow(per, depth);
    while depth > 0
      invariant span == Pow(per, depth)
      invariant Follow(v, node, Digits(idx, per, depth)) == ReconImage.LeafBlock(v, leafIndex)
    {
      FollowStep(v, node, idx, depth, per);
      var slots := Index(v, node);
      if slots.Bad? { return Bad; }
      span := Quot(span, per);
      var slot := Quot(idx, span);
      if slot >= per { return Bad; }
      node := slots.value[slot];
      idx := Rem(idx, span);
      if node == 0 { return Bad; }
      depth := depth - 1;
    }
    return Ok(node);
  }

  method ScanStreams(streams: seq<seq<Byte>>) returns (r: Result<seq<Entry>>)
    ensures r == AllEntries(streams)
  {
    var out: seq<Entry> := [];
    assert streams[0..] == streams;
    PrependNothing(AllEntries(streams));
    for i := 0 to |streams|
      invariant AllEntries(streams) == Prepend(out, AllEntries(streams[i..]))
    {
      assert streams[i..][1..] == streams[i + 1..];
      var here := ScanStream(streams[i]);
      if here.Bad? { return Bad; }
      PrependTwice(out, here.value, AllEntries(streams[i + 1..]));
      out := out + here.value;
    }
    assert out + [] == out;
    return Ok(out);
  }

  /** Records of one stream, until it is used up or stops at a zero length. */
  method ScanStream(s: seq<Byte>) returns (r: Result<seq<Entry>>)
    ensures r == ParseEntries(s)
  {
    r := ScanRecords(NextIn(s), |s|);
  }

  method ScanRecords(next: nat -> Step, len: nat) returns (r: Result<seq<Entry>>)
    requires Advances(next, len)
    ensures r == Scan(next, len, 0)
  {
    var out: seq<Entry> := [];
    var off: nat := 0;
    PrependNothing(Scan(next, len, 0));
    while true
      invariant Scan(next, len, 0) == Prepend(out, Scan(next, len, off))
      decreases len - off
    {
      match next(off) {
        case Stop =>
          assert out + [] == out;
          return Ok(out);
        case Broken =>
          return Bad;
        case Record(here, then_) =>
          PrependTwice(out, here, Scan(next, len, then_));
          out, off := out + here, then_;
      }
    }
  }

  lemma FollowStep(v: Volume, node: nat, idx: nat, depth: nat, per: nat)
    requires Sized(v) && depth > 0 && per == PerIndex(v)
    ensures var span := Pow(per, depth - 1);
            && span > 0 && Quot(Pow(per, depth), per) == span
            && var slots := Index(v, node);
               Follow(v, node, Digits(idx, per, depth)) ==
               if slots.Bad? || Quot(idx, span) >= per || slots.value[Quot(idx, span)] == 0 then Bad
               else Follow(v, slots.value[Quot(idx, span)], Digits(Rem(idx, span), per, depth - 1))
  {
    PowPositive(per, depth - 1);
    var span := Pow(per, depth - 1);
    QuotProduct(span, per);
    assert Digits(idx, per, depth)[1..] == Digits(Rem(idx, span), per, depth - 1);
  }

  /** One leaf answers for `PerIndex` consecutive blocks. */
  lemma LeafEntries(v: Volume, q: nat, per: nat, first: nat)
    requires Sized(v) && per == PerIndex(v) && first == Times(q, per)
    ensures var leaf := ReconImage.LeafBlock(v, q);
            var vals := if leaf.Ok? then Index(v, leaf.value) else Bad;
            forall b :: first <= b < first + per ==>
              EntryAt(v, b) == if vals.Ok? then Ok(vals.value[b - first]) else Bad
  {
    forall b: nat | first <= b < first + per ensures Quot(b, per) == q && Rem(b, per) == b - first {
      DividedOnce(b, q, per, b - first);
    }
  }

  lemma Unreadable(v: Volume, ino: Inode, n: nat)
    requires Sized(v) && |ino.direct| == DIRECT && Times(n, v.bs) < ino.size && FileBlock(v, ino, n).Bad?
    ensures !Readable(v, ino) && (ino.inlineLen == 0 ==> ReconImage.Contents(v, ino) == Bad)
  {
  }

  /** The bytes gathered from the first n stretches of a file. */
  ghost predicate Filled(v: Volume, ino: Inode, out: seq<Byte>, n: nat)
    requires Sized(v) && |ino.direct| == DIRECT
  {
    && (forall i: nat :: i < n ==> FileBlock(v, ino, i).Ok?)
    && (forall k: nat :: k < |out| ==>
          Quot(k, v.bs) < n && out[k] == FileBlock(v, ino, Quot(k, v.bs)).value[Rem(k, v.bs)])
  }

  lemma NothingFilled(v: Volume, ino: Inode)
    requires Sized(v) && |ino.direct| == DIRECT
    ensures Filled(v, ino, [], 0)
  {
  }

  method Extend(v: Volume, ghost ino: Inode, out: seq<Byte>, ghost n: nat, piece: seq<Byte>) returns (r: seq<Byte>)
    requires Sized(v) && |ino.direct| == DIRECT && |out| == Times(n, v.bs) && |piece| <= v.bs
    requires Filled(v, ino, out, n) && FileBlock(v, ino, n).Ok?
    requires piece == FileBlock(v, ino, n).value[..|piece|]
    ensures r == out + piece && Filled(v, ino, r, n + 1)
  {
    r := out + piece;
    forall k: nat | k < |r|
      ensures Quot(k, v.bs) < n + 1 && r[k] == FileBlock(v, ino, Quot(k, v.bs)).value[Rem(k, v.bs)]
    {
      if k >= |out| { DividedOnce(k, n, v.bs, k - |out|); }
    }
  }

  lemma Gathered(v: Volume, ino: Inode, out: seq<Byte>, n: nat)
    requires Sized(v) && |ino.direct| == DIRECT && ino.inlineLen == 0
    requires |out| == ino.size <= Times(n, v.bs) && Filled(v, ino, out, n)
    ensures ReconImage.Contents(v, ino) == Ok(out)
  {
    forall i: nat | Times(i, v.bs) < ino.size ensures FileBlock(v, ino, i).Ok? {
      if i > n { TimesGrows(n, i, v.bs); }
    }
    assert ReconImage.Contents(v, ino).value == out;
  }
}

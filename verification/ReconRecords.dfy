/**
 Directories written out record by record, and what a listing makes of them: exactly the records
 that name something, in order, and nothing of a stream that is not such records.
 */
module ReconRecords {
  import opened Bytes
  import opened ReconImage

  /** A record: what it names, how, four bytes that mean nothing, and bytes up to the next record. */
  datatype Rec = Rec(child: nat, name: seq<Byte>, kind: Byte, unused: seq<Byte>, pad: seq<Byte>) {
    function Length(): nat { DIRENT_SIZE + |name| + |pad| }
  }

  ghost predicate Fit(r: Rec)
  {
    r.child < LONG_LIMIT && |r.name| < 256 && |r.unused| == 4 && r.Length() < HALF_LIMIT
  }

  function RecBytes(r: Rec): (b: seq<Byte>)
    requires |r.name| < 256 && |r.unused| == 4
    ensures |b| == r.Length()
  {
    PackLE(r.child, LONG) + PackLE(r.Length(), HALF) + [|r.name|, r.kind] + r.unused + r.name + r.pad
  }

  ghost predicate AllFit(rs: seq<Rec>) { forall i :: 0 <= i < |rs| ==> Fit(rs[i]) }

  ghost function AllBytes(rs: seq<Rec>): seq<Byte>
    requires AllFit(rs)
  {
    if rs == [] then [] else RecBytes(rs[0]) + AllBytes(rs[1..])
  }

  /** What a listing shows: the records whose child is not zero. */
  ghost function Listed(rs: seq<Rec>): seq<Entry>
  {
    if rs == [] then []
    else (if rs[0].child == 0 then [] else [Entry(rs[0].name, rs[0].child, rs[0].kind)]) + Listed(rs[1..])
  }

  /** Where the records of a stream end: too little is left for one, or its length is zero. */
  ghost predicate Ending(tail: seq<Byte>)
  {
    |tail| < DIRENT_SIZE || (tail[8] == 0 && tail[9] == 0)
  }

  /** Two bytes, the lower first. */
  function Pair(low: int, high: int): int { low + 256 * high }

  /** A record that does not fit: shorter than its head, longer than its stream, or too short for its name. */
  ghost predicate Misfit(tail: seq<Byte>)
  {
    && |tail| >= DIRENT_SIZE && (tail[8] != 0 || tail[9] != 0)
    && var length := Pair(tail[8], tail[9]);
       length < DIRENT_SIZE || length > |tail| || DIRENT_SIZE + tail[10] > length
  }

  // --- One record ---

  lemma Halves(a: Byte, b: Byte)
    ensures LE([a, b]) == Pair(a, b)
  {
    assert [a, b][1..] == [b] && [b][1..] == [];
    var high: int := b;
    assert LE([b]) == high;
  }

  lemma LengthAt(s: seq<Byte>, off: nat)
    requires off + DIRENT_SIZE <= |s|
    ensures U16(s, off + 8) == Pair(s[off + 8], s[off + 9])
  {
    assert s[off + 8..off + 10] == [s[off + 8], s[off + 9]];
    Halves(s[off + 8], s[off + 9]);
  }

  lemma RecParts(pre: seq<Byte>, a: seq<Byte>, b: seq<Byte>, n: Byte, k: Byte, u: seq<Byte>, name: seq<Byte>,
      rest: seq<Byte>)
    requires |a| == 8 && |b| == 2 && |u| == 4
    ensures var s, off := pre + (a + b + [n, k] + u + name + rest), |pre|;
            && s[off..off + 8] == a && s[off + 8..off + 10] == b && s[off + 10] == n && s[off + 11] == k
            && s[off + 16..off + 16 + |name|] == name
  {
  }

  /** A record written is the record read. */
  lemma RecReads(pre: seq<Byte>, r: Rec, post: seq<Byte>)
    requires Fit(r)
    ensures NextRecord(pre + RecBytes(r) + post, |pre|) == Record(Listed([r]), |pre + RecBytes(r)|)
  {
    hide LE, PackLE;
    var s := pre + RecBytes(r) + post;
    Widths();
    UnpackPack(r.child, LONG);
    UnpackPack(r.Length(), HALF);
    RecParts(pre, PackLE(r.child, LONG), PackLE(r.Length(), HALF), |r.name|, r.kind, r.unused, r.name, r.pad + post);
    assert s == pre + (PackLE(r.child, LONG) + PackLE(r.Length(), HALF) + [|r.name|, r.kind] + r.unused + r.name
                       + (r.pad + post));
    assert [r][1..] == [] && Listed([]) == [];
    assert |s| >= |pre| + r.Length();
  }

  /** And a record read is one that could have been written. */
  lemma RecRead(s: seq<Byte>, off: nat) returns (r: Rec)
    requires NextRecord(s, off).Record?
    ensures Fit(r) && off < NextRecord(s, off).next <= |s|
    ensures s[off..NextRecord(s, off).next] == RecBytes(r) && NextRecord(s, off).here == Listed([r])
  {
    hide LE, PackLE;
    var length, nameLen := U16(s, off + 8), s[off + 10];
    r := Rec(U64(s, off), s[off + DIRENT_SIZE..off + DIRENT_SIZE + nameLen], s[off + 11],
             s[off + 12..off + DIRENT_SIZE], s[off + DIRENT_SIZE + nameLen..off + length]);
    Widths();
    LEBound(s[off..off + 8]);
    LEBound(s[off + 8..off + 10]);
    PackUnpack(s[off..off + 8]);
    PackUnpack(s[off + 8..off + 10]);
    assert r.Length() == length;
    SixPieces(s, off, DIRENT_SIZE + nameLen, length);
    assert [r][1..] == [] && Listed([]) == [];
  }

  lemma SixPieces(s: seq<Byte>, off: nat, m: nat, n: nat)
    requires DIRENT_SIZE <= m <= n && off + n <= |s|
    ensures s[off..off + n] == s[off..off + 8] + s[off + 8..off + 10] + [s[off + 10], s[off + 11]]
                               + s[off + 12..off + DIRENT_SIZE] + s[off + DIRENT_SIZE..off + m] + s[off + m..off + n]
  {
  }

  // --- A stream ---

  lemma ScanStep(s: seq<Byte>, off: nat, here: seq<Entry>, next: nat)
    requires NextRecord(s, off) == Record(here, next)
    ensures var rest := Scan(NextIn(s), |s|, next);
            Scan(NextIn(s), |s|, off) == if rest.Ok? then Ok(here + rest.value) else Bad
  {
    hide NextRecord;
    assert NextIn(s)(off) == Record(here, next);
  }

  lemma FirstListed(rs: seq<Rec>)
    requires rs != []
    ensures Listed(rs) == Listed([rs[0]]) + Listed(rs[1..])
  {
    assert [rs[0]][1..] == [];
  }

  lemma Regroup(pre: seq<Byte>, r: seq<Byte>, rest: seq<Byte>, tail: seq<Byte>)
    ensures pre + (r + rest) + tail == pre + r + (rest + tail) == (pre + r) + rest + tail
  {
  }

  /** Records written one after another, then an end: the listing is exactly those that name something. */
  lemma {:induction false} ScanWritten(pre: seq<Byte>, rs: seq<Rec>, tail: seq<Byte>)
    requires AllFit(rs) && (Ending(tail) || Misfit(tail))
    ensures var s := pre + AllBytes(rs) + tail;
            Scan(NextIn(s), |s|, |pre|) == if Ending(tail) then Ok(Listed(rs)) else Bad
    decreases |rs|
  {
    hide NextRecord, RecBytes, Listed, Ending, Misfit;
    var s := pre + AllBytes(rs) + tail;
    if rs == [] {
      EndScanned(pre, tail);
      assert s == pre + tail;
    } else {
      var r, rest := rs[0], rs[1..];
      Regroup(pre, RecBytes(r), AllBytes(rest), tail);
      RecReads(pre, r, AllBytes(rest) + tail);
      ScanWritten(pre + RecBytes(r), rest, tail);
      hide Scan;
      ScanStep(s, |pre|, Listed([r]), |pre + RecBytes(r)|);
      FirstListed(rs);
    }
  }

  lemma EndScanned(pre: seq<Byte>, tail: seq<Byte>)
    requires Ending(tail) || Misfit(tail)
    ensures Scan(NextIn(pre + tail), |pre + tail|, |pre|) == if Ending(tail) then Ok(Listed([])) else Bad
  {
    hide NextRecord;
    AtTheEnd(pre, tail);
  }

  lemma AtTheEnd(pre: seq<Byte>, tail: seq<Byte>)
    requires Ending(tail) || Misfit(tail)
    ensures NextRecord(pre + tail, |pre|) == if Ending(tail) then Stop else Broken
  {
    hide LE;
    var s := pre + tail;
    if |tail| >= DIRENT_SIZE {
      LengthAt(s, |pre|);
      assert s[|pre| + 8] == tail[8] && s[|pre| + 9] == tail[9] && s[|pre| + 10] == tail[10];
      assert U16(s, |pre| + 8) == Pair(tail[8], tail[9]);
      assert U16(s, |pre| + 8) == 0 <==> Ending(tail);
    }
  }

  /** A stream that can be listed is such records and such an end. */
  lemma {:induction false} ScanRead(s: seq<Byte>, off: nat) returns (rs: seq<Rec>, tail: seq<Byte>)
    requires off <= |s| && Scan(NextIn(s), |s|, off).Ok?
    ensures AllFit(rs) && Ending(tail) && s[off..] == AllBytes(rs) + tail
    ensures Scan(NextIn(s), |s|, off).value == Listed(rs)
    decreases |s| - off
  {
    hide RecBytes, Ending, Listed;
    match NextRecord(s, off) {
      case Stop =>
        rs, tail := [], s[off..];
        StopEnds(s, off);
        NothingThere(s, off);
      case Record(here, next) =>
        ScanStep(s, off, here, next);
        var r := RecRead(s, off);
        var more;
        more, tail := ScanRead(s, next);
        rs := [r] + more;
        hide NextRecord, Scan, AllFit;
        assert rs[1..] == more;
        FirstListed(rs);
        OneMore(s, off, next, r, more, tail);
    }
  }

  lemma OneMore(s: seq<Byte>, off: nat, next: nat, r: Rec, more: seq<Rec>, tail: seq<Byte>)
    requires Fit(r) && AllFit(more) && off <= next <= |s|
    requires s[off..next] == RecBytes(r) && s[next..] == AllBytes(more) + tail
    ensures AllFit([r] + more) && s[off..] == AllBytes([r] + more) + tail
  {
    hide RecBytes;
    assert ([r] + more)[1..] == more;
    assert s[off..] == s[off..next] + s[next..];
    assert RecBytes(r) + AllBytes(more) + tail == RecBytes(r) + (AllBytes(more) + tail);
  }

  lemma NothingThere(s: seq<Byte>, off: nat)
    requires off <= |s| && NextRecord(s, off) == Stop
    ensures Scan(NextIn(s), |s|, off) == Ok(Listed([])) && s[off..] == AllBytes([]) + s[off..]
  {
    hide NextRecord;
    assert NextIn(s)(off) == Stop;
  }

  lemma StopEnds(s: seq<Byte>, off: nat)
    requires off <= |s| && NextRecord(s, off) == Stop
    ensures Ending(s[off..])
  {
    if off + DIRENT_SIZE <= |s| { LengthAt(s, off); }
    hide LE;
  }

  /**
   A stream can be listed if and only if it is records that fit, then an end; and the listing is then
   exactly the records among them whose child is not zero, in order.
   */
  lemma StreamExactly(s: seq<Byte>, es: seq<Entry>)
    ensures ParseEntries(s) == Ok(es) <==>
            exists rs, tail :: AllFit(rs) && Ending(tail) && s == AllBytes(rs) + tail && es == Listed(rs)
  {
    hide AllFit, Ending, AllBytes, Listed, Misfit, Scan;
    if ParseEntries(s) == Ok(es) {
      var rs, tail := ScanRead(s, 0);
      assert s[0..] == s;
    }
    if rs, tail :| AllFit(rs) && Ending(tail) && s == AllBytes(rs) + tail && es == Listed(rs) {
      ScanWritten([], rs, tail);
      assert [] + AllBytes(rs) + tail == s;
    }
  }

  /** A record that does not fit, after any that do, makes the listing fail. */
  lemma MisfitFails(rs: seq<Rec>, tail: seq<Byte>)
    requires AllFit(rs) && Misfit(tail)
    ensures ParseEntries(AllBytes(rs) + tail) == Bad
  {
    hide AllBytes, NextRecord, Scan;
    ScanWritten([], rs, tail);
    assert [] + AllBytes(rs) + tail == AllBytes(rs) + tail;
  }

  // --- A directory ---

  /** One slot of a directory: nothing, or a block of records. */
  ghost predicate Page(v: Volume, slot: nat, page: seq<Rec>, end: seq<Byte>)
  {
    && AllFit(page)
    && if slot == 0 then page == [] else Ending(end) && Block(v, slot) == Ok(AllBytes(page) + end)
  }

  ghost predicate Pages(v: Volume, slots: seq<nat>, pages: seq<seq<Rec>>, ends: seq<seq<Byte>>)
  {
    && |slots| == |pages| == |ends|
    && forall i :: 0 <= i < |slots| ==> Page(v, slots[i], pages[i], ends[i])
  }

  function Together<T>(parts: seq<seq<T>>): seq<T>
  {
    if parts == [] then [] else parts[0] + Together(parts[1..])
  }

  function EntriesIn(v: Volume, slots: seq<nat>): Result<seq<Entry>>
  {
    var streams :- BlocksAt(v, NonZero(slots));
    AllEntries(streams)
  }

  lemma {:induction false} ListedTogether(a: seq<Rec>, b: seq<Rec>)
    ensures Listed(a + b) == Listed(a) + Listed(b)
  {
    if a == [] {
      assert [] + b == b;
    } else {
      assert (a + b)[1..] == a[1..] + b && (a + b)[0] == a[0];
      ListedTogether(a[1..], b);
    }
  }

  /** The listing of a row of slots, first slot first. */
  lemma EntriesStep(v: Volume, slots: seq<nat>)
    requires slots != []
    ensures var rest, b := EntriesIn(v, slots[1..]), Block(v, slots[0]);
            EntriesIn(v, slots) ==
            if slots[0] == 0 then rest
            else if rest.Bad? || b.Bad? || ParseEntries(b.value).Bad? then Bad
            else Ok(ParseEntries(b.value).value + rest.value)
  {
    hide ParseEntries, Block;
    var more := NonZero(slots[1..]);
    if slots[0] == 0 {
      assert [] + more == more;
    } else {
      var at := NonZero(slots);
      assert at == [slots[0]] + more && at[1..] == more;
      var b := Block(v, slots[0]);
      var rest := BlocksAt(v, more);
      if b.Ok? && rest.Ok? {
        assert BlocksAt(v, at) == Ok([b.value] + rest.value);
        assert ([b.value] + rest.value)[1..] == rest.value;
      }
    }
  }

  lemma {:induction false} PagesListed(v: Volume, slots: seq<nat>, pages: seq<seq<Rec>>, ends: seq<seq<Byte>>)
    requires Pages(v, slots, pages, ends)
    ensures EntriesIn(v, slots) == Ok(Listed(Together(pages)))
    decreases |slots|
  {
    hide ParseEntries, Block, AllFit, AllBytes, Ending, Listed, EntriesIn;
    if slots == [] {
      NoSlots(v);
    } else {
      EntriesStep(v, slots);
      PagesListed(v, slots[1..], pages[1..], ends[1..]);
      assert Page(v, slots[0], pages[0], ends[0]);
      if slots[0] == 0 {
        assert [] + Together(pages[1..]) == Together(pages[1..]);
      } else {
        StreamExactly(AllBytes(pages[0]) + ends[0], Listed(pages[0]));
        ListedTogether(pages[0], Together(pages[1..]));
      }
    }
  }

  lemma NoSlots(v: Volume)
    ensures EntriesIn(v, []) == Ok(Listed(Together([])))
  {
  }

  lemma {:induction false} PagesRead(v: Volume, slots: seq<nat>) returns (pages: seq<seq<Rec>>, ends: seq<seq<Byte>>)
    requires EntriesIn(v, slots).Ok?
    ensures Pages(v, slots, pages, ends)
    decreases |slots|
  {
    hide ParseEntries, Block, AllFit, AllBytes, Ending, Listed, EntriesIn;
    if slots == [] {
      pages, ends := [], [];
    } else {
      EntriesStep(v, slots);
      var page: seq<Rec>, end: seq<Byte> := [], [];
      if slots[0] == 0 {
        NoRecords();
      } else {
        var b := Block(v, slots[0]).value;
        StreamExactly(b, ParseEntries(b).value);
        page, end :| AllFit(page) && Ending(end) && b == AllBytes(page) + end && ParseEntries(b).value == Listed(page);
      }
      pages, ends := PagesRead(v, slots[1..]);
      assert Page(v, slots[0], page, end);
      pages, ends := [page] + pages, [end] + ends;
    }
  }

  lemma NoRecords()
    ensures AllFit([])
  {
  }

  /**
   A directory kept in blocks is listed if and only if every slot in use points to a block of records
   that fit, then an end; the listing is the records of all of them whose child is not zero, slot after
   slot. Anything else, a record that does not fit in any of the blocks included, makes it fail.
   */
  lemma DirectoryExactly(v: Volume, ino: Inode, es: seq<Entry>)
    requires ino.inlineLen == 0
    ensures DirEntries(v, ino) == Ok(es) <==>
            exists pages, ends :: Pages(v, ino.direct, pages, ends) && es == Listed(Together(pages))
  {
    hide Pages, Listed;
    assert DirEntries(v, ino) == EntriesIn(v, ino.direct);
    if DirEntries(v, ino).Ok? {
      var pages, ends := PagesRead(v, ino.direct);
      PagesListed(v, ino.direct, pages, ends);
    }
    if pages, ends :| Pages(v, ino.direct, pages, ends) && es == Listed(Together(pages)) {
      PagesListed(v, ino.direct, pages, ends);
    }
  }

  /** What is kept behind the inode in its own block, as far as the block goes. */
  ghost function Behind(ino: Inode): seq<Byte>
    requires |ino.raw| >= 232
  {
    if 232 + ino.inlineLen < |ino.raw| then ino.raw[232..232 + ino.inlineLen] else ino.raw[232..]
  }

  /** A directory kept inside its inode: the same for the bytes behind the inode, as far as they are used. */
  lemma InlineDirectoryExactly(v: Volume, ino: Inode, es: seq<Entry>)
    requires 0 < ino.inlineLen && |ino.raw| >= 232
    ensures DirEntries(v, ino) == Ok(es) <==>
            exists rs, tail :: AllFit(rs) && Ending(tail) && es == Listed(rs) && Behind(ino) == AllBytes(rs) + tail
  {
    hide AllFit, Ending, AllBytes, Listed;
    StreamExactly(Behind(ino), es);
    OneStream(v, ino);
    hide DirEntries, Behind, ParseEntries;
  }

  lemma OneStream(v: Volume, ino: Inode)
    requires 0 < ino.inlineLen && |ino.raw| >= 232
    ensures DirEntries(v, ino) == ParseEntries(Behind(ino))
  {
    hide ParseEntries;
    var s := Behind(ino);
    var none: seq<seq<Byte>> := [];
    assert Clip(ino.raw, 232, 232 + ino.inlineLen) == s;
    assert [s][1..] == none;
    assert AllEntries(none) == Ok([]);
    assert DirEntries(v, ino) == AllEntries([s]);
    if ParseEntries(s).Ok? {
      assert ParseEntries(s).value + [] == ParseEntries(s).value;
    }
  }

  /** A record that does not fit, in any block of a directory, makes its listing fail. */
  lemma MisfitInDirectory(v: Volume, ino: Inode, i: nat, rs: seq<Rec>, tail: seq<Byte>)
    requires ino.inlineLen == 0 && i < |ino.direct| && ino.direct[i] != 0
    requires AllFit(rs) && Misfit(tail) && Block(v, ino.direct[i]) == Ok(AllBytes(rs) + tail)
    ensures DirEntries(v, ino) == Bad
  {
    hide AllFit, Misfit, AllBytes, Block, Listed, Ending;
    MisfitFails(rs, tail);
    if DirEntries(v, ino).Ok? {
      var es := DirEntries(v, ino).value;
      DirectoryExactly(v, ino, es);
      var pages, ends :| Pages(v, ino.direct, pages, ends) && es == Listed(Together(pages));
      assert Page(v, ino.direct[i], pages[i], ends[i]);
      StreamExactly(AllBytes(pages[i]) + ends[i], Listed(pages[i]));
      assert false;
    }
  }
}

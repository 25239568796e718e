/**
 What a reading of rows is, byte by byte, in the words of section 9 of the W3C PNG specification
 and without the reader's own predictor.
 */
module PngReading {
  import opened Bytes
  import opened Arith
  import opened PngFilter
  import opened Png

  /** How far v is from a + b - c. */
  ghost function Away(a: int, b: int, c: int, v: int): nat
  {
    if a + b - c < v then v - (a + b - c) else a + b - c - v
  }

  /** v is what a filter type has the decoder add, given the bytes to the left, above and above left. */
  ghost predicate Adds(f: Byte, a: Byte, b: Byte, c: Byte, v: int)
  {
    && (f == 1 ==> v == a)
    && (f == 2 ==> v == b)
    && (f == 3 ==> 2 * v <= a + b < 2 * v + 2)
    && (f == 4 ==> Nearest(a, b, c, v))
    && (f == 0 || f > 4 ==> v == 0)
  }

  /** The nearest of left, above and above left to left + above - above left, the earliest of those as near. */
  ghost predicate Nearest(a: Byte, b: Byte, c: Byte, v: int)
  {
    && (v == a || v == b || v == c)
    && Away(a, b, c, v) <= Away(a, b, c, a) && Away(a, b, c, v) <= Away(a, b, c, b)
    && Away(a, b, c, v) <= Away(a, b, c, c)
    && (v != a ==> Away(a, b, c, v) < Away(a, b, c, a))
    && (v != a && v != b ==> Away(a, b, c, v) < Away(a, b, c, b))
  }

  /** There is one such v, and no other. */
  lemma AddsOne(f: Byte, a: Byte, b: Byte, c: Byte, v: int)
    ensures Adds(f, a, b, c, v) <==> v == Predict(f, a, b, c)
  {
    if f == 4 { NearestOne(a, b, c, v); }
  }

  lemma NearestOne(a: Byte, b: Byte, c: Byte, v: int)
    ensures Nearest(a, b, c, v) <==> v == Paeth(a, b, c)
  {
  }

  ghost function At(row: seq<Byte>, x: int): Byte
    requires x < |row|
  {
    if x < 0 then 0 else row[x]
  }

  /** Byte x of a row is the raw byte plus what the specification has added to it, modulo 256. */
  ghost predicate DecodedAt(f: Byte, bpp: nat, line: seq<Byte>, prev: seq<Byte>, row: seq<Byte>, x: nat)
    requires bpp > 0 && x < |row| == |line| <= |prev|
  {
    exists v: int :: Adds(f, At(row, x - bpp), prev[x], At(prev, x - bpp), v) && row[x] == Sum256(line[x], v)
  }

  ghost function Sum256(a: int, b: int): int { (a + b) % 256 }

  ghost predicate Decoded(f: Byte, bpp: nat, line: seq<Byte>, prev: seq<Byte>, row: seq<Byte>)
    requires bpp > 0
  {
    |row| == |line| <= |prev| && forall x: nat :: x < |row| ==> DecodedAt(f, bpp, line, prev, row, x)
  }

  lemma {:induction false} RestoreDecodes(f: Byte, bpp: nat, line: seq<Byte>, prev: seq<Byte>, k: nat, x: nat)
    requires bpp > 0 && x < k <= |line| <= |prev|
    ensures var row := Restore(f, bpp, line, prev, k);
            var v: int := Predict(f, At(row, x - bpp), prev[x], At(prev, x - bpp));
            row[x] == Sum256(line[x], v)
    decreases k
  {
    var row, less := Restore(f, bpp, line, prev, k), Restore(f, bpp, line, prev, k - 1);
    hide Predict;
    assert At(row, x - bpp) == At(less, x - bpp);
    if x < k - 1 { RestoreDecodes(f, bpp, line, prev, k - 1, x); }
  }

  /** What the reader makes of a row is what the specification has a decoder make of it. */
  lemma RowDecoded(f: Byte, bpp: nat, stride: nat, line: seq<Byte>, prev: seq<Byte>)
    requires bpp > 0 && |line| <= stride == |prev| && RowOf(f, bpp, stride, line, prev).Ok?
    ensures Decoded(f, bpp, line, prev, RowOf(f, bpp, stride, line, prev).value)
  {
    RestoreNothingIf(f, bpp, line, prev);
    var row := RowOf(f, bpp, stride, line, prev).value;
    assert row == Restore(f, bpp, line, prev, |line|);
    hide Restore, Adds, RowOf, Predict;
    forall x: nat | x < |row| ensures DecodedAt(f, bpp, line, prev, row, x) {
      RestoreDecodes(f, bpp, line, prev, |line|, x);
      var v: int := Predict(f, At(row, x - bpp), prev[x], At(prev, x - bpp));
      AddsOne(f, At(row, x - bpp), prev[x], At(prev, x - bpp), v);
    }
  }

  // --- Rows that add one neighbour only ---

  /** The raw bytes of a channel up to x, added up. */
  function ChannelSum(line: seq<Byte>, x: int, bpp: nat): nat
    requires bpp > 0 && x < |line|
    decreases x
  {
    if x < 0 then 0 else line[x] + ChannelSum(line, x - bpp, bpp)
  }

  /** A row of type 1: each byte is the sum of its channel's raw bytes so far. */
  lemma {:induction false} SubSums(bpp: nat, line: seq<Byte>, prev: seq<Byte>, row: seq<Byte>, x: nat)
    requires bpp > 0 && Decoded(1, bpp, line, prev, row) && x < |row|
    ensures row[x] == ChannelSum(line, x, bpp) % 256
    decreases x
  {
    assert DecodedAt(1, bpp, line, prev, row, x);
    if x >= bpp {
      SubSums(bpp, line, prev, row, x - bpp);
      SumMod(line[x], ChannelSum(line, x - bpp, bpp));
    } else {
      assert ChannelSum(line, x - bpp, bpp) == 0;
    }
  }

  lemma SumMod(a: int, b: int)
    ensures (a + b % 256) % 256 == (a + b) % 256
  {
  }

  /** A column of raw bytes down to row y, added up. */
  function ColumnSum(lines: seq<seq<Byte>>, x: nat, y: nat): nat
    requires y < |lines| && forall i :: 0 <= i <= y ==> x < |lines[i]|
  {
    lines[y][x] + if y == 0 then 0 else ColumnSum(lines, x, y - 1)
  }

  /** Row y is decoded, as type f, from its line and from the row above it. */
  ghost predicate Below(f: Byte, bpp: nat, lines: seq<seq<Byte>>, rows: seq<seq<Byte>>, first: seq<Byte>, y: nat)
    requires bpp > 0 && y < |rows| == |lines|
  {
    Decoded(f, bpp, lines[y], if y == 0 then first else rows[y - 1], rows[y])
  }

  /** Rows of type 2, from a row of zeros: each byte is the sum of the raw bytes of its column so far. */
  lemma {:induction false} UpSums(
      bpp: nat, lines: seq<seq<Byte>>, rows: seq<seq<Byte>>, first: seq<Byte>, x: nat, y: nat)
    requires bpp > 0 && y < |rows| == |lines| && (forall i :: 0 <= i < |first| ==> first[i] == 0)
    requires forall i: nat :: i <= y ==> x < |lines[i]| && Below(2, bpp, lines, rows, first, i)
    ensures x < |rows[y]| && rows[y][x] == ColumnSum(lines, x, y) % 256
    decreases y
  {
    assert Below(2, bpp, lines, rows, first, y);
    var above := if y == 0 then first else rows[y - 1];
    if y > 0 { UpSums(bpp, lines, rows, first, x, y - 1); }
    hide Below;
    assert DecodedAt(2, bpp, lines[y], above, rows[y], x);
    if y > 0 { SumMod(lines[y][x], ColumnSum(lines, x, y - 1)); }
  }

  // --- A whole reading ---

  /** Row y begins here in the data: its filter type, and then its bytes. */
  function TypeAt(pos: nat, y: nat, stride: nat): nat { pos + Times(y, stride + 1) }

  /** Row y is decoded from its place in the data and from the row above it. */
  ghost predicate DecodedRow(raw: seq<Byte>, pos: nat, stride: nat, bpp: nat, above: seq<Byte>, row: seq<Byte>, y: nat)
    requires bpp > 0
  {
    var at := TypeAt(pos, y, stride);
    at + 1 + |row| <= |raw| && Decoded(raw[at], bpp, raw[at + 1..at + 1 + |row|], above, row)
  }

  ghost predicate RowHere(
      raw: seq<Byte>, pos: nat, stride: nat, bpp: nat, prev: seq<Byte>, rows: seq<seq<Byte>>, y: nat)
    requires bpp > 0 && y < |rows|
  {
    DecodedRow(raw, pos, stride, bpp, if y == 0 then prev else rows[y - 1], rows[y], y)
  }

  /** Every row of a reading, against the raw bytes and the row above. */
  ghost predicate AllDecoded(raw: seq<Byte>, pos: nat, stride: nat, bpp: nat, prev: seq<Byte>, rows: seq<seq<Byte>>)
    requires bpp > 0
  {
    forall y: nat :: y < |rows| ==> RowHere(raw, pos, stride, bpp, prev, rows, y)
  }

  /** Reading rows is reading one, and then the others if it was a whole one. */
  lemma RowsStep(raw: seq<Byte>, pos: nat, n: nat, stride: nat, bpp: nat, prev: seq<Byte>)
    requires bpp > 0 && |prev| == stride && n > 0 && Rows(raw, pos, n, stride, bpp, prev).Ok?
    ensures pos < |raw| && RowOf(raw[pos], bpp, stride, Slice(raw, pos + 1, pos + 1 + stride), prev).Ok?
    ensures var row := RowOf(raw[pos], bpp, stride, Slice(raw, pos + 1, pos + 1 + stride), prev).value;
            if |row| == stride then
              var rest := Rows(raw, pos + 1 + stride, n - 1, stride, bpp, row);
              rest.Ok? && Rows(raw, pos, n, stride, bpp, prev).value == [row] + rest.value
            else Rows(raw, pos, n, stride, bpp, prev).value == [row]
  {
    hide RowOf, Slice;
  }

  lemma {:induction false} RowsDecoded(raw: seq<Byte>, pos: nat, n: nat, stride: nat, bpp: nat, prev: seq<Byte>)
    requires bpp > 0 && |prev| == stride && Rows(raw, pos, n, stride, bpp, prev).Ok?
    ensures AllDecoded(raw, pos, stride, bpp, prev, Rows(raw, pos, n, stride, bpp, prev).value)
    decreases n
  {
    hide RowOf, Slice, DecodedRow;
    if n > 0 {
      hide Rows;
      RowsStep(raw, pos, n, stride, bpp, prev);
      var row := RowOf(raw[pos], bpp, stride, Slice(raw, pos + 1, pos + 1 + stride), prev).value;
      FirstDecoded(raw, pos, stride, bpp, prev);
      if |row| == stride {
        RowsDecoded(raw, pos + 1 + stride, n - 1, stride, bpp, row);
        MoreDecoded(raw, pos, stride, bpp, prev, row, Rows(raw, pos + 1 + stride, n - 1, stride, bpp, row).value);
      }
    }
  }

  lemma FirstDecoded(raw: seq<Byte>, pos: nat, stride: nat, bpp: nat, prev: seq<Byte>)
    requires bpp > 0 && |prev| == stride && pos < |raw|
    requires RowOf(raw[pos], bpp, stride, Slice(raw, pos + 1, pos + 1 + stride), prev).Ok?
    ensures var row := RowOf(raw[pos], bpp, stride, Slice(raw, pos + 1, pos + 1 + stride), prev).value;
            DecodedRow(raw, pos, stride, bpp, prev, row, 0)
  {
    var line := Slice(raw, pos + 1, pos + 1 + stride);
    SliceIs(raw, pos + 1, stride);
    RowDecoded(raw[pos], bpp, stride, line, prev);
    hide RowOf, Slice, DecodedAt;
    assert TypeAt(pos, 0, stride) == pos;
  }

  lemma MoreDecoded(
      raw: seq<Byte>, pos: nat, stride: nat, bpp: nat, prev: seq<Byte>, row: seq<Byte>, rest: seq<seq<Byte>>)
    requires bpp > 0 && DecodedRow(raw, pos, stride, bpp, prev, row, 0)
    requires AllDecoded(raw, pos + 1 + stride, stride, bpp, row, rest)
    ensures AllDecoded(raw, pos, stride, bpp, prev, [row] + rest)
  {
    var rows := [row] + rest;
    forall y: nat | y < |rows| ensures RowHere(raw, pos, stride, bpp, prev, rows, y) {
      if y > 0 {
        assert RowHere(raw, pos + 1 + stride, stride, bpp, row, rest, y - 1);
        NextType(pos, y, stride);
      }
    }
  }

  lemma NextType(pos: nat, y: nat, stride: nat)
    requires y > 0
    ensures TypeAt(pos, y, stride) == TypeAt(pos + 1 + stride, y - 1, stride)
  {
  }

  /**
   Whatever file is read, its rows are decoded as the specification says, from the data of all its
   data chunks put together, the first row from a row of zeros.
   */
  lemma FileDecoded(
      width: nat, height: nat, bpp: nat, sig: seq<Byte>, cs: seq<Chunk>, raw: seq<Byte>, crc: Checksum,
      inflate: Inflate)
    requires width < LIMIT && height < LIMIT && (bpp == 3 || bpp == 4) && |sig| == 8
    requires forall k :: 0 <= k < |cs| ==> WellFormed(cs[k]) && cs[k].kind != IHDR
    requires inflate(Data(cs)) == Ok(raw)
    ensures var r := Read(sig + FrameAll([Chunk(IHDR, HeaderBody(width, height, ColourType(bpp)))] + cs, crc), inflate);
            r.Ok? ==> AllDecoded(raw, 0, bpp * width, bpp, Zeros(bpp * width), r.value.rows)
  {
    hide Read, AllDecoded, Rows;
    ReadsHeaderAndData(width, height, bpp, sig, cs, crc, inflate);
    if Rows(raw, 0, height, Stride(width, bpp), bpp, Zeros(Stride(width, bpp))).Ok? {
      RowsDecoded(raw, 0, height, Stride(width, bpp), bpp, Zeros(Stride(width, bpp)));
    }
  }

  // --- What is refused ---

  /** A header with any values in its fields. */
  function Header(w: nat, h: nat, depth: Byte, ct: Byte, compression: Byte, filter: Byte, interlace: Byte)
    : (b: seq<Byte>)
    ensures |b| == 13
  {
    PackBE(w, 4) + PackBE(h, 4) + [depth, ct, compression, filter, interlace]
  }

  /**
   A header is taken, with its size, if and only if it says eight bits, true colour with or without
   alpha, and no interlace.
   */
  lemma HeaderExactly(
      st: State, w: nat, h: nat, depth: Byte, ct: Byte, compression: Byte, filter: Byte, interlace: Byte)
    requires w < LIMIT && h < LIMIT
    ensures Take(st, Chunk(IHDR, Header(w, h, depth, ct, compression, filter, interlace))) ==
            if depth == 8 && (ct == 2 || ct == 6) && interlace == 0 then Ok(State(w, h, ct, st.idat)) else Bad
  {
    var b := Header(w, h, depth, ct, compression, filter, interlace);
    Pow256Four();
    UnpackPackBE(w, 4);
    UnpackPackBE(h, 4);
    assert b[0..4] == PackBE(w, 4) && b[4..8] == PackBE(h, 4);
    assert b[8] == depth && b[9] == ct && b[12] == interlace;
  }

  /** A header of any other length is refused. */
  lemma HeaderLength(st: State, body: seq<Byte>)
    ensures Take(st, Chunk(IHDR, body)).Ok? ==> exists w: nat, h: nat, depth, ct, compression, filter, interlace ::
              w < LIMIT && h < LIMIT && body == Header(w, h, depth, ct, compression, filter, interlace)
  {
    if |body| == 13 {
      var a, b := body[0..4], body[4..8];
      PackUnpackBE(a);
      PackUnpackBE(b);
      HeaderSplit(body);
      hide PackBE, BE;
      assert body == Header(BE(a), BE(b), body[8], body[9], body[10], body[11], body[12]);
    }
  }

  lemma HeaderSplit(body: seq<Byte>)
    requires |body| == 13
    ensures body == body[0..4] + body[4..8] + [body[8], body[9], body[10], body[11], body[12]]
  {
  }

  lemma PackUnpackBE(s: seq<Byte>)
    requires |s| == 4
    ensures BE(s) < LIMIT && PackBE(BE(s), 4) == s
  {
    PackUnpack(Reversed(s));
    LEBound(Reversed(s));
    Pow256Four();
    assert Reversed(Reversed(s)) == s;
  }

  /** The walk over framed chunks, with something after them. */
  lemma {:induction false} CollectThen(pre: seq<Byte>, cs: seq<Chunk>, crc: Checksum, post: seq<Byte>, st: State)
    requires forall k :: 0 <= k < |cs| ==> WellFormed(cs[k])
    ensures var d := pre + FrameAll(cs, crc) + post;
            Collect(d, |pre|, st) ==
            match TakeAll(st, cs)
            case Ok(next) => Collect(d, |pre + FrameAll(cs, crc)|, next)
            case Bad => Bad
    decreases |cs|
  {
    hide Frame, Take, Collect;
    if cs != [] {
      var c, rest := cs[0], FrameAll(cs[1..], crc);
      CollectOne(pre, c, crc, rest + post, st);
      assert pre + FrameAll(cs, crc) + post == pre + Frame(c, crc) + (rest + post);
      assert pre + FrameAll(cs, crc) + post == pre + Frame(c, crc) + rest + post;
      match Take(st, c) {
        case Ok(next) => CollectThen(pre + Frame(c, crc), cs[1..], crc, post, next);
        case Bad =>
      }
    }
  }

  /** A file whose header says anything else is refused, whatever comes after it. */
  lemma HeaderRefused(
      sig: seq<Byte>, w: nat, h: nat, depth: Byte, ct: Byte, compression: Byte, filter: Byte, interlace: Byte,
      cs: seq<Chunk>, crc: Checksum, inflate: Inflate)
    requires w < LIMIT && h < LIMIT && |sig| == 8 && forall k :: 0 <= k < |cs| ==> WellFormed(cs[k])
    requires depth != 8 || (ct != 2 && ct != 6) || interlace != 0
    ensures var head := Chunk(IHDR, Header(w, h, depth, ct, compression, filter, interlace));
            Read(sig + FrameAll([head] + cs, crc), inflate) == Bad
  {
    var head := Chunk(IHDR, Header(w, h, depth, ct, compression, filter, interlace));
    HeaderExactly(START, w, h, depth, ct, compression, filter, interlace);
    hide Collect, FrameAll, Header, Take, PackBE, Frame, Finish;
    var all := [head] + cs;
    forall k | 0 <= k < |all| ensures WellFormed(all[k]) {
      if k > 0 { assert all[k] == cs[k - 1]; }
    }
    assert all[0] == head && TakeAll(START, all) == Bad;
    hide TakeAll;
    CollectFramed(sig, all, crc, START);
  }

  /** A file cut off within the length of a chunk is refused. */
  lemma CutLengthRefused(sig: seq<Byte>, cs: seq<Chunk>, tail: seq<Byte>, crc: Checksum, inflate: Inflate)
    requires |sig| == 8 && 1 <= |tail| <= 3 && forall k :: 0 <= k < |cs| ==> WellFormed(cs[k])
    ensures Read(sig + FrameAll(cs, crc) + tail, inflate) == Bad
  {
    CollectThen(sig, cs, crc, tail, START);
    hide FrameAll, TakeAll;
    var d := sig + FrameAll(cs, crc) + tail;
    assert |sig + FrameAll(cs, crc)| + |tail| == |d|;
  }

  // --- What is written ---

  /** A chunk says how long its body is, and carries the checksum of everything between that and the checksum. */
  lemma FrameSays(c: Chunk, crc: Checksum)
    requires WellFormed(c) && crc(c.kind + c.body) < LIMIT
    ensures var f := Frame(c, crc);
            && |f| >= 12 && BE(f[0..4]) == |f| - 12 && f[4..8] == c.kind && f[8..|f| - 4] == c.body
            && BE(f[|f| - 4..]) == crc(f[4..|f| - 4])
  {
    hide BE, PackBE;
    Pow256Four();
    UnpackPackBE(|c.body|, 4);
    UnpackPackBE(crc(c.kind + c.body), 4);
    FrameParts(PackBE(|c.body|, 4), c.kind, c.body, PackBE(crc(c.kind + c.body), 4));
  }

  lemma FrameParts(a: seq<Byte>, b: seq<Byte>, c: seq<Byte>, d: seq<Byte>)
    requires |a| == 4 == |b| == |d|
    ensures var f := a + b + c + d;
            && f[0..4] == a && f[4..8] == b && f[8..|f| - 4] == c && f[|f| - 4..] == d && f[4..|f| - 4] == b + c
  {
  }

  /** A file written is the signature of the format and three such chunks. */
  lemma WrittenIs(img: Image, deflate: Deflate, crc: Checksum)
    requires Write(img, deflate, crc).Ok?
    ensures var kind: Byte := if img.bpp == 4 then 6 else 2;
            var head := Chunk([0x49, 0x48, 0x44, 0x52], Header(img.width, img.height, 8, kind, 0, 0, 0));
            var data := Chunk([0x49, 0x44, 0x41, 0x54], deflate(Plain(img.rows)));
            var end := Chunk([0x49, 0x45, 0x4E, 0x44], []);
            Write(img, deflate, crc).value ==
            [0x89, 0x50, 0x4E, 0x47, 0x0D, 0x0A, 0x1A, 0x0A] + FrameAll([head, data, end], crc)
  {
    hide Frame, Plain, PackBE;
    var kind := ColourType(img.bpp);
    var head := Chunk(IHDR, Header(img.width, img.height, 8, kind, 0, 0, 0));
    assert Header(img.width, img.height, 8, kind, 0, 0, 0) == HeaderBody(img.width, img.height, kind);
    var data, end := Chunk(IDAT, deflate(Plain(img.rows))), Chunk(IEND, []);
    ThreeFrames(head, data, end, crc);
    assert SIGNATURE + (Frame(head, crc) + Frame(data, crc) + Frame(end, crc))
        == SIGNATURE + Frame(head, crc) + Frame(data, crc) + Frame(end, crc);
  }

  lemma SliceIs(raw: seq<Byte>, a: nat, size: nat)
    requires a <= |raw|
    ensures a + |Slice(raw, a, a + size)| <= |raw| && Slice(raw, a, a + size) == raw[a..a + |Slice(raw, a, a + size)|]
  {
  }
}

/** Reading and writing 8-bit PNG files: chunk framing, the header, and the rows inside the image data. */
module Png {
  import opened Bytes
  import opened Sequences
  import opened Arith
  import opened PngFilter

  datatype Image = Image(width: nat, height: nat, bpp: nat, rows: seq<seq<Byte>>)

  datatype Chunk = Chunk(kind: seq<Byte>, body: seq<Byte>)

  const IHDR: seq<Byte> := [0x49, 0x48, 0x44, 0x52]
  const IDAT: seq<Byte> := [0x49, 0x44, 0x41, 0x54]
  const IEND: seq<Byte> := [0x49, 0x45, 0x4E, 0x44]
  const SIGNATURE: seq<Byte> := [0x89, 0x50, 0x4E, 0x47, 0x0D, 0x0A, 0x1A, 0x0A]
  const LIMIT: nat := 0x1_0000_0000

  /** Decompression as the reader sees it, and compression and the chunk checksum as the writer does. */
  type Inflate = seq<Byte> -> Result<seq<Byte>>
  type Deflate = seq<Byte> -> seq<Byte>
  type Checksum = seq<Byte> -> nat

  // --- Rows ---

  function Stride(width: nat, bpp: nat): nat
  {
    if bpp == 4 then 4 * width else 3 * width
  }

  /** A slice that clips at the end, as a slice of `bytes` does. */
  function Slice(d: seq<Byte>, a: nat, b: nat): (s: seq<Byte>)
    requires a <= b
    ensures |s| <= b - a
  {
    var n := |d|;
    d[if a < n then a else n..if b < n then b else n]
  }

  /** The next n rows of the raw data, from pos. */
  function Rows(raw: seq<Byte>, pos: nat, n: nat, stride: nat, bpp: nat, prev: seq<Byte>): (r: Result<seq<seq<Byte>>>)
    requires bpp > 0 && |prev| == stride
    decreases n
  {
    if n == 0 then Ok([])
    else if pos >= |raw| then Bad
    else
      var row :- RowOf(raw[pos], bpp, stride, Slice(raw, pos + 1, pos + 1 + stride), prev);
      if |row| == stride then
        var rest :- Rows(raw, pos + 1 + stride, n - 1, stride, bpp, row);
        Ok([row] + rest)
      else if n == 1 then Ok([row])
      else Bad
  }

  /** Rows as an encoder lays them out: for each its filter type, then the filtered bytes. */
  function Scanlines(rows: seq<seq<Byte>>, filters: seq<Byte>, bpp: nat, prev: seq<Byte>): seq<Byte>
    requires bpp > 0 && |filters| == |rows| && forall y :: 0 <= y < |rows| ==> |rows[y]| == |prev|
  {
    if rows == [] then []
    else [filters[0]] + Filter(filters[0], bpp, rows[0], prev) + Scanlines(rows[1..], filters[1..], bpp, rows[0])
  }

  /** Any rows, filtered row by row in any way, are read back as they were, whatever surrounds them. */
  lemma {:induction false} RowsOfScanlines(pre: seq<Byte>, rows: seq<seq<Byte>>, filters: seq<Byte>, bpp: nat,
      prev: seq<Byte>, post: seq<Byte>)
    requires bpp > 0 && |filters| == |rows| && forall y :: 0 <= y < |rows| ==> |rows[y]| == |prev|
    ensures Rows(pre + Scanlines(rows, filters, bpp, prev) + post, |pre|, |rows|, |prev|, bpp, prev) == Ok(rows)
    decreases |rows|
  {
    hide Filter, Restore, Slice, Rows;
    if rows == [] {
      RowsEnd(pre + Scanlines(rows, filters, bpp, prev) + post, |pre|, |prev|, bpp, prev);
    } else {
      var f, row := filters[0], rows[0];
      var line, rest := Filter(f, bpp, row, prev), Scanlines(rows[1..], filters[1..], bpp, row);
      RowsOfScanlines(pre + [f] + line, rows[1..], filters[1..], bpp, row, post);
      FirstRow(pre, f, line, rest + post, |rows|, bpp, row, prev);
      Regroup(pre, [f], line, rest, post);
      assert [row] + rows[1..] == rows;
    }
  }

  lemma Regroup(a: seq<Byte>, b: seq<Byte>, c: seq<Byte>, d: seq<Byte>, e: seq<Byte>)
    ensures a + (b + c + d) + e == a + b + c + (d + e) == a + b + c + d + e
  {
  }

  lemma RowsEnd(raw: seq<Byte>, pos: nat, stride: nat, bpp: nat, prev: seq<Byte>)
    requires bpp > 0 && |prev| == stride
    ensures Rows(raw, pos, 0, stride, bpp, prev) == Ok([])
  {
  }

  lemma FirstRow(pre: seq<Byte>, f: Byte, line: seq<Byte>, post: seq<Byte>, n: nat, bpp: nat, row: seq<Byte>,
      prev: seq<Byte>)
    requires bpp > 0 && n > 0 && |prev| == |row| && line == Filter(f, bpp, row, prev)
    ensures var raw := pre + [f] + line + post;
            var rest := Rows(raw, |pre + [f] + line|, n - 1, |prev|, bpp, row);
            Rows(raw, |pre|, n, |prev|, bpp, prev) == if rest.Ok? then Ok([row] + rest.value) else Bad
  {
    hide Filter, Restore;
    var raw := pre + [f] + line + post;
    assert Slice(raw, |pre| + 1, |pre| + 1 + |prev|) == line;
    RestoreFiltered(f, bpp, row, prev, |row|);
    assert row[..|row|] == row;
  }

  /** Where n rows from pos would end if all were there. */
  function RowsEndAt(pos: nat, n: nat, stride: nat): nat { pos + Times(n, stride + 1) }

  /**
   The data hold n rows from pos for this reader: all of them, or all but at most a pixel's worth
   of bytes at the end of the last, whose filter type is there and adds nothing.
   */
  predicate RowsFit(raw: seq<Byte>, pos: nat, n: nat, stride: nat, bpp: nat)
  {
    var end := RowsEndAt(pos, n, stride);
    || n == 0
    || end <= |raw|
    || (end <= |raw| + bpp && 0 <= end - stride - 1 < |raw| && !Known(raw[end - stride - 1]))
  }

  /** What a reading looks like: as many rows as asked, all full but the last, which has the bytes there are. */
  ghost predicate RowsShaped(rows: seq<seq<Byte>>, size: nat, pos: nat, n: nat, stride: nat)
  {
    var end := RowsEndAt(pos, n, stride);
    && |rows| == n
    && (forall y :: 0 <= y < n - 1 ==> |rows[y]| == stride)
    && (n > 0 ==> |rows[n - 1]| == if end <= size then stride else stride - (end - size))
  }

  /**
   The reader takes the rows if and only if the data hold them so, and the last row is full if and
   only if all is there.
   */
  lemma {:induction false} RowsExactly(raw: seq<Byte>, pos: nat, n: nat, stride: nat, bpp: nat, prev: seq<Byte>)
    requires bpp > 0 && |prev| == stride
    ensures var r := Rows(raw, pos, n, stride, bpp, prev);
            && (r.Ok? <==> RowsFit(raw, pos, n, stride, bpp))
            && (r.Ok? ==> RowsShaped(r.value, |raw|, pos, n, stride))
    decreases n
  {
    hide Restore, Slice, Times;
    if n > 0 {
      TimesNext(n, stride + 1);
      SliceSize(raw, pos + 1, stride);
      if pos < |raw| {
        var row := RowOf(raw[pos], bpp, stride, Slice(raw, pos + 1, pos + 1 + stride), prev);
        if row.Ok? && |row.value| == stride {
          RowsExactly(raw, pos + 1 + stride, n - 1, stride, bpp, row.value);
          RowsMore(raw, pos, n, stride, bpp, prev, row.value);
        }
      }
    }
  }

  lemma TimesNext(n: nat, d: nat)
    requires n > 0
    ensures Times(n, d) == Times(n - 1, d) + d && (n == 1 ==> Times(n, d) == d)
    ensures n > 1 ==> Times(n, d) >= d + d
  {
    if n > 1 { assert Times(n - 1, d) == Times(n - 2, d) + d; }
  }

  lemma SliceSize(raw: seq<Byte>, a: nat, size: nat)
    ensures |Slice(raw, a, a + size)| == if a + size <= |raw| then size else if a <= |raw| then |raw| - a else 0
  {
  }

  /** A full row followed by rows that are as they should be. */
  lemma RowsMore(raw: seq<Byte>, pos: nat, n: nat, stride: nat, bpp: nat, prev: seq<Byte>, row: seq<Byte>)
    requires bpp > 0 && |prev| == stride && n > 0 && pos + 1 + stride <= |raw|
    requires RowOf(raw[pos], bpp, stride, Slice(raw, pos + 1, pos + 1 + stride), prev) == Ok(row) && |row| == stride
    requires var r := Rows(raw, pos + 1 + stride, n - 1, stride, bpp, row);
             && (r.Ok? <==> RowsFit(raw, pos + 1 + stride, n - 1, stride, bpp))
             && (r.Ok? ==> RowsShaped(r.value, |raw|, pos + 1 + stride, n - 1, stride))
    ensures var r := Rows(raw, pos, n, stride, bpp, prev);
            && (r.Ok? <==> RowsFit(raw, pos, n, stride, bpp))
            && (r.Ok? ==> RowsShaped(r.value, |raw|, pos, n, stride))
  {
    hide RowOf, Slice, Times;
    TimesNext(n, stride + 1);
    var rest := Rows(raw, pos + 1 + stride, n - 1, stride, bpp, row);
    if rest.Ok? {
      var rows := [row] + rest.value;
      assert n > 1 ==> rows[n - 1] == rest.value[n - 2];
    }
  }

  // --- Chunks ---

  function Frame(c: Chunk, crc: Checksum): seq<Byte>
  {
    PackBE(|c.body|, 4) + c.kind + c.body + PackBE(crc(c.kind + c.body), 4)
  }

  function FrameAll(cs: seq<Chunk>, crc: Checksum): seq<Byte>
  {
    if cs == [] then [] else Frame(cs[0], crc) + FrameAll(cs[1..], crc)
  }

  ghost predicate WellFormed(c: Chunk) { |c.kind| == 4 && |c.body| < LIMIT }

  /** What the reader knows while it goes through the chunks. */
  datatype State = State(width: nat, height: nat, ct: nat, idat: seq<Byte>)

  function HeaderBody(width: nat, height: nat, ct: Byte): (s: seq<Byte>)
    ensures |s| == 13
  {
    PackBE(width, 4) + PackBE(height, 4) + [8, ct, 0, 0, 0]
  }

  /** Takes one chunk in. The header must be thirteen bytes, eight-bit colour, not interlaced. */
  function Take(st: State, c: Chunk): Result<State>
  {
    if c.kind == IHDR then
      if |c.body| != 13 || c.body[8] != 8 || c.body[9] !in {2, 6} || c.body[12] != 0 then Bad
      else Ok(State(BE(c.body[0..4]), BE(c.body[4..8]), c.body[9], st.idat))
    else if c.kind == IDAT then Ok(st.(idat := st.idat + c.body))
    else Ok(st)
  }

  function TakeAll(st: State, cs: seq<Chunk>): Result<State>
    decreases |cs|
  {
    if cs == [] then Ok(st)
    else
      var next :- Take(st, cs[0]);
      TakeAll(next, cs[1..])
  }

  /** The walk over the file: lengths are believed, slices clip, and only a cut-off length fails. */
  function Collect(d: seq<Byte>, i: nat, st: State): Result<State>
    decreases |d| - i
  {
    if i >= |d| then Ok(st)
    else if i + 4 > |d| then Bad
    else
      var ln := BE(d[i..i + 4]);
      var next :- Take(st, Chunk(Slice(d, i + 4, i + 8), Slice(d, i + 8, i + 8 + ln)));
      Collect(d, i + 12 + ln, next)
  }

  lemma FrameAt(pre: seq<Byte>, c: Chunk, crc: Checksum, post: seq<Byte>)
    requires WellFormed(c)
    ensures var d, i, ln := pre + Frame(c, crc) + post, |pre|, |c.body|;
            && i + 12 + ln <= |d| && BE(d[i..i + 4]) == ln
            && Chunk(Slice(d, i + 4, i + 8), Slice(d, i + 8, i + 8 + ln)) == c
            && |Frame(c, crc)| == 12 + ln
  {
    hide BE, PackBE;
    var ln := |c.body|;
    var head, tail := PackBE(ln, 4), PackBE(crc(c.kind + c.body), 4);
    Pow256Four();
    UnpackPackBE(ln, 4);
    Pieces(pre, head, c.kind, c.body, tail, post);
    assert pre + Frame(c, crc) + post == pre + head + c.kind + c.body + tail + post;
  }

  lemma Pieces(pre: seq<Byte>, head: seq<Byte>, kind: seq<Byte>, body: seq<Byte>, tail: seq<Byte>, post: seq<Byte>)
    requires |head| == 4 == |kind| == |tail|
    ensures var d, i, ln := pre + head + kind + body + tail + post, |pre|, |body|;
            && i + 12 + ln <= |d| && d[i..i + 4] == head
            && Slice(d, i + 4, i + 8) == kind && Slice(d, i + 8, i + 8 + ln) == body
  {
  }

  /** The walk finds exactly the chunks that were framed. */
  lemma {:induction false} CollectFramed(pre: seq<Byte>, cs: seq<Chunk>, crc: Checksum, st: State)
    requires forall k :: 0 <= k < |cs| ==> WellFormed(cs[k])
    ensures Collect(pre + FrameAll(cs, crc), |pre|, st) == TakeAll(st, cs)
    decreases |cs|
  {
    hide Frame, Take, Collect;
    if cs == [] {
      assert pre + FrameAll(cs, crc) == pre;
      CollectEnd(pre, st);
    } else {
      var c, rest := cs[0], FrameAll(cs[1..], crc);
      CollectOne(pre, c, crc, rest, st);
      assert pre + FrameAll(cs, crc) == pre + Frame(c, crc) + rest;
      match Take(st, c) {
        case Ok(next) => CollectFramed(pre + Frame(c, crc), cs[1..], crc, next);
        case Bad =>
      }
    }
  }

  lemma CollectEnd(d: seq<Byte>, st: State)
    ensures Collect(d, |d|, st) == Ok(st)
  {
  }

  lemma CollectOne(pre: seq<Byte>, c: Chunk, crc: Checksum, post: seq<Byte>, st: State)
    requires WellFormed(c)
    ensures var d := pre + Frame(c, crc) + post;
            Collect(d, |pre|, st) ==
            match Take(st, c)
            case Ok(next) => Collect(d, |pre + Frame(c, crc)|, next)
            case Bad => Bad
  {
    hide Frame, Take, BE, Slice;
    FrameAt(pre, c, crc, post);
  }

  // --- The file ---

  /** The image data, from however many chunks it was split into. */
  function Data(cs: seq<Chunk>): seq<Byte>
  {
    if cs == [] then [] else (if cs[0].kind == IDAT then cs[0].body else []) + Data(cs[1..])
  }

  lemma TakeOther(st: State, c: Chunk)
    requires c.kind != IHDR
    ensures Take(st, c) == Ok(st.(idat := st.idat + if c.kind == IDAT then c.body else []))
  {
    assert st.idat + [] == st.idat;
  }

  lemma {:induction false} TakeData(st: State, cs: seq<Chunk>)
    requires forall k :: 0 <= k < |cs| ==> cs[k].kind != IHDR
    ensures TakeAll(st, cs) == Ok(st.(idat := st.idat + Data(cs)))
    decreases |cs|
  {
    hide Take;
    if cs == [] {
      assert st.idat + [] == st.idat;
    } else {
      TakeOther(st, cs[0]);
      var piece := if cs[0].kind == IDAT then cs[0].body else [];
      TakeData(st.(idat := st.idat + piece), cs[1..]);
      assert st.idat + piece + Data(cs[1..]) == st.idat + (piece + Data(cs[1..]));
    }
  }

  function Depth(ct: nat): nat { if ct == 6 then 4 else 3 }

  function Finish(st: State, inflate: Inflate): Result<Image>
  {
    var raw :- inflate(st.idat);
    var bpp := Depth(st.ct);
    var stride := Stride(st.width, bpp);
    var rows :- Rows(raw, 0, st.height, stride, bpp, Zeros(stride));
    Ok(Image(st.width, st.height, bpp, rows))
  }

  const START: State := State(0, 0, 0, [])

  /** The reader. The signature is stepped over, not looked at. */
  function Read(d: seq<Byte>, inflate: Inflate): Result<Image>
  {
    var st :- Collect(d, 8, START);
    Finish(st, inflate)
  }

  ghost predicate Proper(img: Image)
  {
    && img.width < LIMIT && img.height < LIMIT && (img.bpp == 3 || img.bpp == 4)
    && |img.rows| == img.height
    && forall y :: 0 <= y < img.height ==> |img.rows[y]| == Stride(img.width, img.bpp)
  }

  function ColourType(bpp: nat): Byte { if bpp == 4 then 6 else 2 }

  lemma TakeHeader(st: State, width: nat, height: nat, bpp: nat)
    requires width < LIMIT && height < LIMIT
    ensures Take(st, Chunk(IHDR, HeaderBody(width, height, ColourType(bpp))))
         == Ok(State(width, height, ColourType(bpp), st.idat))
  {
    var body := HeaderBody(width, height, ColourType(bpp));
    Pow256Four();
    UnpackPackBE(width, 4);
    UnpackPackBE(height, 4);
    assert body[0..4] == PackBE(width, 4) && body[4..8] == PackBE(height, 4);
  }

  /**
   Every file the specification calls for is read as its image: any eight bytes of signature,
   the header, then any chunks at all with the compressed data split among them, each row
   filtered in its own way, and anything after the rows.
   */
  lemma ReadsAnyEncoding(img: Image, filters: seq<Byte>, sig: seq<Byte>, cs: seq<Chunk>, post: seq<Byte>,
      crc: Checksum, inflate: Inflate)
    requires Proper(img) && |filters| == img.height && |sig| == 8
    requires forall k :: 0 <= k < |cs| ==> WellFormed(cs[k]) && cs[k].kind != IHDR
    requires inflate(Data(cs)) == Ok(Scanlines(img.rows, filters, img.bpp, Zeros(Stride(img.width, img.bpp))) + post)
    ensures Read(sig + FrameAll([Chunk(IHDR, HeaderBody(img.width, img.height, ColourType(img.bpp)))] + cs, crc),
            inflate) == Ok(img)
  {
    ReadsHeaderAndData(img.width, img.height, img.bpp, sig, cs, crc, inflate);
    FinishScanlines(img, filters, Data(cs), post, inflate);
  }

  /** The walk comes down to the header's fields and the data put together again. */
  lemma ReadsHeaderAndData(
      width: nat, height: nat, bpp: nat, sig: seq<Byte>, cs: seq<Chunk>, crc: Checksum, inflate: Inflate)
    requires width < LIMIT && height < LIMIT && |sig| == 8
    requires forall k :: 0 <= k < |cs| ==> WellFormed(cs[k]) && cs[k].kind != IHDR
    ensures Read(sig + FrameAll([Chunk(IHDR, HeaderBody(width, height, ColourType(bpp)))] + cs, crc), inflate)
         == Finish(State(width, height, ColourType(bpp), Data(cs)), inflate)
  {
    hide Collect, Finish, FrameAll, Take, HeaderBody, Data;
    var head := Chunk(IHDR, HeaderBody(width, height, ColourType(bpp)));
    var all := [head] + cs;
    forall k | 0 <= k < |all| ensures WellFormed(all[k]) {
      if k > 0 { assert all[k] == cs[k - 1]; }
    }
    CollectFramed(sig, all, crc, START);
    assert all[1..] == cs;
    TakeHeader(START, width, height, bpp);
    var st := State(width, height, ColourType(bpp), []);
    TakeData(st, cs);
    assert st.idat + Data(cs) == Data(cs);
  }

  /**
   A whole file, however its data are split and whatever they hold: it is read if and only if the
   data hold its rows, and then as a picture of the header's size whose last row may be short.
   */
  lemma ReadsExactlyWhenRowsFit(
      width: nat, height: nat, bpp: nat, sig: seq<Byte>, cs: seq<Chunk>, raw: seq<Byte>,
      crc: Checksum, inflate: Inflate)
    requires width < LIMIT && height < LIMIT && (bpp == 3 || bpp == 4) && |sig| == 8
    requires forall k :: 0 <= k < |cs| ==> WellFormed(cs[k]) && cs[k].kind != IHDR
    requires inflate(Data(cs)) == Ok(raw)
    ensures var file := sig + FrameAll([Chunk(IHDR, HeaderBody(width, height, ColourType(bpp)))] + cs, crc);
            var r := Read(file, inflate);
            && (r.Ok? <==> RowsFit(raw, 0, height, Stride(width, bpp), bpp))
            && (r.Ok? ==> r.value.width == width && r.value.height == height && r.value.bpp == bpp)
            && (r.Ok? ==> RowsShaped(r.value.rows, |raw|, 0, height, Stride(width, bpp)))
  {
    hide Read, Rows, RowsFit, RowsShaped;
    ReadsHeaderAndData(width, height, bpp, sig, cs, crc, inflate);
    RowsExactly(raw, 0, height, Stride(width, bpp), bpp, Zeros(Stride(width, bpp)));
  }

  /** Such a file is read: one pixel of three bytes, and not one byte of it there. */
  lemma TruncatedFileAccepted(packed: seq<Byte>, crc: Checksum, inflate: Inflate)
    requires |packed| < LIMIT && inflate(packed) == Ok([0])
    ensures var cs := [Chunk(IDAT, packed), Chunk(IEND, [])];
            var file := SIGNATURE + FrameAll([Chunk(IHDR, HeaderBody(1, 1, ColourType(3)))] + cs, crc);
            Read(file, inflate).Ok? && Read(file, inflate).value == Image(1, 1, 3, [[]])
  {
    hide Read, FrameAll, HeaderBody;
    var cs := [Chunk(IDAT, packed), Chunk(IEND, [])];
    DataOf(packed);
    ReadsExactlyWhenRowsFit(1, 1, 3, SIGNATURE, cs, [0], crc, inflate);
    TimesNext(1, 4);
  }

  lemma FinishScanlines(img: Image, filters: seq<Byte>, data: seq<Byte>, post: seq<Byte>, inflate: Inflate)
    requires Proper(img) && |filters| == img.height
    requires inflate(data) == Ok(Scanlines(img.rows, filters, img.bpp, Zeros(Stride(img.width, img.bpp))) + post)
    ensures Finish(State(img.width, img.height, ColourType(img.bpp), data), inflate) == Ok(img)
  {
    hide Rows, Scanlines;
    var stride := Stride(img.width, img.bpp);
    var raw := Scanlines(img.rows, filters, img.bpp, Zeros(stride));
    assert [] + raw + post == raw + post;
    RowsOfScanlines([], img.rows, filters, img.bpp, Zeros(stride), post);
  }

  // --- The writer ---

  /** The body the writer compresses: each row after a filter type of zero. */
  function Plain(rows: seq<seq<Byte>>): seq<Byte>
  {
    if rows == [] then [] else [0] + rows[0] + Plain(rows[1..])
  }

  /** The writer's bytes. Sizes that do not fit their four-byte fields fail. */
  function Write(img: Image, deflate: Deflate, crc: Checksum): Result<seq<Byte>>
  {
    var packed := deflate(Plain(img.rows));
    if img.width >= LIMIT || img.height >= LIMIT || |packed| >= LIMIT then Bad
    else Ok(SIGNATURE
            + Frame(Chunk(IHDR, HeaderBody(img.width, img.height, ColourType(img.bpp))), crc)
            + Frame(Chunk(IDAT, packed), crc)
            + Frame(Chunk(IEND, []), crc))
  }

  lemma FilterZero(bpp: nat, row: seq<Byte>, prev: seq<Byte>)
    requires bpp > 0 && |prev| == |row|
    ensures Filter(0, bpp, row, prev) == row
  {
  }

  lemma {:induction false} PlainIsScanlines(rows: seq<seq<Byte>>, bpp: nat, prev: seq<Byte>)
    requires bpp > 0 && forall y :: 0 <= y < |rows| ==> |rows[y]| == |prev|
    ensures Plain(rows) == Scanlines(rows, Zeros(|rows|), bpp, prev)
    decreases |rows|
  {
    if rows != [] {
      PlainIsScanlines(rows[1..], bpp, rows[0]);
      FilterZero(bpp, rows[0], prev);
      assert Zeros(|rows|)[1..] == Zeros(|rows| - 1);
    }
  }

  /** Reading what was written gives the image back. */
  lemma RoundTrip(img: Image, deflate: Deflate, inflate: Inflate, crc: Checksum)
    requires Proper(img) && inflate(deflate(Plain(img.rows))) == Ok(Plain(img.rows))
    ensures Write(img, deflate, crc).Ok? <==> |deflate(Plain(img.rows))| < LIMIT
    ensures Write(img, deflate, crc).Ok? ==> Read(Write(img, deflate, crc).value, inflate) == Ok(img)
  {
    hide Frame, Read, Plain, HeaderBody, Scanlines;
    if |deflate(Plain(img.rows))| < LIMIT {
      Written(img, deflate(Plain(img.rows)), inflate, crc);
    }
  }

  lemma Written(img: Image, packed: seq<Byte>, inflate: Inflate, crc: Checksum)
    requires Proper(img) && |packed| < LIMIT && inflate(packed) == Ok(Plain(img.rows))
    ensures Read(SIGNATURE
                 + Frame(Chunk(IHDR, HeaderBody(img.width, img.height, ColourType(img.bpp))), crc)
                 + Frame(Chunk(IDAT, packed), crc)
                 + Frame(Chunk(IEND, []), crc), inflate) == Ok(img)
  {
    hide Frame, Read, Plain, HeaderBody, Scanlines, Data;
    var head := Chunk(IHDR, HeaderBody(img.width, img.height, ColourType(img.bpp)));
    var data, end := Chunk(IDAT, packed), Chunk(IEND, []);
    PlainIsScanlines(img.rows, img.bpp, Zeros(Stride(img.width, img.bpp)));
    assert Plain(img.rows) + [] == Plain(img.rows);
    DataOf(packed);
    ReadsAnyEncoding(img, Zeros(img.height), SIGNATURE, [data, end], [], crc, inflate);
    ThreeFrames(head, data, end, crc);
    assert [head] + [data, end] == [head, data, end];
    assert SIGNATURE + (Frame(head, crc) + Frame(data, crc) + Frame(end, crc))
        == SIGNATURE + Frame(head, crc) + Frame(data, crc) + Frame(end, crc);
  }

  lemma DataOf(packed: seq<Byte>)
    ensures Data([Chunk(IDAT, packed), Chunk(IEND, [])]) == packed
  {
    var cs := [Chunk(IDAT, packed), Chunk(IEND, [])];
    assert cs[1..] == [cs[1]] && cs[1..][1..] == [];
    assert Data(cs[1..]) == [] + Data([]);
  }

  lemma ThreeFrames(a: Chunk, b: Chunk, c: Chunk, crc: Checksum)
    ensures FrameAll([a, b, c], crc) == Frame(a, crc) + Frame(b, crc) + Frame(c, crc)
  {
    hide Frame;
    assert [a, b, c][1..] == [b, c] && [b, c][1..] == [c] && [c][1..] == [];
    assert FrameAll([c], crc) == Frame(c, crc) + FrameAll([], crc);
    assert FrameAll([b, c], crc) == Frame(b, crc) + FrameAll([c], crc);
  }

  // --- The loops ---

  /** The writer's loop. */
  method WritePng(img: Image, deflate: Deflate, crc: Checksum) returns (r: Result<seq<Byte>>)
    ensures r == Write(img, deflate, crc)
  {
    var body: seq<Byte> := [];
    for y := 0 to |img.rows|
      invariant body + Plain(img.rows[y..]) == Plain(img.rows)
    {
      assert img.rows[y..][0] == img.rows[y] && img.rows[y..][1..] == img.rows[y + 1..];
      body := body + ([0] + img.rows[y]);
    }
    assert img.rows[|img.rows|..] == [];
    assert body == Plain(img.rows);
    var packed := deflate(body);
    if img.width >= LIMIT || img.height >= LIMIT || |packed| >= LIMIT { return Bad; }
    r := Ok(SIGNATURE
            + Frame(Chunk(IHDR, HeaderBody(img.width, img.height, ColourType(img.bpp))), crc)
            + Frame(Chunk(IDAT, packed), crc)
            + Frame(Chunk(IEND, []), crc));
  }

  /** The reader's loop over the rows. */
  method ReadRows(raw: seq<Byte>, n: nat, stride: nat, bpp: nat) returns (r: Result<seq<seq<Byte>>>)
    requires bpp > 0
    ensures r == Rows(raw, 0, n, stride, bpp, Zeros(stride))
  {
    hide Slice, RowOf;
    var rows: seq<seq<Byte>> := [];
    var prev := Zeros(stride);
    var pos: nat := 0;
    ghost var all := Rows(raw, 0, n, stride, bpp, prev);
    assert all.Ok? ==> [] + all.value == all.value;
    for y := 0 to n
      invariant |prev| == stride ==> all == Prepend(rows, Rows(raw, pos, n - y, stride, bpp, prev))
      invariant |prev| != stride ==> pos >= |raw| && all == if y == n then Ok(rows) else Bad
    {
      if pos >= |raw| { return Bad; }
      var f := raw[pos];
      var piece := Slice(raw, pos + 1, pos + 1 + stride);
      var line := new Byte[|piece|](i requires 0 <= i < |piece| => piece[i]);
      assert line[..] == piece;
      RowsStep(rows, raw, pos, n - y, stride, bpp, prev);
      pos := pos + 1 + stride;
      var ok := RestoreRow(f, bpp, stride, line, prev);
      if !ok { return Bad; }
      rows := rows + [line[..]];
      prev := line[..];
    }
    r := Ok(rows);
    assert |prev| == stride ==> rows + [] == rows;
  }

  /** One row of the loop, with the rows already read in front. */
  lemma RowsStep(rows: seq<seq<Byte>>, raw: seq<Byte>, pos: nat, n: nat, stride: nat, bpp: nat, prev: seq<Byte>)
    requires bpp > 0 && |prev| == stride && n > 0 && pos < |raw|
    ensures var piece := Slice(raw, pos + 1, pos + 1 + stride);
            var row := RowOf(raw[pos], bpp, stride, piece, prev);
            var all := Prepend(rows, Rows(raw, pos, n, stride, bpp, prev));
            match row
            case Bad => all == Bad
            case Ok(line) =>
              if |line| == stride then all == Prepend(rows + [line],
                  Rows(raw, pos + 1 + stride, n - 1, stride, bpp, line))
              else pos + 1 + stride >= |raw| && all == if n == 1 then Ok(rows + [line]) else Bad
  {
    hide Restore;
    var row := RowOf(raw[pos], bpp, stride, Slice(raw, pos + 1, pos + 1 + stride), prev);
    if row.Ok? && |row.value| == stride {
      var rest := Rows(raw, pos + 1 + stride, n - 1, stride, bpp, row.value);
      if rest.Ok? { assert rows + ([row.value] + rest.value) == rows + [row.value] + rest.value; }
    }
  }

  /** The reader's loop over the chunks, then the rows. */
  method ReadPng(d: seq<Byte>, inflate: Inflate) returns (r: Result<Image>)
    ensures r == Read(d, inflate)
  {
    hide Take, BE, Slice, Rows;
    var i := 8;
    var st := START;
    while i < |d|
      invariant Collect(d, i, st) == Collect(d, 8, START)
    {
      if i + 4 > |d| { return Bad; }
      var ln := BE(d[i..i + 4]);
      var c := Chunk(Slice(d, i + 4, i + 8), Slice(d, i + 8, i + 8 + ln));
      i := i + 12 + ln;
      var next := Take(st, c);
      if next.Bad? { return Bad; }
      st := next.value;
    }
    var raw := inflate(st.idat);
    if raw.Bad? { return Bad; }
    var bpp := Depth(st.ct);
    var rows := ReadRows(raw.value, st.height, Stride(st.width, bpp), bpp);
    r := if rows.Ok? then Ok(Image(st.width, st.height, bpp, rows.value)) else Bad;
  }
}

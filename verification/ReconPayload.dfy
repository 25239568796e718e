/**
 The crash workload's file, written out: what the workload stores, and that the check calls exactly
 that whole, whatever is cut, lengthened, altered or mixed.
 */
module ReconPayload {
  import opened Bytes
  import Crc
  import opened ReconImage
  import opened ReconTree
  import opened ReconCheck

  /** A version: the round it is of, and the bytes between its numbers. */
  datatype Version = Version(round: nat, filler: seq<Byte>) {
    function Length(): nat { 24 + |filler| }
  }

  ghost predicate Fit(x: Version) { x.round < SHORT_LIMIT && x.Length() < SHORT_LIMIT }

  /** Magic, round and length. */
  function Front(x: Version): (b: seq<Byte>)
    ensures |b| == 12
  {
    PackLE(PAYLOAD_MAGIC, SHORT) + PackLE(x.round, SHORT) + PackLE(x.Length(), SHORT)
  }

  /** The round again, the bytes, and the round once more. */
  function Back(x: Version): (b: seq<Byte>)
    ensures |b| == x.Length() - 16
  {
    PackLE(x.round, SHORT) + x.filler + PackLE(x.round, SHORT)
  }

  /** A version as it is stored, its checksum between its front and its back. */
  function Laid(x: Version, stored: seq<Byte>): seq<Byte>
  {
    Front(x) + stored + Back(x)
  }

  ghost predicate Stores(sum: Sum, x: Version, stored: seq<Byte>)
  {
    Fit(x) && |stored| == 4 && sum(Front(x) + Back(x), stored)
  }

  // --- Exactly the versions are whole ---

  lemma Pieces(a: seq<Byte>, b: seq<Byte>, d: seq<Byte>, stored: seq<Byte>, e: seq<Byte>, f: seq<Byte>)
    requires |a| == |b| == |d| == |stored| == |e| == 4
    ensures var c := (a + b + d) + stored + (e + f + b);
            && c[0..4] == a && c[4..8] == b && c[8..12] == d && c[12..16] == stored && c[16..20] == e
            && c[|c| - 4..|c|] == b && c[..12] + c[16..] == (a + b + d) + (e + f + b)
  {
  }

  lemma Apart(c: seq<Byte>)
    requires |c| >= 24
    ensures c == (c[0..4] + c[4..8] + c[8..12]) + c[12..16] + (c[16..20] + c[20..|c| - 4] + c[|c| - 4..|c|])
  {
  }

  lemma StoredIsWhole(sum: Sum, x: Version, stored: seq<Byte>)
    requires Stores(sum, x, stored)
    ensures WholePayload(sum, Laid(x, stored)) && LooksLikePayload(Laid(x, stored))
    ensures U32(Laid(x, stored), 4) == x.round && |Laid(x, stored)| == x.Length()
  {
    hide LE, PackLE;
    Widths();
    UnpackPack(PAYLOAD_MAGIC, SHORT);
    UnpackPack(x.round, SHORT);
    UnpackPack(x.Length(), SHORT);
    Pieces(PackLE(PAYLOAD_MAGIC, SHORT), PackLE(x.round, SHORT), PackLE(x.Length(), SHORT), stored,
           PackLE(x.round, SHORT), x.filler);
  }

  lemma WholeIsStored(sum: Sum, c: seq<Byte>) returns (x: Version, stored: seq<Byte>)
    requires WholePayload(sum, c)
    ensures Stores(sum, x, stored) && c == Laid(x, stored) && x.round == U32(c, 4)
  {
    hide LE, PackLE;
    x, stored := Version(U32(c, 4), c[20..|c| - 4]), c[12..16];
    Widths();
    LEBound(c[4..8]);
    LEBound(c[8..12]);
    PackUnpack(c[0..4]);
    PackUnpack(c[4..8]);
    PackUnpack(c[8..12]);
    PackUnpack(c[16..20]);
    PackUnpack(c[|c| - 4..|c|]);
    Apart(c);
    assert c[..12] == Front(x);
    assert c[16..] == Back(x);
  }

  /** What the check calls whole is exactly what the workload could have stored, of that round. */
  lemma WholeExactly(sum: Sum, c: seq<Byte>, round: nat)
    ensures WholePayload(sum, c) && U32(c, 4) == round <==>
            exists x: Version, stored :: x.round == round && Stores(sum, x, stored) && c == Laid(x, stored)
  {
    hide Stores, Laid;
    if WholePayload(sum, c) && U32(c, 4) == round {
      var x, stored := WholeIsStored(sum, c);
    }
    if x: Version, stored :| x.round == round && Stores(sum, x, stored) && c == Laid(x, stored) {
      StoredIsWhole(sum, x, stored);
    }
  }

  /** Under CRC-32 there is one way to store a version. */
  lemma WholeUnderCrc(c: seq<Byte>)
    ensures WholePayload(Crc.Matches, c) <==>
            exists x :: Fit(x) && c == Laid(x, Crc.Spelled(Crc.Crc32(Front(x) + Back(x))))
  {
    hide Laid, Front, Back;
    if WholePayload(Crc.Matches, c) {
      var x, stored := WholeIsStored(Crc.Matches, c);
      OneChecksum(Front(x) + Back(x), stored);
    }
    if x :| Fit(x) && c == Laid(x, Crc.Spelled(Crc.Crc32(Front(x) + Back(x)))) {
      Crc.SpelledMatches(Front(x) + Back(x));
      StoredIsWhole(Crc.Matches, x, Crc.Spelled(Crc.Crc32(Front(x) + Back(x))));
    }
  }

  lemma OneChecksum(m: seq<Byte>, stored: seq<Byte>)
    requires Crc.Matches(m, stored)
    ensures stored == Crc.Spelled(Crc.Crc32(m))
  {
    hide Crc.Crc32, Crc.Spelled, Crc.Word32;
    Crc.SpelledMatches(m);
    Crc.WordInjective(stored, Crc.Spelled(Crc.Crc32(m)));
  }

  /** The first four bytes of every version. */
  const FIRST: seq<Byte> := [0x50, 0x43, 0x46, 0x52]

  lemma FirstAre(c: seq<Byte>)
    ensures LooksLikePayload(c) <==> FIRST <= c
  {
    if |c| >= 4 {
      PackUnpack(c[0..4]);
      assert PackLE(PAYLOAD_MAGIC, SHORT) == FIRST;
      UnpackPack(PAYLOAD_MAGIC, SHORT);
      Widths();
      hide PackLE, LE;
      assert FIRST <= c <==> c[0..4] == FIRST;
    }
  }

  /** What is said of a file that can be read: nothing of one that does not begin like a version, or is one. */
  lemma InspectExactly(sum: Sum, target: nat, c: seq<Byte>)
    ensures var f := Inspect(sum, target, Ok(c));
            && f.target == Some(target)
            && (f.problems == [NotWhole] || f.problems == [])
            && (f.problems == [] <==>
                !(FIRST <= c) || exists x, stored :: Stores(sum, x, stored) && c == Laid(x, stored))
            && forall round :: f.round == Some(round) <==>
                 exists x: Version, stored :: x.round == round && Stores(sum, x, stored) && c == Laid(x, stored)
  {
    FirstAre(c);
    hide FIRST, Stores, Laid, WholePayload, LE;
    if WholePayload(sum, c) { var x, stored := WholeIsStored(sum, c); }
    forall x, stored | Stores(sum, x, stored) && c == Laid(x, stored)
      ensures WholePayload(sum, c) && LooksLikePayload(c) && |c| >= 24 && U32(c, 4) == x.round
    {
      StoredIsWhole(sum, x, stored);
    }
    WholeLooks(sum, c);
  }

  lemma WholeLooks(sum: Sum, c: seq<Byte>)
    ensures WholePayload(sum, c) ==> LooksLikePayload(c)
  {
  }

  // --- Altered, cut, lengthened, mixed ---

  /** A message has no more than one checksum. */
  ghost predicate Single(sum: Sum)
  {
    forall m, s, t {:trigger sum(m, s), sum(m, t)} :: |s| == |t| && sum(m, s) && sum(m, t) ==> s == t
  }

  lemma CrcSingle()
    ensures Single(Crc.Matches)
  {
    hide Crc.Matches, Crc.Spelled, Crc.Crc32;
    forall m, s, t | |s| == |t| && Crc.Matches(m, s) && Crc.Matches(m, t) ensures s == t {
      OneChecksum(m, s);
      OneChecksum(m, t);
    }
  }

  function Covered(c: seq<Byte>): seq<Byte>
    requires |c| >= 16
  {
    c[..12] + c[16..]
  }

  lemma CoveredAltered(sum: Sum, c: seq<Byte>, k: nat, y: Byte)
    requires Notices(sum) && WholePayload(sum, c) && k < |c| && y != c[k] && !(12 <= k < 16)
    ensures !sum(Covered(c[k := y]), c[12..16])
  {
    var at := if k < 12 then k else k - 4;
    var m := Covered(c);
    assert m[at] == c[k];
    assert Covered(c[k := y]) == Patch(m, at, [y]);
    assert m[at..at + 1][0] == c[k];
    assert Alters(m, at, [y]);
  }

  /** No byte of a whole version can be altered: neither what the checksum covers nor the checksum. */
  lemma AlteredNotWhole(sum: Sum, c: seq<Byte>, k: nat, y: Byte)
    requires Notices(sum) && WholePayload(sum, c) && k < |c| && y != c[k]
    requires 12 <= k < 16 ==> Single(sum)
    ensures !WholePayload(sum, c[k := y])
  {
    hide LE;
    if 12 <= k < 16 {
      assert Covered(c[k := y]) == Covered(c);
      assert c[k := y][12..16][k - 12] == y;
      assert c[12..16][k - 12] == c[k];
    } else {
      CoveredAltered(sum, c, k, y);
      assert c[k := y][12..16] == c[12..16];
    }
  }

  /** An altered version still looks like one exactly when its magic is left alone. */
  lemma AlteredLooks(c: seq<Byte>, k: nat, y: Byte)
    requires LooksLikePayload(c) && k < |c| && y != c[k]
    ensures LooksLikePayload(c[k := y]) <==> k >= 4
  {
    var d := c[k := y];
    if k >= 4 {
      assert d[0..4] == c[0..4];
    } else {
      PackUnpack(c[0..4]);
      PackUnpack(d[0..4]);
      assert d[0..4][k] == y && c[0..4][k] == c[k];
    }
  }

  /** So the check reports the file, once any byte of it is altered, exactly when it still sees the magic. */
  lemma AlteredReported(sum: Sum, target: nat, c: seq<Byte>, k: nat, y: Byte)
    requires Notices(sum) && WholePayload(sum, c) && k < |c| && y != c[k]
    requires 12 <= k < 16 ==> Single(sum)
    ensures Inspect(sum, target, Ok(c[k := y])) == Found(Some(target), None, if k >= 4 then [NotWhole] else [])
  {
    hide LE;
    AlteredLooks(c, k, y);
    AlteredNotWhole(sum, c, k, y);
  }

  /** Nothing shorter or longer that begins in the same twelve bytes is whole. */
  lemma LengthTold(sum: Sum, c: seq<Byte>, d: seq<Byte>)
    requires WholePayload(sum, c) && WholePayload(sum, d) && c[..12] == d[..12]
    ensures |c| == |d|
  {
    assert c[8..12] == c[..12][8..12] == d[..12][8..12] == d[8..12];
    hide LE;
  }

  /**
   The head of one version and the tail of another of a different round: whole only where the cut leaves
   one of the two as it was. No checksum is needed to see it.
   */
  lemma MixedExactly(sum: Sum, c: seq<Byte>, d: seq<Byte>, cut: nat)
    requires WholePayload(sum, c) && WholePayload(sum, d) && |c| == |d| && U32(c, 4) != U32(d, 4) && cut <= |c|
    ensures var mixed := c[..cut] + d[cut..];
            WholePayload(sum, mixed) <==> mixed == c || mixed == d
  {
    hide LE;
    var mixed := c[..cut] + d[cut..];
    var n := |c|;
    if WholePayload(sum, mixed) {
      if cut <= 8 {
        assert mixed[16..20] == d[16..20];
        SameWord(mixed, d, 4, 4);
        PackUnpack(c[0..4]);
        PackUnpack(d[0..4]);
        assert c[0..4] == d[0..4];
        MixedFront(c, d, cut);
      } else if cut >= n - 4 {
        assert mixed[4..8] == c[4..8];
        SameWord(mixed, c, n - 4, n - 4);
        MixedBack(c, d, cut);
      } else {
        MixedMiddle(c, d, cut);
      }
    }
  }

  lemma MixedMiddle(c: seq<Byte>, d: seq<Byte>, cut: nat)
    requires |c| == |d| >= 24 && 8 <= cut <= |c| - 4
    ensures var mixed := c[..cut] + d[cut..];
            mixed[4..8] == c[4..8] && mixed[|c| - 4..|c|] == d[|c| - 4..|c|]
  {
  }

  lemma SameWord(s: seq<Byte>, t: seq<Byte>, i: nat, j: nat)
    requires i + 4 <= |s| && j + 4 <= |t| && U32(s, i) == U32(t, j)
    ensures s[i..i + 4] == t[j..j + 4]
  {
    hide LE, PackLE;
    PackUnpack(s[i..i + 4]);
    PackUnpack(t[j..j + 4]);
  }

  lemma MixedFront(c: seq<Byte>, d: seq<Byte>, cut: nat)
    requires |c| == |d| >= 24 && cut <= 8 && c[0..4] == d[0..4]
    requires (c[..cut] + d[cut..])[4..8] == d[4..8]
    ensures c[..cut] + d[cut..] == d
  {
    var mixed := c[..cut] + d[cut..];
    forall i | 0 <= i < |d| ensures mixed[i] == d[i] {
      if i < 4 {
        assert c[0..4][i] == d[0..4][i];
      } else if i < 8 {
        assert mixed[4..8][i - 4] == d[4..8][i - 4];
      }
    }
  }

  lemma MixedBack(c: seq<Byte>, d: seq<Byte>, cut: nat)
    requires |c| == |d| >= 24 && |c| - 4 <= cut <= |c|
    requires (c[..cut] + d[cut..])[|c| - 4..|c|] == c[|c| - 4..|c|]
    ensures c[..cut] + d[cut..] == c
  {
    var mixed := c[..cut] + d[cut..];
    var n := |c|;
    forall i | 0 <= i < n ensures mixed[i] == c[i] {
      if i >= n - 4 { assert mixed[n - 4..n][i - (n - 4)] == c[n - 4..n][i - (n - 4)]; }
    }
  }

  // --- The workload's own versions ---

  const PAYLOAD_BYTES: nat := 9001

  /** One byte of the filler, in 32-bit arithmetic cut to a byte. */
  function FillerByte(round: nat, i: nat): Byte
  {
    (round * 31 + i * 7 + 1) % SHORT_LIMIT % 256
  }

  /** The version of a round: numbers that depend on the round and the place, as many as are left. */
  function Workload(round: nat): Version
  {
    Version(round, seq(PAYLOAD_BYTES - 24, i requires 0 <= i < PAYLOAD_BYTES - 24 => FillerByte(round, i + 20)))
  }

  function Over(s: seq<Byte>, at: nat, piece: seq<Byte>): (r: seq<Byte>)
    requires at + |piece| <= |s|
    ensures |r| == |s|
  {
    s[..at] + piece + s[at + |piece|..]
  }

  /** memcpy into a buffer. */
  method Store(buf: array<Byte>, at: nat, piece: seq<Byte>)
    requires at + |piece| <= buf.Length
    modifies buf
    ensures buf[..] == Over(old(buf[..]), at, piece)
  {
    for i := 0 to |piece|
      invariant forall k {:trigger buf[k]} :: 0 <= k < buf.Length ==>
                  buf[k] == if at <= k < at + i then piece[k - at] else old(buf[k])
    {
      buf[at + i] := piece[i];
    }
  }

  lemma NumbersIn(s: seq<Byte>, a: seq<Byte>, b: seq<Byte>, d: seq<Byte>, n: nat)
    requires |s| == n >= 24 && |a| == |b| == |d| == 4
    ensures var t := Over(Over(Over(Over(Over(s, 0, a), 4, b), 8, d), 16, b), n - 4, b);
            t[..12] == a + b + d && t[16..] == b + s[20..n - 4] + b
  {
    var s1 := Over(Over(Over(s, 0, a), 4, b), 8, d);
    assert s1 == a + b + d + s[12..] by {
      assert Over(s, 0, a) == a + s[4..];
      assert Over(a + s[4..], 4, b) == a + b + s[8..];
    }
    hide Over;
    Ends(s1, a + b + d, s[12..], b, n);
  }

  lemma Ends(t: seq<Byte>, front: seq<Byte>, rest: seq<Byte>, b: seq<Byte>, n: nat)
    requires t == front + rest && |front| == 12 && |t| == n >= 24 && |b| == 4
    ensures var u := Over(Over(t, 16, b), n - 4, b);
            u[..12] == front && u[16..] == b + rest[8..n - 16] + b
  {
    assert Over(t, 16, b) == front + rest[..4] + b + rest[8..];
    assert Over(front + rest[..4] + b + rest[8..], n - 4, b) == front + rest[..4] + b + rest[8..n - 16] + b;
  }

  lemma Closed(t: seq<Byte>, stored: seq<Byte>)
    requires |t| >= 24 && |stored| == 4
    ensures Over(t, 12, stored) == t[..12] + stored + t[16..]
  {
  }

  /** fill_payload(): the buffer holds the version of that round, with its checksum. */
  method FillPayload(buf: array<Byte>, round: nat) returns (crc: bv32)
    requires buf.Length == PAYLOAD_BYTES && round < SHORT_LIMIT
    modifies buf
    ensures var x := Workload(round);
            crc == Crc.Crc32(Front(x) + Back(x)) && buf[..] == Laid(x, Crc.Spelled(crc))
  {
    hide PackLE, Crc.Crc32, Crc.Spelled, FillerByte;
    ghost var x := Workload(round);
    for i := 0 to PAYLOAD_BYTES
      invariant forall k :: 0 <= k < i ==> buf[k] == 0
    {
      buf[i] := 0;
    }
    for i := 20 to PAYLOAD_BYTES - 4
      invariant forall k :: 20 <= k < i ==> buf[k] == FillerByte(round, k)
    {
      buf[i] := FillerByte(round, i);
    }
    ghost var s := buf[..];
    assert s[20..PAYLOAD_BYTES - 4] == x.filler;
    Store(buf, 0, PackLE(PAYLOAD_MAGIC, SHORT));
    Store(buf, 4, PackLE(round, SHORT));
    Store(buf, 8, PackLE(PAYLOAD_BYTES, SHORT));
    Store(buf, 16, PackLE(round, SHORT));
    Store(buf, PAYLOAD_BYTES - 4, PackLE(round, SHORT));
    NumbersIn(s, PackLE(PAYLOAD_MAGIC, SHORT), PackLE(round, SHORT), PackLE(PAYLOAD_BYTES, SHORT), PAYLOAD_BYTES);
    assert buf[..12] == buf[..][..12] == Front(x) && buf[16..] == buf[..][16..] == Back(x);
    crc := Crc.Crc32Reflected(buf[..12] + buf[16..]);
    Closed(buf[..], Crc.Spelled(crc));
    Store(buf, 12, Crc.Spelled(crc));
    assert buf[..] == Front(x) + Crc.Spelled(crc) + Back(x);
  }

  /** What the workload stores is whole and of its round. */
  lemma WorkloadIsWhole(round: nat)
    requires round < SHORT_LIMIT
    ensures var x := Workload(round);
            var c := Laid(x, Crc.Spelled(Crc.Crc32(Front(x) + Back(x))));
            WholePayload(Crc.Matches, c) && LooksLikePayload(c) && U32(c, 4) == round && |c| == PAYLOAD_BYTES
  {
    hide Crc.Matches, Crc.Spelled, Crc.Crc32, FillerByte, Front, Back, Laid;
    var x := Workload(round);
    Crc.SpelledMatches(Front(x) + Back(x));
    StoredIsWhole(Crc.Matches, x, Crc.Spelled(Crc.Crc32(Front(x) + Back(x))));
  }
}

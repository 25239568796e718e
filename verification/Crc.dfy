/**
 The reflected CRC-32 that every ReconFS superblock and inode carries, and the
 error-detection facts the checker relies on: no single changed byte, and no
 change confined to four bytes in a row, leaves the checksum as it was.
 */
module Crc {
  import opened Bytes

  const ONES: bv32 := 0xFFFF_FFFF

  function Shift(c: bv32): bv32
  {
    (c >> 1) ^ (if c & 1 == 1 then 0xEDB88320 else 0)
  }

  function Iterate<S>(g: S -> S, s: S, n: nat): S
    decreases n
  {
    if n == 0 then s else Iterate(g, g(s), n - 1)
  }

  const BITS: nat := 8

  /** Eight shifts, one for each bit of a byte. */
  function Turn(c: bv32): bv32
  {
    Iterate(Shift, c, BITS)
  }

  function Xor(a: bv32, b: bv32): bv32 { a ^ b }

  /** The bits of a number below 256, counting up from zero. */
  function Bits(n: nat): bv8
  {
    if n == 0 then 0 else Bits(n - 1) + 1
  }

  function Wide(b: Byte): bv32 { Bits(b) as bv32 }

  lemma Increment(w: bv8)
    requires w != 255
    ensures (w + 1) as int == w as int + 1
  {
  }

  lemma {:induction false} BitsValue(n: nat)
    requires n < 256
    ensures Bits(n) as int == n
  {
    if n > 0 {
      BitsValue(n - 1);
      assert Bits(n - 1) as int != 255;
      Increment(Bits(n - 1));
    }
  }

  /** One byte: mixed into the low bits of the register, which is then turned. */
  function Absorb(c: bv32, b: Byte): bv32
  {
    Turn(Xor(c, Wide(b)))
  }

  function Fold<S>(f: (S, Byte) -> S, c: S, data: seq<Byte>): S
    decreases |data|
  {
    if data == [] then c else Fold(f, f(c, data[0]), data[1..])
  }

  function Crc32(data: seq<Byte>): bv32
  {
    Xor(Fold(Absorb, ONES, data), ONES)
  }

  /** The four stored bytes of a checksum, as the register value they spell. */
  function Word32(s: seq<Byte>): bv32
    requires |s| == 4
  {
    Above(s[0], Above(s[1], Above(s[2], Wide(s[3]))))
  }

  /** Eight bits, with r in the bits above them. */
  function Put(p: bv8, r: bv32): bv32 { (p as bv32) | (r << 8) }

  /** Byte a, with r in the bits above it. */
  function Above(a: Byte, r: bv32): bv32 { Put(Bits(a), r) }

  /** The nested loops of the source compute Crc32. */
  method Crc32Reflected(data: seq<Byte>) returns (r: bv32)
    ensures r == Crc32(data)
  {
    var crc := ONES;
    for i := 0 to |data|
      invariant Fold(Absorb, crc, data[i..]) == Fold(Absorb, ONES, data)
    {
      var mixed := Xor(crc, Wide(data[i]));
      crc := TurnOnce(mixed, Shift);
      assert data[i..][1..] == data[i + 1..];
    }
    r := Xor(crc, ONES);
  }

  method TurnOnce<S>(mixed: S, g: S -> S) returns (crc: S)
    ensures crc == Iterate(g, mixed, BITS)
  {
    crc := mixed;
    for k := 0 to BITS
      invariant Iterate(g, crc, BITS - k) == Iterate(g, mixed, BITS)
    {
      crc := g(crc);
    }
  }

  // --- Facts about folding any step over a message ---

  ghost predicate StateInjective<S(!new)>(f: (S, Byte) -> S)
  {
    forall a, b, x :: f(a, x) == f(b, x) ==> a == b
  }

  ghost predicate ByteInjective<S(!new)>(f: (S, Byte) -> S)
  {
    forall a, x, y :: f(a, x) == f(a, y) ==> x == y
  }

  lemma StateBack<S(!new)>(f: (S, Byte) -> S, a: S, b: S, x: Byte)
    requires StateInjective(f) && f(a, x) == f(b, x)
    ensures a == b
  {
  }

  lemma {:induction false} FoldInjective<S(!new)>(f: (S, Byte) -> S, a: S, b: S, data: seq<Byte>)
    requires StateInjective(f) && Fold(f, a, data) == Fold(f, b, data)
    ensures a == b
    decreases |data|
  {
    if data != [] {
      FoldInjective(f, f(a, data[0]), f(b, data[0]), data[1..]);
      StateBack(f, a, b, data[0]);
    }
  }

  lemma {:induction false} FoldAppend<S>(f: (S, Byte) -> S, c: S, s: seq<Byte>, t: seq<Byte>)
    ensures Fold(f, c, s + t) == Fold(f, Fold(f, c, s), t)
    decreases |s|
  {
    if s == [] {
      assert s + t == t;
    } else {
      assert (s + t)[1..] == s[1..] + t;
      FoldAppend(f, f(c, s[0]), s[1..], t);
    }
  }

  lemma FoldCons<S>(f: (S, Byte) -> S, c: S, x: Byte, tail: seq<Byte>)
    ensures Fold(f, c, [x] + tail) == Fold(f, f(c, x), tail)
  {
    assert ([x] + tail)[1..] == tail;
  }

  /** Replacing the middle of a message changes the fold exactly when it changes the fold of the middle. */
  lemma FoldMiddle<S(!new)>(f: (S, Byte) -> S, c: S, head: seq<Byte>, v: seq<Byte>, w: seq<Byte>, tail: seq<Byte>)
    requires StateInjective(f)
    requires Fold(f, c, head + (v + tail)) == Fold(f, c, head + (w + tail))
    ensures Fold(f, Fold(f, c, head), v) == Fold(f, Fold(f, c, head), w)
  {
    var m := Fold(f, c, head);
    FoldAppend(f, c, head, v + tail);
    FoldAppend(f, c, head, w + tail);
    FoldAppend(f, m, v, tail);
    FoldAppend(f, m, w, tail);
    FoldInjective(f, Fold(f, m, v), Fold(f, m, w), tail);
  }

  lemma FoldSingle<S(!new)>(f: (S, Byte) -> S, c: S, x: Byte, y: Byte)
    requires ByteInjective(f) && Fold(f, c, [x]) == Fold(f, c, [y])
    ensures x == y
  {
    FoldCons(f, c, x, []);
    FoldCons(f, c, y, []);
    assert [x] + [] == [x] && [y] + [] == [y];
  }

  // --- The CRC step loses nothing ---

  ghost predicate Injective<S(!new)>(g: S -> S)
  {
    forall x, y :: g(x) == g(y) ==> x == y
  }

  lemma ShiftInjective(a: bv32, b: bv32)
    requires Shift(a) == Shift(b)
    ensures a == b
  {
  }

  lemma {:induction false} IterateInjective<S(!new)>(g: S -> S, a: S, b: S, n: nat)
    requires Injective(g) && Iterate(g, a, n) == Iterate(g, b, n)
    ensures a == b
    decreases n
  {
    if n > 0 {
      IterateInjective(g, g(a), g(b), n - 1);
      assert g(a) == g(b);
    }
  }

  lemma TurnInjective()
    ensures Injective(Turn)
  {
    assert Injective(Shift) by {
      forall x, y | Shift(x) == Shift(y) ensures x == y { ShiftInjective(x, y); }
    }
    forall x, y | Turn(x) == Turn(y) ensures x == y { IterateInjective(Shift, x, y, BITS); }
  }

  lemma XorCancels(a: bv32, b: bv32, x: bv32)
    requires Xor(a, x) == Xor(b, x) || Xor(x, a) == Xor(x, b)
    ensures a == b
  {
  }

  lemma WideInjective(x: Byte, y: Byte)
    requires Wide(x) == Wide(y)
    ensures x == y
  {
    SameByte(Bits(x), Bits(y));
    BitsInjective(x, y);
  }

  lemma SameByte(x: bv8, y: bv8)
    requires x as bv32 == y as bv32
    ensures x == y
  {
  }

  /** The per-byte step is injective in the state, and in the byte. */
  lemma AbsorbInjective()
    ensures StateInjective(Absorb) && ByteInjective(Absorb)
  {
    TurnInjective();
    forall a, b, x: Byte | Absorb(a, x) == Absorb(b, x) ensures a == b {
      TurnBack(Turn, Xor(a, Wide(x)), Xor(b, Wide(x)));
      XorCancels(a, b, Wide(x));
    }
    forall a, x: Byte, y: Byte | Absorb(a, x) == Absorb(a, y) ensures x == y {
      TurnBack(Turn, Xor(a, Wide(x)), Xor(a, Wide(y)));
      XorCancels(Wide(x), Wide(y), a);
      WideInjective(x, y);
    }
  }

  lemma TurnBack<S(!new)>(g: S -> S, x: S, y: S)
    requires Injective(g) && g(x) == g(y)
    ensures x == y
  {
  }

  /** Two equal-length messages that differ in exactly one byte have different checksums. */
  lemma CrcSingleByte(m: seq<Byte>, k: nat, y: Byte)
    requires k < |m| && y != m[k]
    ensures Crc32(m[k := y]) != Crc32(m)
  {
    AbsorbInjective();
    if Crc32(m[k := y]) == Crc32(m) {
      XorCancels(Fold(Absorb, ONES, m[k := y]), Fold(Absorb, ONES, m), ONES);
      SingleByte(Absorb, ONES, m, k, y);
    }
  }

  lemma SingleByte<S(!new)>(f: (S, Byte) -> S, c: S, m: seq<Byte>, k: nat, y: Byte)
    requires StateInjective(f) && ByteInjective(f)
    requires k < |m| && Fold(f, c, m[k := y]) == Fold(f, c, m)
    ensures y == m[k]
  {
    var head, tail := m[..k], m[k + 1..];
    assert m == head + ([m[k]] + tail);
    assert m[k := y] == head + ([y] + tail);
    FoldMiddle(f, c, head, [y], [m[k]], tail);
    FoldSingle(f, Fold(f, c, head), y, m[k]);
  }

  // --- Bursts of up to four bytes ---

  /** Mixing in a value whose low n bits are clear, before n shifts or after them. */
  lemma {:induction false} IterateLinear<S(!new)>(g: S -> S, xor: (S, S) -> S, down: S -> S, clear: S -> bool,
                                                  s: S, t: S, n: nat)
    requires forall p, q :: clear(q) ==> g(xor(p, q)) == xor(g(p), down(q))
    requires forall i :: 0 <= i < n ==> clear(Iterate(down, t, i))
    ensures Iterate(g, xor(s, t), n) == xor(Iterate(g, s, n), Iterate(down, t, n))
    decreases n
  {
    if n > 0 {
      assert clear(Iterate(down, t, 0));
      forall i | 0 <= i < n - 1 ensures clear(Iterate(down, down(t), i)) {
        assert clear(Iterate(down, t, i + 1));
      }
      IterateLinear(g, xor, down, clear, g(s), down(t), n - 1);
    }
  }

  function Down(t: bv32): bv32 { t >> 1 }

  predicate LowClear(t: bv32) { t & 1 == 0 }

  /** A bit that is not about to fall off the register just moves down. */
  lemma ShiftLinear(p: bv32, q: bv32)
    requires LowClear(q)
    ensures Shift(Xor(p, q)) == Xor(Shift(p), Down(q))
  {
    hide Shift;
    ShiftBits(p, q);
  }

  lemma ShiftBits(p: bv32, q: bv32)
    requires q & 1 == 0
    ensures Shift(p ^ q) == Shift(p) ^ (q >> 1)
  {
    hide Shift;
    LowBit(p, q);
    if p & 1 == 1 {
      ShiftOdd(p);
      ShiftOdd(p ^ q);
      OddBits(p, q);
    } else {
      ShiftEven(p);
      ShiftEven(p ^ q);
      EvenBits(p, q);
    }
  }

  lemma LowBit(p: bv32, q: bv32)
    requires q & 1 == 0
    ensures (p ^ q) & 1 == p & 1
  {
  }

  lemma ShiftOdd(c: bv32)
    requires c & 1 == 1
    ensures Shift(c) == (c >> 1) ^ 0xEDB88320
  {
  }

  lemma ShiftEven(c: bv32)
    requires c & 1 != 1
    ensures Shift(c) == c >> 1
  {
  }

  lemma OddBits(p: bv32, q: bv32)
    ensures ((p ^ q) >> 1) ^ 0xEDB88320 == ((p >> 1) ^ 0xEDB88320) ^ (q >> 1)
  {
  }

  lemma EvenBits(p: bv32, q: bv32)
    ensures (p ^ q) >> 1 == (p >> 1) ^ (q >> 1)
  {
  }

  lemma {:induction false} DownBy(t: bv32, n: nat, k: bv32)
    requires k as int == n && n <= 8
    ensures Iterate(Down, t, n) == t >> k
    decreases n
  {
    if n > 0 {
      DownBy(Down(t), n - 1, k - 1);
      DownOnce(t, k);
    }
  }

  lemma DownOnce(t: bv32, k: bv32)
    requires 1 <= k <= 8
    ensures (t >> 1) >> (k - 1) == t >> k
  {
  }

  lemma ClearBelow(r: bv32, k: bv32)
    requires k < 8
    ensures LowClear((r << 8) >> k)
  {
  }

  lemma UpDown(r: bv32)
    requires r <= 0xFF_FFFF
    ensures (r << 8) >> 8 == r
  {
  }

  lemma AboveSplits(c: bv32, a: Byte, r: bv32)
    ensures Xor(c, Above(a, r)) == Xor(Xor(c, Wide(a)), r << 8)
  {
    PutSplits(c, Bits(a), r);
  }

  lemma PutSplits(c: bv32, p: bv8, r: bv32)
    ensures c ^ Put(p, r) == (c ^ (p as bv32)) ^ (r << 8)
  {
    ByteBelow(p, r);
    DisjointBits(c, p as bv32, r << 8);
  }

  lemma ByteBelow(a: bv8, r: bv32)
    ensures (a as bv32) & (r << 8) == 0
  {
  }

  lemma DisjointBits(c: bv32, a: bv32, t: bv32)
    requires a & t == 0
    ensures c ^ (a | t) == (c ^ a) ^ t
  {
  }

  /** What the bytes above contribute can be mixed in one whole turn late. */
  lemma TurnAbove(c: bv32, a: Byte, r: bv32)
    requires r <= 0xFF_FFFF
    ensures Turn(Xor(c, Above(a, r))) == Xor(Turn(Xor(c, Wide(a))), r)
  {
    forall p, q | LowClear(q) ensures Shift(Xor(p, q)) == Xor(Shift(p), Down(q)) { ShiftLinear(p, q); }
    ClearRun(r, r << 8);
    IterateLinear(Shift, Xor, Down, LowClear, Xor(c, Wide(a)), r << 8, BITS);
    AboveSplits(c, a, r);
  }

  lemma ClearRun(r: bv32, t: bv32)
    requires r <= 0xFF_FFFF && t == r << 8
    ensures forall i :: 0 <= i < BITS ==> LowClear(Iterate(Down, t, i))
    ensures Iterate(Down, t, BITS) == r
  {
    forall i | 0 <= i < BITS ensures LowClear(Iterate(Down, t, i)) {
      DownBy(t, i, i as bv32);
      ClearBelow(r, i as bv32);
    }
    DownBy(t, BITS, 8);
    UpDown(r);
  }

  lemma PutFits(p: bv8, r: bv32)
    ensures (p as bv32) <= 0xFF
    ensures r <= 0xFF ==> Put(p, r) <= 0xFFFF
    ensures r <= 0xFFFF ==> Put(p, r) <= 0xFF_FFFF
  {
  }

  lemma AboveFits(s: seq<Byte>)
    requires |s| == 4
    ensures Wide(s[3]) <= 0xFF_FFFF && Above(s[2], Wide(s[3])) <= 0xFF_FFFF
    ensures Above(s[1], Above(s[2], Wide(s[3]))) <= 0xFF_FFFF
  {
    PutFits(Bits(s[3]), 0);
    PutFits(Bits(s[2]), Wide(s[3]));
    PutFits(Bits(s[1]), Above(s[2], Wide(s[3])));
  }

  /** Four bytes in a row amount to mixing in one whole register and turning it four times. */
  lemma AbsorbFour(c: bv32, w: seq<Byte>)
    requires |w| == 4
    ensures Fold(Absorb, c, w) == Turn(Turn(Turn(Turn(Xor(c, Word32(w))))))
  {
    var r3 := Wide(w[3]);
    var r2 := Above(w[2], r3);
    var r1 := Above(w[1], r2);
    AboveFits(w);
    var w0, w1, w2, w3 := w[0], w[1], w[2], w[3];
    MixesLater(w0, r1);
    MixesLater(w1, r2);
    MixesLater(w2, r3);
    assert w == [w0, w1, w2, w3];
    FoldFour(Absorb, Turn, Xor, Wide, c, w0, w1, w2, w3, Word32(w), r1, r2);
  }

  /** A value, and the byte below and the rest above that can be mixed in separately. */
  ghost predicate Separates<S(!new)>(turn: S -> S, xor: (S, S) -> S, all: S, low: S, rest: S)
  {
    forall s :: turn(xor(s, all)) == xor(turn(xor(s, low)), rest)
  }

  lemma MixesLater(a: Byte, r: bv32)
    requires r <= 0xFF_FFFF
    ensures Separates(Turn, Xor, Above(a, r), Wide(a), r)
  {
    forall s ensures Turn(Xor(s, Above(a, r))) == Xor(Turn(Xor(s, Wide(a))), r) { TurnAbove(s, a, r); }
  }

  lemma FoldList<S>(f: (S, Byte) -> S, c: S, w0: Byte, w1: Byte, w2: Byte, w3: Byte)
    ensures Fold(f, c, [w0, w1, w2, w3]) == f(f(f(f(c, w0), w1), w2), w3)
  {
    var c1 := f(c, w0);
    var c2 := f(c1, w1);
    assert [w0, w1, w2, w3] == [w0] + [w1, w2, w3];
    FoldCons(f, c, w0, [w1, w2, w3]);
    assert [w1, w2, w3] == [w1] + [w2, w3];
    FoldCons(f, c1, w1, [w2, w3]);
    assert [w2, w3] == [w2] + [w3];
    FoldCons(f, c2, w2, [w3]);
    assert [w3] == [w3] + [];
    FoldCons(f, f(c2, w2), w3, []);
  }

  lemma FoldFour<S(!new)>(f: (S, Byte) -> S, turn: S -> S, xor: (S, S) -> S, wide: Byte -> S, c: S,
                          w0: Byte, w1: Byte, w2: Byte, w3: Byte, all: S, r1: S, r2: S)
    requires forall s, b :: f(s, b) == turn(xor(s, wide(b)))
    requires Separates(turn, xor, all, wide(w0), r1) && Separates(turn, xor, r1, wide(w1), r2)
    requires Separates(turn, xor, r2, wide(w2), wide(w3))
    ensures Fold(f, c, [w0, w1, w2, w3]) == turn(turn(turn(turn(xor(c, all)))))
  {
    var c1 := f(c, w0);
    var c2 := f(c1, w1);
    var c3 := f(c2, w2);
    FoldList(f, c, w0, w1, w2, w3);
    assert turn(xor(c, all)) == xor(c1, r1);
    assert turn(xor(c1, r1)) == xor(c2, r2);
    assert turn(xor(c2, r2)) == xor(c3, wide(w3));
  }

  lemma BitsInjective(a: Byte, b: Byte)
    requires Bits(a) == Bits(b)
    ensures a == b
  {
    BitsValue(a);
    BitsValue(b);
  }

  lemma PutApart(p: bv8, q: bv8, r: bv32, s: bv32)
    requires r <= 0xFF_FFFF && s <= 0xFF_FFFF && Put(p, r) == Put(q, s)
    ensures p == q && r == s
  {
  }

  lemma AboveInjective(a: Byte, b: Byte, r: bv32, s: bv32)
    requires r <= 0xFF_FFFF && s <= 0xFF_FFFF && Above(a, r) == Above(b, s)
    ensures a == b && r == s
  {
    PutApart(Bits(a), Bits(b), r, s);
    BitsInjective(a, b);
  }

  lemma WordInjective(v: seq<Byte>, w: seq<Byte>)
    requires |v| == |w| == 4 && Word32(v) == Word32(w)
    ensures v == w
  {
    AboveFits(v);
    AboveFits(w);
    AboveInjective(v[0], w[0], Above(v[1], Above(v[2], Wide(v[3]))), Above(w[1], Above(w[2], Wide(w[3]))));
    AboveInjective(v[1], w[1], Above(v[2], Wide(v[3])), Above(w[2], Wide(w[3])));
    AboveInjective(v[2], w[2], Wide(v[3]), Wide(w[3]));
    WideInjective(v[3], w[3]);
  }

  /** Messages that differ only inside one run of four bytes have different checksums. */
  lemma CrcBurst(m: seq<Byte>, at: nat, w: seq<Byte>)
    requires |w| == 4 && at + 4 <= |m| && w != m[at..at + 4]
    ensures Crc32(Patch(m, at, w)) != Crc32(m)
  {
    var head, was, tail := m[..at], m[at..at + 4], m[at + 4..];
    assert m == head + (was + tail);
    assert Patch(m, at, w) == head + (w + tail);
    if Crc32(Patch(m, at, w)) == Crc32(m) {
      XorCancels(Fold(Absorb, ONES, Patch(m, at, w)), Fold(Absorb, ONES, m), ONES);
      AbsorbInjective();
      FoldMiddle(Absorb, ONES, head, w, was, tail);
      SameFour(Fold(Absorb, ONES, head), w, was);
    }
  }

  lemma SameFour(c: bv32, v: seq<Byte>, w: seq<Byte>)
    requires |v| == |w| == 4 && Fold(Absorb, c, v) == Fold(Absorb, c, w)
    ensures v == w
  {
    AbsorbFour(c, v);
    AbsorbFour(c, w);
    TurnInjective();
    FourTurns(Turn, Xor(c, Word32(v)), Xor(c, Word32(w)));
    XorCancels(Word32(v), Word32(w), c);
    WordInjective(v, w);
  }

  lemma FourTurns<S(!new)>(g: S -> S, x: S, y: S)
    requires Injective(g) && g(g(g(g(x)))) == g(g(g(g(y))))
    ensures x == y
  {
    TurnBack(g, g(g(g(x))), g(g(g(y))));
    TurnBack(g, g(g(x)), g(g(y)));
    TurnBack(g, g(x), g(y));
  }

  /** The checksum the format uses: four stored bytes spelling the CRC-32 of a body. */
  predicate Matches(body: seq<Byte>, stored: seq<Byte>)
  {
    |stored| == 4 && Crc32(body) == Word32(stored)
  }

  lemma MatchesBreaks(m: seq<Byte>, m': seq<Byte>, stored: seq<Byte>)
    requires Matches(m, stored) && Crc32(m') != Crc32(m)
    ensures !Matches(m', stored)
  {
  }

  /** CRC-32 notices every changed byte, and every change confined to four bytes in a row. */
  lemma CrcNotices(m: seq<Byte>, at: nat, piece: seq<Byte>)
    requires (|piece| == 1 || |piece| == 4) && at + |piece| <= |m| && m[at..at + |piece|] != piece
    ensures Crc32(Patch(m, at, piece)) != Crc32(m)
  {
    if |piece| == 4 {
      CrcBurst(m, at, piece);
    } else {
      PatchOne(m, at, piece);
      CrcSingleByte(m, at, piece[0]);
    }
  }

  lemma PatchOne(m: seq<Byte>, at: nat, piece: seq<Byte>)
    requires |piece| == 1 && at < |m| && m[at..at + 1] != piece
    ensures Patch(m, at, piece) == m[at := piece[0]] && piece[0] != m[at]
  {
    assert piece == [piece[0]] && m[at..at + 1] == [m[at]];
  }

  // --- Storing a checksum ---

  function Low(c: bv32): bv8 { (c & 0xFF) as bv8 }

  function Rest(c: bv32): bv32 { c >> 8 }

  function ByteOf(x: bv8): Byte
  {
    ByteBelow256(x);
    x as int
  }

  /** The four bytes that spell a register value. */
  function Spelled(c: bv32): (s: seq<Byte>)
    ensures |s| == 4
  {
    [ByteOf(Low(c)), ByteOf(Low(Rest(c))), ByteOf(Low(Rest(Rest(c)))), ByteOf(Low(Rest(Rest(Rest(c)))))]
  }

  lemma ByteBelow256(x: bv8)
    ensures 0 <= x as int < 256
  {
  }

  lemma BitsOfByte(x: bv8)
    ensures Bits(ByteOf(x)) == x
  {
    ByteBelow256(x);
    BitsValue(x as int);
  }

  lemma PutTogether(c: bv32)
    ensures Put(Low(c), Rest(c)) == c
  {
  }

  lemma LastByte(c: bv32)
    requires c <= 0xFF
    ensures Low(c) as bv32 == c
  {
  }

  lemma RestShrinks(c: bv32)
    ensures Rest(Rest(Rest(c))) <= 0xFF
  {
  }

  lemma SpelledWord(c: bv32)
    ensures Word32(Spelled(c)) == c
  {
    hide Low, Rest, Put, ByteOf, Bits;
    BitsOfByte(Low(c));
    BitsOfByte(Low(Rest(c)));
    BitsOfByte(Low(Rest(Rest(c))));
    BitsOfByte(Low(Rest(Rest(Rest(c)))));
    RestShrinks(c);
    LastByte(Rest(Rest(Rest(c))));
    PutTogether(Rest(Rest(c)));
    PutTogether(Rest(c));
    PutTogether(c);
  }

  /** Every message has a checksum that can be stored, and a message carries its own. */
  lemma SpelledMatches(m: seq<Byte>)
    ensures Matches(m, Spelled(Crc32(m)))
  {
    hide Crc32, Spelled, Word32;
    SpelledWord(Crc32(m));
  }

  // --- The check value ---

  lemma Eight(c: bv32)
    ensures Turn(c) == Shift(Shift(Shift(Shift(Shift(Shift(Shift(Shift(c))))))))
  {
    hide Shift;
    assert Iterate(Shift, c, 8) == Iterate(Shift, Shift(Shift(Shift(Shift(c)))), 4);
  }

  /** One byte absorbed, in numbers. */
  lemma Absorbed(c: bv32, b: Byte, w: bv8, r: bv32)
    requires ByteOf(w) == b && Shift(Shift(Shift(Shift(Shift(Shift(Shift(Shift(c ^ (w as bv32))))))))) == r
    ensures Absorb(c, b) == r
  {
    hide Shift, Turn, ByteOf;
    BitsOfByte(w);
    Eight(c ^ (w as bv32));
  }

  lemma FoldFirst<S>(f: (S, Byte) -> S, c: S, s: seq<Byte>)
    requires s != []
    ensures Fold(f, c, s) == Fold(f, f(c, s[0]), s[1..])
  {
  }

  /** The digits 1 to 9, as characters. */
  function Nine(): seq<Byte> { seq(9, i => 0x31 + i) }

  lemma {:induction false} FoldNine<S>(f: (S, Byte) -> S, g: nat -> S, k: nat)
    requires k <= 9 && forall i: nat :: i < 9 ==> g(i + 1) == f(g(i), 0x31 + i)
    ensures Fold(f, g(k), Nine()[k..]) == g(9)
    decreases 9 - k
  {
    if k < 9 {
      FoldNine(f, g, k + 1);
      FoldFirst(f, g(k), Nine()[k..]);
      assert Nine()[k..][0] == 0x31 + k && Nine()[k..][1..] == Nine()[k + 1..];
    } else {
      assert Nine()[9..] == [];
    }
  }

  /** The register before digit i, and after the last. */
  function Register(i: nat): bv32
  {
    if i == 0 then ONES
    else if i == 1 then 0x7C231048
    else if i == 2 then 0xB0ACBB32
    else if i == 3 then 0x77B79C2D
    else if i == 4 then 0x641C1F5C
    else if i == 5 then 0x340AC5E3
    else if i == 6 then 0xF68D2C9E
    else if i == 7 then 0xAFFC9660
    else if i == 8 then 0x651F2550
    else 0x340BC6D9
  }

  lemma DigitsAbsorbed(i: nat)
    requires i < 9
    ensures Register(i + 1) == Absorb(Register(i), 0x31 + i)
  {
    hide Absorb;
    Absorbed(ONES, 0x31, 0x31, 0x7C231048);
    Absorbed(0x7C231048, 0x32, 0x32, 0xB0ACBB32);
    Absorbed(0xB0ACBB32, 0x33, 0x33, 0x77B79C2D);
    Absorbed(0x77B79C2D, 0x34, 0x34, 0x641C1F5C);
    Absorbed(0x641C1F5C, 0x35, 0x35, 0x340AC5E3);
    Absorbed(0x340AC5E3, 0x36, 0x36, 0xF68D2C9E);
    Absorbed(0xF68D2C9E, 0x37, 0x37, 0xAFFC9660);
    Absorbed(0xAFFC9660, 0x38, 0x38, 0x651F2550);
    Absorbed(0x651F2550, 0x39, 0x39, 0x340BC6D9);
  }

  /** The value the specification is checked by: that of the nine characters 123456789. */
  lemma CheckValue()
    ensures Crc32(Nine()) == 0xCBF43926
  {
    hide Absorb, Fold;
    forall i: nat | i < 9 ensures Register(i + 1) == Absorb(Register(i), 0x31 + i) { DigitsAbsorbed(i); }
    FoldNine(Absorb, Register, 0);
    assert Nine()[0..] == Nine();
  }
}

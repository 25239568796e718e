/** Bytes and fixed-width integers, as Python's `struct` module packs and unpacks them. */
module Bytes {

  type Byte = b: int | 0 <= b < 256

  /** The failure a reader reports instead of a value: `Bad`, or any other exception. */
  datatype Result<+T> = Ok(value: T) | Bad {
    predicate IsFailure() { Bad? }
    function PropagateFailure<U>(): Result<U>
      requires Bad?
    {
      Bad
    }
    function Extract(): T
      requires Ok?
    {
      value
    }
  }

  datatype Option<+T> = None | Some(value: T)

  /** Little-endian unpacking. */
  function LE(s: seq<Byte>): nat
  {
    if s == [] then 0 else s[0] + 256 * LE(s[1..])
  }

  function U16(buf: seq<Byte>, at: nat): nat
    requires at + 2 <= |buf|
  {
    LE(buf[at..at + 2])
  }

  function U32(buf: seq<Byte>, at: nat): nat
    requires at + 4 <= |buf|
  {
    LE(buf[at..at + 4])
  }

  function U64(buf: seq<Byte>, at: nat): nat
    requires at + 8 <= |buf|
  {
    LE(buf[at..at + 8])
  }

  function Pow256(k: nat): (p: nat)
    ensures p > 0
  {
    if k == 0 then 1 else 256 * Pow256(k - 1)
  }

  /** Little-endian packing into k bytes. */
  function PackLE(n: nat, k: nat): (s: seq<Byte>)
    ensures |s| == k
    decreases k
  {
    if k == 0 then [] else [n % 256] + PackLE(n / 256, k - 1)
  }

  /** Big-endian is little-endian read from the other end. */
  function Reversed<T>(s: seq<T>): (r: seq<T>)
    ensures |r| == |s|
  {
    seq(|s|, i requires 0 <= i < |s| => s[|s| - 1 - i])
  }

  function BE(s: seq<Byte>): nat { LE(Reversed(s)) }

  function PackBE(n: nat, k: nat): (s: seq<Byte>)
    ensures |s| == k
  {
    Reversed(PackLE(n, k))
  }

  lemma {:induction false} UnpackPack(n: nat, k: nat)
    requires n < Pow256(k)
    ensures LE(PackLE(n, k)) == n
    decreases k
  {
    if k > 0 {
      UnpackPack(n / 256, k - 1);
      assert PackLE(n, k)[1..] == PackLE(n / 256, k - 1);
    }
  }

  lemma FirstAndRest(a: Byte, n: nat)
    ensures (a + 256 * n) % 256 == a && (a + 256 * n) / 256 == n
  {
  }

  lemma {:induction false} PackUnpack(s: seq<Byte>)
    ensures PackLE(LE(s), |s|) == s
  {
    if s != [] {
      PackUnpack(s[1..]);
      FirstAndRest(s[0], LE(s[1..]));
      assert s == [s[0]] + s[1..];
    }
  }

  lemma UnpackPackBE(n: nat, k: nat)
    requires n < Pow256(k)
    ensures BE(PackBE(n, k)) == n
  {
    UnpackPack(n, k);
    assert Reversed(PackBE(n, k)) == PackLE(n, k);
  }

  lemma Pow256Four()
    ensures Pow256(4) == 0x1_0000_0000
  {
    assert Pow256(1) == 256;
    assert Pow256(2) == 0x1_0000;
    assert Pow256(3) == 0x100_0000;
  }

  /** The widths of the formats' numbers, in bytes. */
  const LONG: nat := 8
  const SHORT: nat := 4
  const HALF: nat := 2

  const LONG_LIMIT: nat := 0x1_0000_0000_0000_0000
  const SHORT_LIMIT: nat := 0x1_0000_0000
  const HALF_LIMIT: nat := 0x1_0000

  lemma Widths()
    ensures Pow256(LONG) == LONG_LIMIT && Pow256(SHORT) == SHORT_LIMIT && Pow256(HALF) == HALF_LIMIT
  {
    Pow256Four();
    assert Pow256(5) == 256 * Pow256(4);
    assert Pow256(6) == 256 * Pow256(5);
    assert Pow256(7) == 256 * Pow256(6);
    assert Pow256(8) == 256 * Pow256(7);
    assert Pow256(1) == 256;
    assert Pow256(2) == 256 * Pow256(1);
  }

  lemma {:induction false} LEBound(s: seq<Byte>)
    ensures LE(s) < Pow256(|s|)
  {
    if s != [] { LEBound(s[1..]); }
  }

  /** Eight zero bytes read as zero. */
  lemma {:induction false} LEZero(s: seq<Byte>)
    requires forall i :: 0 <= i < |s| ==> s[i] == 0
    ensures LE(s) == 0
  {
    if s != [] { LEZero(s[1..]); }
  }

  function Zeros(n: nat): (z: seq<Byte>)
    ensures |z| == n && forall i :: 0 <= i < n ==> z[i] == 0
  {
    seq(n, i => 0)
  }

  /** The slots that point somewhere, in order. */
  function NonZero(slots: seq<nat>): seq<nat>
  {
    if slots == [] then [] else (if slots[0] == 0 then [] else [slots[0]]) + NonZero(slots[1..])
  }

  /** Overwrites part of a buffer, as `struct.pack_into` does. */
  function Patch(data: seq<Byte>, at: nat, piece: seq<Byte>): (r: seq<Byte>)
    requires at + |piece| <= |data|
    ensures |r| == |data|
    ensures r[at..at + |piece|] == piece
    ensures forall i {:trigger r[i]} :: 0 <= i < |data| && !(at <= i < at + |piece|) ==> r[i] == data[i]
  {
    var r := seq(|data|, i requires 0 <= i < |data| => if at <= i < at + |piece| then piece[i - at] else data[i]);
    assert r[at..at + |piece|] == piece;
    r
  }

  lemma SliceOfSlice(data: seq<Byte>, lo: nat, hi: nat, a: nat, b: nat)
    requires a <= b && lo + b <= hi <= |data|
    ensures data[lo..hi][a..b] == data[lo + a..lo + b]
  {
    var x, y := data[lo..hi][a..b], data[lo + a..lo + b];
    assert |x| == |y|;
    forall i | 0 <= i < |x| ensures x[i] == y[i] { }
  }
}

/** The five row filters of section 9 of the W3C PNG specification, and their undoing in place. */
module PngFilter {
  import opened Bytes

  /** A byte some way back in a row, or zero before its start. */
  function Back(row: seq<Byte>, x: nat, bpp: nat): Byte
    requires bpp > 0 && (x >= bpp ==> x - bpp < |row|)
  {
    if x >= bpp then row[x - bpp] else 0
  }

  function Abs(n: int): nat { if n < 0 then 0 - n else n }

  function Paeth(a: Byte, b: Byte, c: Byte): Byte
  {
    var p := a + b - c;
    var pa, pb, pc := Abs(p - a), Abs(p - b), Abs(p - c);
    if pa <= pb && pa <= pc then a else if pb <= pc then b else c
  }

  /** The predictor is the nearest of the three to a + b - c, the earlier one when two are as near. */
  lemma PaethIsNearest(a: Byte, b: Byte, c: Byte, r: Byte)
    ensures Paeth(a, b, c) == r <==>
            var p := a + b - c;
            || (r == a && Abs(p - a) <= Abs(p - b) && Abs(p - a) <= Abs(p - c))
            || (r == b && Abs(p - b) < Abs(p - a) && Abs(p - b) <= Abs(p - c))
            || (r == c && Abs(p - c) < Abs(p - a) && Abs(p - c) < Abs(p - b))
  {
  }

  /** What a filter type adds back. A type the specification does not define adds nothing. */
  function Predict(f: Byte, a: Byte, b: Byte, c: Byte): Byte
  {
    if f == 1 then a
    else if f == 2 then b
    else if f == 3 then (a + b) / 2
    else if f == 4 then Paeth(a, b, c)
    else 0
  }

  predicate Known(f: Byte) { 1 <= f <= 4 }

  /** A row as the specification filters it: every byte against the unfiltered bytes around it. */
  function Filter(f: Byte, bpp: nat, row: seq<Byte>, prev: seq<Byte>): (r: seq<Byte>)
    requires bpp > 0 && |prev| == |row|
    ensures |r| == |row|
  {
    seq(|row|, x requires 0 <= x < |row| =>
      (row[x] - Predict(f, Back(row, x, bpp), prev[x], Back(prev, x, bpp))) % 256)
  }

  /** The first k bytes of a row put back, each against those put back before it. */
  function Restore(f: Byte, bpp: nat, line: seq<Byte>, prev: seq<Byte>, k: nat): (r: seq<Byte>)
    requires bpp > 0 && k <= |line| <= |prev|
    ensures |r| == k
    decreases k
  {
    if k == 0 then []
    else
      var r := Restore(f, bpp, line, prev, k - 1);
      r + [(line[k - 1] + Predict(f, Back(r, k - 1, bpp), prev[k - 1], Back(prev, k - 1, bpp))) % 256]
  }

  lemma AddBack(v: Byte, p: Byte)
    ensures ((v - p) % 256 + p) % 256 == v
  {
  }

  /** Putting back what was filtered gives the row, byte by byte. */
  lemma {:induction false} RestoreFiltered(f: Byte, bpp: nat, row: seq<Byte>, prev: seq<Byte>, k: nat)
    requires bpp > 0 && |prev| == |row| && k <= |row|
    ensures Restore(f, bpp, Filter(f, bpp, row, prev), prev, k) == row[..k]
    decreases k
  {
    if k > 0 {
      RestoreFiltered(f, bpp, row, prev, k - 1);
      hide Predict;
      var r := row[..k - 1];
      var p := Predict(f, Back(r, k - 1, bpp), prev[k - 1], Back(prev, k - 1, bpp));
      assert Back(r, k - 1, bpp) == Back(row, k - 1, bpp);
      AddBack(row[k - 1], p);
      assert row[..k] == r + [row[k - 1]];
    }
  }

  /** And filtering what was put back gives the filtered row: the two are inverse both ways. */
  lemma FilterRestored(f: Byte, bpp: nat, line: seq<Byte>, prev: seq<Byte>)
    requires bpp > 0 && |prev| == |line|
    ensures Filter(f, bpp, Restore(f, bpp, line, prev, |line|), prev) == line
  {
    var row := Restore(f, bpp, line, prev, |line|);
    forall x | 0 <= x < |line| ensures Filter(f, bpp, row, prev)[x] == line[x] {
      RestorePrefix(f, bpp, line, prev, x, |line|);
      RestorePrefix(f, bpp, line, prev, x + 1, |line|);
      RestoreByte(f, bpp, line, prev, row, x);
    }
  }

  lemma {:induction false} RestorePrefix(f: Byte, bpp: nat, line: seq<Byte>, prev: seq<Byte>, j: nat, k: nat)
    requires bpp > 0 && j <= k <= |line| <= |prev|
    ensures Restore(f, bpp, line, prev, k)[..j] == Restore(f, bpp, line, prev, j)
    decreases k
  {
    if j < k {
      RestorePrefix(f, bpp, line, prev, j, k - 1);
      assert Restore(f, bpp, line, prev, k)[..j] == Restore(f, bpp, line, prev, k - 1)[..j];
    }
  }

  lemma TakeBack(v: Byte, p: Byte)
    ensures ((v + p) % 256 - p) % 256 == v
  {
  }

  lemma RestoreByte(f: Byte, bpp: nat, line: seq<Byte>, prev: seq<Byte>, row: seq<Byte>, x: nat)
    requires bpp > 0 && |prev| == |line| == |row| && x < |line|
    requires row[..x] == Restore(f, bpp, line, prev, x) && row[..x + 1] == Restore(f, bpp, line, prev, x + 1)
    ensures Filter(f, bpp, row, prev)[x] == line[x]
  {
    hide Predict;
    var r := row[..x];
    assert Back(r, x, bpp) == Back(row, x, bpp);
    var p := Predict(f, Back(r, x, bpp), prev[x], Back(prev, x, bpp));
    assert row[x] == row[..x + 1][x];
    var v: int := line[x];
    var sum := v + p;
    assert row[x] == sum % 256;
    TakeBack(line[x], p);
  }

  /**
   What the reader makes of one row of raw data, which may be cut short by the end of the
   data. A short row fails unless its filter type adds nothing and it lacks at most one pixel.
   */
  function RowOf(f: Byte, bpp: nat, stride: nat, line: seq<Byte>, prev: seq<Byte>): (r: Result<seq<Byte>>)
    requires bpp > 0 && |line| <= stride == |prev|
  {
    if |line| == stride then Ok(Restore(f, bpp, line, prev, stride))
    else if Known(f) || |line| + bpp < stride then Bad
    else Ok(line)
  }

  lemma {:induction false} RestoreNothing(f: Byte, bpp: nat, line: seq<Byte>, prev: seq<Byte>, k: nat)
    requires bpp > 0 && k <= |line| <= |prev| && !Known(f)
    ensures Restore(f, bpp, line, prev, k) == line[..k]
    decreases k
  {
    if k > 0 { RestoreNothing(f, bpp, line, prev, k - 1); }
  }

  /** The reader's loop over one row, in place. */
  method RestoreRow(f: Byte, bpp: nat, stride: nat, line: array<Byte>, prev: seq<Byte>) returns (ok: bool)
    requires bpp > 0 && line.Length <= stride == |prev|
    modifies line
    ensures ok == RowOf(f, bpp, stride, old(line[..]), prev).Ok?
    ensures ok ==> Ok(line[..]) == RowOf(f, bpp, stride, old(line[..]), prev)
  {
    ghost var was := line[..];
    hide Predict, Restore;
    RestoreNone(f, bpp, was, prev);
    for x := 0 to stride
      invariant Halfway(f, bpp, was, prev, line[..], x)
    {
      if x >= bpp && x - bpp >= line.Length { return false; }
      var a, b, c := if x >= bpp then line[x - bpp] else 0, prev[x], if x >= bpp then prev[x - bpp] else 0;
      ghost var before := line[..];
      if Known(f) {
        if x >= line.Length { return false; }
        line[x] := (line[x] + Predict(f, a, b, c)) % 256;
        assert line[..] == before[x := line[x]];
        KnownStep(f, bpp, was, prev, before, x, a);
      } else {
        OtherStep(f, bpp, was, prev, line[..], x);
      }
    }
    ok := true;
    RowDone(f, bpp, stride, was, prev, line[..]);
  }

  /** A row with the bytes before x put back and the rest as they were. */
  ghost predicate Halfway(f: Byte, bpp: nat, was: seq<Byte>, prev: seq<Byte>, line: seq<Byte>, x: nat)
    requires bpp > 0 && |was| <= |prev|
  {
    var k := if x <= |was| then x else |was|;
    && (x <= |was| || (!Known(f) && x <= |was| + bpp))
    && |line| == |was| && line[..k] == Restore(f, bpp, was, prev, k) && line[k..] == was[k..]
  }

  lemma RestoreNone(f: Byte, bpp: nat, was: seq<Byte>, prev: seq<Byte>)
    requires bpp > 0 && |was| <= |prev|
    ensures Halfway(f, bpp, was, prev, was, 0)
  {
  }

  lemma KnownStep(f: Byte, bpp: nat, was: seq<Byte>, prev: seq<Byte>, line: seq<Byte>, x: nat, a: Byte)
    requires bpp > 0 && x < |was| <= |prev| && Halfway(f, bpp, was, prev, line, x)
    requires a == if x >= bpp then line[x - bpp] else 0
    ensures Halfway(f, bpp, was, prev, line[x := (line[x] + Predict(f, a, prev[x], Back(prev, x, bpp))) % 256], x + 1)
  {
    hide Predict;
    var next := line[x := (line[x] + Predict(f, a, prev[x], Back(prev, x, bpp))) % 256];
    assert a == Back(line[..x], x, bpp);
    assert line[x] == line[x..][0] == was[x..][0];
    assert next[..x + 1] == line[..x] + [next[x]];
    assert next[x + 1..] == line[x..][1..];
  }

  lemma OtherStep(f: Byte, bpp: nat, was: seq<Byte>, prev: seq<Byte>, line: seq<Byte>, x: nat)
    requires bpp > 0 && |was| <= |prev| && Halfway(f, bpp, was, prev, line, x) && !Known(f)
    requires x >= bpp ==> x - bpp < |was|
    ensures Halfway(f, bpp, was, prev, line, x + 1)
  {
    if x < |was| {
      RestoreNothing(f, bpp, was, prev, x);
      RestoreNothing(f, bpp, was, prev, x + 1);
      assert line == line[..x] + line[x..] == was;
    }
  }

  lemma RowDone(f: Byte, bpp: nat, stride: nat, was: seq<Byte>, prev: seq<Byte>, line: seq<Byte>)
    requires bpp > 0 && |was| <= stride == |prev| && Halfway(f, bpp, was, prev, line, stride)
    ensures RowOf(f, bpp, stride, was, prev) == Ok(line)
  {
    RestoreNothingIf(f, bpp, was, prev);
    assert line == line[..|was|];
  }

  lemma RestoreNothingIf(f: Byte, bpp: nat, was: seq<Byte>, prev: seq<Byte>)
    requires bpp > 0 && |was| <= |prev|
    ensures !Known(f) ==> Restore(f, bpp, was, prev, |was|) == was
  {
    if !Known(f) { RestoreNothing(f, bpp, was, prev, |was|); }
  }
}

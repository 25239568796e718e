/** The damage modes as they work on the image in memory: a few bytes of an array, overwritten in place. */
module ReconInPlace {
  import opened Bytes
  import opened Arith
  import opened ReconImage
  import opened ReconTree
  import opened ReconDamage
  import opened ReconCheck
  import ReconReaders

  /** `struct.pack_into` on a mutable buffer. */
  method PackInto(data: array<Byte>, at: int, piece: seq<Byte>) returns (ok: bool)
    modifies data
    ensures ok == Overwrite(old(data[..]), at, piece).Ok?
    ensures data[..] == if ok then Overwrite(old(data[..]), at, piece).value else old(data[..])
  {
    if at < 0 || at + |piece| > data.Length { return false; }
    for i := 0 to |piece|
      invariant forall k {:trigger data[k]} :: 0 <= k < data.Length ==>
                  data[k] == if at <= k < at + i then piece[k - at] else old(data[k])
    {
      data[at + i] := piece[i];
    }
    ok := true;
    assert data[..] == Patch(old(data[..]), at, piece);
  }

  /** Adds one to the number stored at `at`, unless it would no longer fit its four bytes. */
  method Increment(data: array<Byte>, at: int) returns (ok: bool)
    modifies data
    ensures ok == Bump(old(data[..]), at).Ok?
    ensures data[..] == if ok then Bump(old(data[..]), at).value else old(data[..])
  {
    hide LE, Bump, PackLE;
    if at < 0 || at + 4 > data.Length {
      BumpFails(data[..], at);
      return false;
    }
    var was := data[at..at + 4];
    assert was == data[..][at..at + 4];
    BumpIs(data[..], at);
    if LE(was) + 1 >= 0x1_0000_0000 { return false; }
    ok := PackInto(data, at, PackLE(LE(was) + 1, 4));
  }

  lemma BumpFails(data: seq<Byte>, at: int)
    requires at < 0 || at + 4 > |data|
    ensures Bump(data, at).Bad?
  {
  }

  lemma BumpIs(data: seq<Byte>, at: nat)
    requires at + 4 <= |data|
    ensures var n := LE(data[at..at + 4]) + 1;
            Bump(data, at) == if n >= 0x1_0000_0000 then Bad else Overwrite(data, at, PackLE(n, 4))
  {
    hide LE, Successor, PackLE, Patch;
    var was := data[at..at + 4];
    SuccessorIs(was);
    Pow256Four();
    if Successor(was).Ok? { SuccessorPacks(was); }
  }

  /** Breaks the live volume v in the buffer it was loaded from. A failure leaves the buffer alone. */
  method DamageInPlace(v: Volume, data: array<Byte>, how: Mode, key: seq<Byte> -> string) returns (ok: bool)
    requires Sized(v) && v.data == data[..]
    modifies data
    ensures ok == DamageVolume(v, how, key).Ok?
    ensures data[..] == if ok then DamageVolume(v, how, key).value else v.data
  {
    hide LeafBlock, SettingsInode, TornAt, Bump, Patch, Successor;
    match how {
      case Checksum =>
        var at := Times(v.super.root, v.bs) + CHECKSUM_BYTE;
        if at >= data.Length { return false; }
        data[at] := 255 - data[at];
        ok := true;
        assert data[..] == v.data[at := 255 - v.data[at]];
      case Unallocated =>
        var leaf := LeafBlock(v, Quot(v.super.root, PerIndex(v)));
        if leaf.Bad? { return false; }
        ok := PackInto(data, Times(leaf.value, v.bs) + 8 * Rem(v.super.root, PerIndex(v)),
            PackLE(OWNER_VOID, ENTRY_BYTES));
      case Torn =>
        var ino := SettingsInode(v, key);
        if ino.Bad? { return false; }
        var at := TornAt(v, ino.value);
        if at.Bad? { return false; }
        ok := Increment(data, at.value);
    }
  }

  /** The whole of `damage`: loads the live superblock, then breaks what it points at, in place. */
  method DamageImage(sum: Sum, data: array<Byte>, how: Mode, key: seq<Byte> -> string) returns (ok: bool)
    modifies data
    ensures ok == Damage(sum, old(data[..]), how, key).Ok?
    ensures data[..] == if ok then Damage(sum, old(data[..]), how, key).value else old(data[..])
  {
    var img := new ReconReaders.Image(sum, data[..]);
    var super := img.Load();
    if super.Bad? { return false; }
    hide Load, DamageVolume;
    ok := DamageInPlace(Volume(sum, img.data, img.bs, img.super), data, how, key);
  }
}

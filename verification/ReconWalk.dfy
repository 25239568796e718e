/**
 The forward walk as the program runs it: closures that mark an array, append to a
 list of problems and count inodes. Each is proved to do what its function in
 ReconTree says.
 */
module ReconWalk {
  import opened Bytes
  import opened ReconTree

  class Checker {
    const v: View
    const marks: array<nat>
    var problems: seq<Problem>
    var inodes: nat

    ghost function State(): State
      reads this, marks
    {
      ReconTree.State(marks[..], problems, inodes)
    }

    /** Nobody owns anything, but for the superblocks and the run reserved between them. */
    constructor (v: View)
      ensures this.v == v && fresh(marks) && State() == Start(v)
    {
      this.v := v;
      marks := new nat[v.total](b => if b < v.reserved then OWNER_ARCHIVE else 0);
      problems, inodes := [], 0;
      new;
      assert marks[..] == Start(v).held;
    }

    method Claim(blk: nat, owner: nat)
      modifies this, marks
      ensures State() == Claim1(old(State()), ReconTree.Claim(blk, owner))
    {
      if blk >= marks.Length {
        problems := problems + [PastEnd(blk)];
      } else if marks[blk] != 0 {
        problems := problems + [Twice(blk)];
      } else {
        marks[blk] := owner;
      }
    }

    method ClaimBlocks(blks: seq<nat>, owner: nat)
      modifies this, marks
      ensures State() == ClaimAll(old(State()), Owned(blks, owner))
    {
      assert blks[0..] == blks;
      for i := 0 to |blks|
        invariant ClaimAll(State(), Owned(blks[i..], owner)) == ClaimAll(old(State()), Owned(blks, owner))
      {
        assert Owned(blks[i..], owner)[1..] == Owned(blks[i + 1..], owner);
        Claim(blks[i], owner);
      }
    }

    /** False stands for the exception that abandons the whole check. */
    method ClaimTable(node: nat, depth: nat) returns (ok: bool)
      modifies this, marks
      ensures ok == ReconTree.ClaimTable(v, old(State()), node, depth).Ok?
      ensures ok ==> Ok(State()) == ReconTree.ClaimTable(v, old(State()), node, depth)
      decreases depth
    {
      if node >= marks.Length {
        problems := problems + [TableLeaves(node)];
        return true;
      }
      if marks[node] != 0 {
        problems := problems + [TableTwice(node)];
        return true;
      }
      marks[node] := OWNER_ARCHIVE;
      if depth == 0 { return true; }
      var slots := v.index(node);
      if slots.Bad? { return false; }
      ghost var start := State();
      var kids := NonZero(slots.value);
      assert kids[0..] == kids;
      for i := 0 to |kids|
        invariant ClaimTables(v, State(), kids[i..], depth - 1) == ClaimTables(v, start, kids, depth - 1)
      {
        assert kids[i..][1..] == kids[i + 1..];
        ok := ClaimTable(kids[i], depth - 1);
        if !ok { return false; }
      }
      return true;
    }

    /** Terminates on every volume, because each level of recursion is one deeper and 64 is the limit. */
    method Walk(blk: nat, expectParent: nat, owner: nat, depth: nat) returns (ok: bool)
      modifies this, marks
      ensures ok == ReconTree.Walk(v, old(State()), blk, expectParent, owner, depth).Ok?
      ensures ok ==> Ok(State()) == ReconTree.Walk(v, old(State()), blk, expectParent, owner, depth)
      decreases Levels(depth), 0
    {
      if depth > DEPTH_MAX {
        problems := problems + [TooDeep];
        return true;
      }
      Claim(blk, owner);
      var node := v.node(blk);
      if node.Bad? { return false; }
      var n := node.value;
      inodes := inodes + 1;
      if n.parent != expectParent {
        problems := problems + [WrongParent(blk, n.parent, expectParent)];
      }
      match n.kind {
        case Directory =>
          ClaimBlocks(n.own, n.dossier);
          ok := WalkChildren(n.kids, n.dossier, depth + 1);
        case File =>
          ClaimBlocks(n.own, n.dossier);
          ok := true;
        case Unknown(code) =>
          problems := problems + [BadType(blk, code)];
          ok := true;
      }
    }

    method WalkChildren(kids: seq<nat>, dossier: nat, depth: nat) returns (ok: bool)
      modifies this, marks
      ensures ok == WalkAll(v, old(State()), kids, dossier, depth).Ok?
      ensures ok ==> Ok(State()) == WalkAll(v, old(State()), kids, dossier, depth)
      decreases Levels(depth), 1
    {
      assert kids[0..] == kids;
      for i := 0 to |kids|
        invariant WalkAll(v, State(), kids[i..], dossier, depth) == WalkAll(v, old(State()), kids, dossier, depth)
      {
        assert kids[i..][1..] == kids[i + 1..];
        ok := Walk(kids[i], dossier, dossier, depth);
        if !ok { return false; }
      }
      return true;
    }
  }
}

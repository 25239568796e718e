/**
 What the checker's verdict means. A clean verdict is given exactly when the volume
 is one owner table and one directory tree whose blocks are all different, all on
 the volume, and entered in the table under the owner that reaches them, with every
 other entry void.
 */
module ReconVerdict {
  import opened Bytes
  import opened ReconTree

  /** No problem from the forward walk, and none from the comparison with the table sweep. */
  ghost predicate Accepted(v: View, owners: seq<nat>)
    requires |owners| == v.total
  {
    var s := Forward(v);
    s.Ok? && s.value.problems == [] && owners == s.value.held
  }

  ghost function Unclaimed(n: nat): (z: seq<nat>)
    ensures |z| == n && forall b :: 0 <= b < n ==> z[b] == 0
  {
    seq(n, _ => 0)
  }

  ghost function UpTo(n: nat): (s: seq<nat>)
    ensures |s| == n && forall i :: 0 <= i < n ==> s[i] == i
  {
    seq(n, i => i)
  }

  /** The superblocks' run, as claims of the archive. */
  ghost function SuperClaims(v: View): seq<Claim>
  {
    Owned(UpTo(if v.reserved < v.total then v.reserved else v.total), OWNER_ARCHIVE)
  }

  ghost function AllClaims(v: View, table: Table, tree: Tree): seq<Claim>
  {
    (SuperClaims(v) + TableClaims(table)) + TreeClaims(tree, OWNER_ARCHIVE)
  }

  // --- Claims that fit ---

  ghost predicate Distinct(cs: seq<Claim>)
  {
    forall i, j :: 0 <= i < j < |cs| ==> cs[i].blk != cs[j].blk
  }

  ghost predicate Free(held: seq<nat>, cs: seq<Claim>)
  {
    forall i :: 0 <= i < |cs| ==> cs[i].blk < |held| && held[cs[i].blk] == 0
  }

  ghost predicate Claims(cs: seq<Claim>, b: nat)
  {
    exists i :: 0 <= i < |cs| && cs[i].blk == b
  }

  ghost predicate NoZeroOwner(cs: seq<Claim>)
  {
    forall i :: 0 <= i < |cs| ==> cs[i].owner != 0
  }

  /** Each claimed block carries its claim's owner, and no other block is touched. */
  ghost predicate Records(held: seq<nat>, cs: seq<Claim>, after: seq<nat>)
  {
    && |after| == |held|
    && (forall i :: 0 <= i < |cs| ==> cs[i].blk < |held| && after[cs[i].blk] == cs[i].owner)
    && (forall b :: 0 <= b < |held| && !Claims(cs, b) ==> after[b] == held[b])
  }

  lemma {:induction false} FitsFrom(held: seq<nat>, cs: seq<Claim>)
    requires Distinct(cs) && Free(held, cs)
    ensures Fits(held, cs) && Records(held, cs, Mark(held, cs))
    decreases |cs|
  {
    if cs != [] {
      var next := held[cs[0].blk := cs[0].owner];
      FitsFrom(next, cs[1..]);
      ShiftRecords(held, cs, Mark(held, cs));
    }
  }

  lemma ShiftRecords(held: seq<nat>, cs: seq<Claim>, after: seq<nat>)
    requires cs != [] && cs[0].blk < |held| && Distinct(cs)
    requires Records(held[cs[0].blk := cs[0].owner], cs[1..], after)
    ensures Records(held, cs, after)
  {
    var next := held[cs[0].blk := cs[0].owner];
    assert !Claims(cs[1..], cs[0].blk);
    forall i | 0 <= i < |cs| ensures cs[i].blk < |held| && after[cs[i].blk] == cs[i].owner {
      if i > 0 { assert cs[i] == cs[1..][i - 1]; }
    }
    forall b | 0 <= b < |held| && !Claims(cs, b) ensures after[b] == held[b] {
      assert b != cs[0].blk;
      forall i | 0 <= i < |cs[1..]| ensures cs[1..][i].blk != b { assert cs[1..][i] == cs[i + 1]; }
      assert !Claims(cs[1..], b);
    }
  }

  /** A block claimed again later must have been claimed for nobody, owner zero, the first time. */
  ghost predicate RepeatsOnlyZero(cs: seq<Claim>)
  {
    forall i, j :: 0 <= i < j < |cs| && cs[i].blk == cs[j].blk ==> cs[i].owner == 0
  }

  lemma {:induction false} FitsMeans(held: seq<nat>, cs: seq<Claim>)
    requires Fits(held, cs)
    ensures Free(held, cs) && RepeatsOnlyZero(cs)
    decreases |cs|
  {
    if cs != [] {
      var next := held[cs[0].blk := cs[0].owner];
      FitsMeans(next, cs[1..]);
      forall i | 0 <= i < |cs| ensures cs[i].blk < |held| && held[cs[i].blk] == 0 {
        if i > 0 { assert cs[i] == cs[1..][i - 1]; }
      }
      forall i, j | 0 <= i < j < |cs| && cs[i].blk == cs[j].blk ensures cs[i].owner == 0 {
        assert cs[j] == cs[1..][j - 1];
        if i > 0 { assert cs[i] == cs[1..][i - 1]; }
      }
    }
  }

  lemma FitsDistinct(held: seq<nat>, cs: seq<Claim>)
    requires Fits(held, cs) && NoZeroOwner(cs)
    ensures Distinct(cs) && Free(held, cs) && Records(held, cs, Mark(held, cs))
  {
    FitsMeans(held, cs);
    FitsFrom(held, cs);
  }

  // --- The verdict ---

  lemma StartFits(v: View)
    ensures Fits(Unclaimed(v.total), SuperClaims(v)) && Mark(Unclaimed(v.total), SuperClaims(v)) == Start(v).held
  {
    var cs := SuperClaims(v);
    FitsFrom(Unclaimed(v.total), cs);
    var after := Mark(Unclaimed(v.total), cs);
    forall b | 0 <= b < v.total ensures after[b] == Start(v).held[b] {
      if b < |cs| { assert cs[b].blk == b; }
    }
  }

  lemma FitsAll(v: View, table: Table, tree: Tree)
    ensures var held := Start(v).held;
            Fits(Unclaimed(v.total), AllClaims(v, table, tree)) <==>
            Fits(held, TableClaims(table)) && Fits(Mark(held, TableClaims(table)), TreeClaims(tree, OWNER_ARCHIVE))
    ensures Mark(Unclaimed(v.total), AllClaims(v, table, tree)) ==
            Mark(Mark(Start(v).held, TableClaims(table)), TreeClaims(tree, OWNER_ARCHIVE))
  {
    StartFits(v);
    FitsAppend(Unclaimed(v.total), SuperClaims(v), TableClaims(table));
    FitsAppend(Unclaimed(v.total), SuperClaims(v) + TableClaims(table), TreeClaims(tree, OWNER_ARCHIVE));
  }

  /** The volume is this owner table and this directory tree, and the table agrees with both. */
  ghost predicate HoldsTogether(v: View, owners: seq<nat>, table: Table, tree: Tree)
    requires |owners| == v.total
  {
    && IsTable(v, table, v.tableRoot, v.tableDepth)
    && IsTree(v, tree, v.root, 0, 0)
    && Fits(Unclaimed(v.total), AllClaims(v, table, tree))
    && owners == Mark(Unclaimed(v.total), AllClaims(v, table, tree))
  }

  /** The verdict on a volume whose trees are known. */
  lemma VerdictOf(v: View, owners: seq<nat>, table: Table, tree: Tree)
    requires |owners| == v.total && HoldsTogether(v, owners, table, tree)
    ensures Accepted(v, owners) && Forward(v).value.inodes == Count(tree)
  {
    FitsAll(v, table, tree);
    TableOfTree(v, Start(v), table, v.tableRoot, v.tableDepth);
    var s := Start(v).(held := Mark(Start(v).held, TableClaims(table)));
    WalkOfTree(v, s, tree, v.root, 0, OWNER_ARCHIVE, 0);
    ClaimAllClean(s, TreeClaims(tree, OWNER_ARCHIVE));
  }

  lemma AcceptedTrees(v: View, owners: seq<nat>) returns (table: Table, tree: Tree)
    requires |owners| == v.total && Accepted(v, owners)
    ensures HoldsTogether(v, owners, table, tree)
  {
    var s := ClaimTable(v, Start(v), v.tableRoot, v.tableDepth).value;
    TableGrows(v, Start(v), v.tableRoot, v.tableDepth);
    WalkGrows(v, s, v.root, 0, OWNER_ARCHIVE, 0);
    table := SilentTable(v, Start(v), v.tableRoot, v.tableDepth);
    TableOfTree(v, Start(v), table, v.tableRoot, v.tableDepth);
    tree := SilentWalk(v, s, v.root, 0, OWNER_ARCHIVE, 0);
    WalkOfTree(v, s, tree, v.root, 0, OWNER_ARCHIVE, 0);
    ClaimAllClean(s, TreeClaims(tree, OWNER_ARCHIVE));
    FitsAll(v, table, tree);
  }

  /** The verdict is exact: clean exactly when the volume holds together. */
  lemma VerdictExact(v: View, owners: seq<nat>)
    requires |owners| == v.total
    ensures Accepted(v, owners) <==> exists table, tree :: HoldsTogether(v, owners, table, tree)
  {
    if Accepted(v, owners) {
      var table, tree := AcceptedTrees(v, owners);
    }
    if table, tree :| HoldsTogether(v, owners, table, tree) {
      VerdictOf(v, owners, table, tree);
    }
  }

  /**
   What an owner of zero costs, exactly. On a volume that holds together, each block is claimed
   at most once and void just when unclaimed, if and only if nothing is claimed for owner zero.
   */
  lemma OwnerZeroExactly(v: View, owners: seq<nat>, table: Table, tree: Tree)
    requires |owners| == v.total && HoldsTogether(v, owners, table, tree)
    ensures var cs := AllClaims(v, table, tree);
            NoZeroOwner(cs) <==>
            Distinct(cs) && forall b :: 0 <= b < v.total ==> (owners[b] == OWNER_VOID <==> !Claims(cs, b))
  {
    var cs := AllClaims(v, table, tree);
    hide AllClaims, IsTable, IsTree, Mark;
    FitsMeans(Unclaimed(v.total), cs);
    if NoZeroOwner(cs) { FitsDistinct(Unclaimed(v.total), cs); }
    if Distinct(cs) {
      FitsFrom(Unclaimed(v.total), cs);
      forall i | 0 <= i < |cs| ensures Claims(cs, cs[i].blk) && owners[cs[i].blk] == cs[i].owner {
      }
    }
  }

  /**
   Soundness. After a clean verdict every claim is on the volume, and a block claimed twice was
   claimed for owner zero the first time. Each block is reached at most once by superblocks,
   table and tree together, and void exactly when nothing reaches it, if and only if nothing
   owned is owned by dossier zero; its table entry is then the owner that reaches it.
   */
  lemma CheckerSound(v: View, owners: seq<nat>) returns (table: Table, tree: Tree)
    requires |owners| == v.total && Accepted(v, owners)
    ensures IsTable(v, table, v.tableRoot, v.tableDepth) && IsTree(v, tree, v.root, 0, 0)
    ensures var cs := AllClaims(v, table, tree);
            && (forall i :: 0 <= i < |cs| ==> cs[i].blk < v.total)
            && RepeatsOnlyZero(cs)
            && (NoZeroOwner(cs) <==>
                Distinct(cs) && forall b :: 0 <= b < v.total ==> (owners[b] == OWNER_VOID <==> !Claims(cs, b)))
            && (NoZeroOwner(cs) ==> forall i :: 0 <= i < |cs| ==> owners[cs[i].blk] == cs[i].owner)
  {
    table, tree := AcceptedTrees(v, owners);
    var cs := AllClaims(v, table, tree);
    OwnerZeroExactly(v, owners, table, tree);
    FitsMeans(Unclaimed(v.total), cs);
    if NoZeroOwner(cs) { FitsDistinct(Unclaimed(v.total), cs); }
  }

  /**
   Completeness. A table and a tree that the volume represents, whose blocks are all
   different and on the volume, with a matching owner table, get a clean verdict.
   */
  lemma CheckerComplete(v: View, owners: seq<nat>, table: Table, tree: Tree)
    requires |owners| == v.total
    requires IsTable(v, table, v.tableRoot, v.tableDepth) && IsTree(v, tree, v.root, 0, 0)
    requires var cs := AllClaims(v, table, tree); Distinct(cs) && Records(Unclaimed(v.total), cs, owners)
    ensures Accepted(v, owners) && Forward(v).value.inodes == Count(tree)
  {
    var cs := AllClaims(v, table, tree);
    FitsFrom(Unclaimed(v.total), cs);
    var after := Mark(Unclaimed(v.total), cs);
    forall b | 0 <= b < v.total ensures owners[b] == after[b] {
      if i :| 0 <= i < |cs| && cs[i].blk == b { assert owners[cs[i].blk] == after[cs[i].blk]; }
    }
    VerdictOf(v, owners, table, tree);
  }

  // --- There is one tree only ---

  lemma {:induction false} TreeUnique(v: View, t: Tree, u: Tree, blk: nat, parent: nat, depth: nat)
    requires IsTree(v, t, blk, parent, depth) && IsTree(v, u, blk, parent, depth)
    ensures t == u
    decreases t, 1
  {
    if t.node.kind.Directory? { TreesUnique(v, t.kids, u.kids, t.node.kids, t.node.dossier, depth + 1); }
  }

  lemma {:induction false} TreesUnique(v: View, ts: seq<Tree>, us: seq<Tree>, blks: seq<nat>, parent: nat, depth: nat)
    requires AreTrees(v, ts, blks, parent, depth) && AreTrees(v, us, blks, parent, depth)
    ensures ts == us
    decreases ts, 0
  {
    if blks != [] {
      TreeUnique(v, ts[0], us[0], blks[0], parent, depth);
      TreesUnique(v, ts[1..], us[1..], blks[1..], parent, depth);
    }
  }

  // --- Claimed by the tree means reached by a path ---

  /** A walk down the directories by name: each inode is named by the directory before it. */
  ghost predicate IsPath(v: View, path: seq<nat>)
  {
    && path != []
    && forall i :: 0 <= i < |path| - 1 ==>
         v.node(path[i]).Ok? && v.node(path[i]).value.kind.Directory? && path[i + 1] in v.node(path[i]).value.kids
  }

  /** The last inode of the path is b itself, or owns b. */
  ghost predicate EndsAt(v: View, path: seq<nat>, b: nat)
    requires path != []
  {
    var last := path[|path| - 1];
    b == last || (v.node(last).Ok? && b in v.node(last).value.own)
  }

  ghost predicate Reaches(v: View, from: nat, b: nat)
  {
    exists path {:trigger IsPath(v, path)} :: IsPath(v, path) && path[0] == from && EndsAt(v, path, b)
  }

  lemma ReachesBelow(v: View, blk: nat, kid: nat, b: nat)
    requires v.node(blk).Ok? && v.node(blk).value.kind.Directory? && kid in v.node(blk).value.kids
    requires Reaches(v, kid, b)
    ensures Reaches(v, blk, b)
  {
    var path :| IsPath(v, path) && path[0] == kid && EndsAt(v, path, b);
    var longer := [blk] + path;
    forall i | 0 <= i < |longer| - 1
      ensures v.node(longer[i]).Ok? && v.node(longer[i]).value.kind.Directory?
              && longer[i + 1] in v.node(longer[i]).value.kids
    {
      if i > 0 { assert longer[i] == path[i - 1] && longer[i + 1] == path[i]; }
    }
    assert IsPath(v, longer) && longer[0] == blk && EndsAt(v, longer, b);
  }

  lemma ClaimsAppend(a: seq<Claim>, c: seq<Claim>, b: nat)
    ensures Claims(a + c, b) <==> Claims(a, b) || Claims(c, b)
  {
    var all := a + c;
    if Claims(all, b) {
      var i :| 0 <= i < |all| && all[i].blk == b;
      if i < |a| { assert a[i].blk == b; } else { assert c[i - |a|].blk == b; }
    }
    if i :| 0 <= i < |a| && a[i].blk == b { assert all[i].blk == b; }
    if i :| 0 <= i < |c| && c[i].blk == b { assert all[|a| + i].blk == b; }
  }

  lemma OwnedClaims(blks: seq<nat>, owner: nat, b: nat)
    ensures Claims(Owned(blks, owner), b) <==> b in blks
  {
    if i :| 0 <= i < |blks| && blks[i] == b { assert Owned(blks, owner)[i].blk == b; }
  }

  lemma TreeClaimsParts(t: Tree, owner: nat, b: nat)
    ensures Claims(TreeClaims(t, owner), b) <==>
            b == t.blk || b in t.node.own || Claims(TreesClaims(t.kids, t.node.dossier), b)
  {
    var mine, below := Owned(t.node.own, t.node.dossier), TreesClaims(t.kids, t.node.dossier);
    ClaimsAppend([Claim(t.blk, owner)], mine + below, b);
    ClaimsAppend(mine, below, b);
    OwnedClaims(t.node.own, t.node.dossier, b);
    assert Claims([Claim(t.blk, owner)], b) <==> b == t.blk by {
      if b == t.blk { assert [Claim(t.blk, owner)][0].blk == b; }
    }
  }

  lemma {:induction false} ClaimedIsReached(v: View, t: Tree, blk: nat, parent: nat, owner: nat, depth: nat, b: nat)
    requires IsTree(v, t, blk, parent, depth) && Claims(TreeClaims(t, owner), b)
    ensures Reaches(v, blk, b)
    decreases t, 1
  {
    TreeClaimsParts(t, owner, b);
    if b == blk || b in t.node.own {
      assert IsPath(v, [blk]) && EndsAt(v, [blk], b);
    } else {
      var kid := ClaimedBelow(v, t.kids, t.node.kids, t.node.dossier, depth + 1, b);
      ReachesBelow(v, blk, kid, b);
    }
  }

  lemma {:induction false} ClaimedBelow(v: View, ts: seq<Tree>, blks: seq<nat>, dossier: nat, depth: nat, b: nat)
    returns (kid: nat)
    requires AreTrees(v, ts, blks, dossier, depth) && Claims(TreesClaims(ts, dossier), b)
    ensures kid in blks && Reaches(v, kid, b)
    decreases ts, 0
  {
    ClaimsAppend(TreeClaims(ts[0], dossier), TreesClaims(ts[1..], dossier), b);
    if Claims(TreeClaims(ts[0], dossier), b) {
      kid := blks[0];
      ClaimedIsReached(v, ts[0], kid, dossier, dossier, depth, b);
    } else {
      kid := ClaimedBelow(v, ts[1..], blks[1..], dossier, depth, b);
    }
  }

  lemma {:induction false} PathIsClaimed(v: View, t: Tree, blk: nat, parent: nat, owner: nat, depth: nat,
                                         path: seq<nat>, b: nat)
    requires IsTree(v, t, blk, parent, depth)
    requires IsPath(v, path) && path[0] == blk && EndsAt(v, path, b)
    ensures Claims(TreeClaims(t, owner), b)
    decreases t, 1
  {
    TreeClaimsParts(t, owner, b);
    if |path| > 1 {
      PathTail(v, path);
      assert path[0 + 1] in v.node(path[0]).value.kids;
      PathBelow(v, t.kids, t.node.kids, t.node.dossier, depth + 1, path[1..], b);
    }
  }

  lemma {:induction false} PathBelow(v: View, ts: seq<Tree>, blks: seq<nat>, dossier: nat, depth: nat,
                                     path: seq<nat>, b: nat)
    requires AreTrees(v, ts, blks, dossier, depth)
    requires IsPath(v, path) && path[0] in blks && EndsAt(v, path, b)
    ensures Claims(TreesClaims(ts, dossier), b)
    decreases ts, 0
  {
    ClaimsAppend(TreeClaims(ts[0], dossier), TreesClaims(ts[1..], dossier), b);
    if path[0] == blks[0] {
      PathIsClaimed(v, ts[0], blks[0], dossier, dossier, depth, path, b);
    } else {
      PathBelow(v, ts[1..], blks[1..], dossier, depth, path, b);
    }
  }

  /** The tree's claims are exactly the blocks some path from the root reaches. */
  lemma ClaimedExactlyWhenReached(v: View, t: Tree, b: nat)
    requires IsTree(v, t, v.root, 0, 0)
    ensures Claims(TreeClaims(t, OWNER_ARCHIVE), b) <==> Reaches(v, v.root, b)
  {
    if Claims(TreeClaims(t, OWNER_ARCHIVE), b) { ClaimedIsReached(v, t, v.root, 0, OWNER_ARCHIVE, 0, b); }
    if Reaches(v, v.root, b) {
      var path :| IsPath(v, path) && path[0] == v.root && EndsAt(v, path, b);
      PathIsClaimed(v, t, v.root, 0, OWNER_ARCHIVE, 0, path, b);
    }
  }

  // --- Numbered objects ---

  /** Every inode below `from`, itself included, has a dossier other than zero. */
  ghost predicate Numbered(v: View, from: nat)
  {
    forall path {:trigger IsPath(v, path)} :: IsPath(v, path) && path[0] == from && v.node(path[|path| - 1]).Ok?
                                              ==> v.node(path[|path| - 1]).value.dossier != 0
  }

  lemma NumberedBelow(v: View, blk: nat, kid: nat)
    requires Numbered(v, blk)
    requires v.node(blk).Ok? && v.node(blk).value.kind.Directory? && kid in v.node(blk).value.kids
    ensures Numbered(v, kid)
  {
    forall path | IsPath(v, path) && path[0] == kid && v.node(path[|path| - 1]).Ok?
      ensures v.node(path[|path| - 1]).value.dossier != 0
    {
      var edge := [blk, kid];
      assert IsPath(v, edge);
      JoinPaths(v, edge, path);
      assert (edge + path[1..])[0] == blk;
    }
  }

  lemma {:induction false} NumberedOwners(v: View, t: Tree, blk: nat, parent: nat, owner: nat, depth: nat)
    requires IsTree(v, t, blk, parent, depth) && Numbered(v, blk) && owner != 0
    ensures NoZeroOwner(TreeClaims(t, owner))
    decreases t, 1
  {
    assert IsPath(v, [blk]);
    if t.node.kind.Directory? {
      forall kid | kid in t.node.kids ensures Numbered(v, kid) { NumberedBelow(v, blk, kid); }
      NumberedOwnersBelow(v, t.kids, t.node.kids, t.node.dossier, depth + 1);
    }
  }

  lemma {:induction false} NumberedOwnersBelow(v: View, ts: seq<Tree>, blks: seq<nat>, dossier: nat, depth: nat)
    requires AreTrees(v, ts, blks, dossier, depth) && dossier != 0
    requires forall kid :: kid in blks ==> Numbered(v, kid)
    ensures NoZeroOwner(TreesClaims(ts, dossier))
    decreases ts, 0
  {
    if blks != [] {
      NumberedOwners(v, ts[0], blks[0], dossier, dossier, depth);
      NumberedOwnersBelow(v, ts[1..], blks[1..], dossier, depth);
    }
  }

  lemma {:induction false} TableOwners(t: Table)
    ensures NoZeroOwner(TableClaims(t))
    decreases t, 1
  {
    TablesOwners(t.kids);
  }

  lemma {:induction false} TablesOwners(ts: seq<Table>)
    ensures NoZeroOwner(TablesClaims(ts))
    decreases ts, 0
  {
    if ts != [] {
      TableOwners(ts[0]);
      TablesOwners(ts[1..]);
    }
  }

  lemma AllNumbered(v: View, table: Table, tree: Tree)
    requires IsTree(v, tree, v.root, 0, 0) && Numbered(v, v.root)
    ensures NoZeroOwner(AllClaims(v, table, tree))
  {
    TableOwners(table);
    NumberedOwners(v, tree, v.root, 0, OWNER_ARCHIVE, 0);
  }

  /**
   Allocation is unique reachability: after a clean verdict on a volume whose objects
   are numbered, a block is void exactly when it is not among the superblocks, not in
   the owner table, and no path from the root reaches it.
   */
  lemma AllocatedExactlyWhenReached(v: View, owners: seq<nat>) returns (table: Table, tree: Tree)
    requires |owners| == v.total && Accepted(v, owners) && Numbered(v, v.root)
    ensures IsTable(v, table, v.tableRoot, v.tableDepth) && IsTree(v, tree, v.root, 0, 0)
    ensures var cs := AllClaims(v, table, tree);
            Distinct(cs) && forall i :: 0 <= i < |cs| ==> cs[i].blk < v.total && owners[cs[i].blk] == cs[i].owner
    ensures forall b :: 0 <= b < v.total ==>
              (owners[b] == OWNER_VOID <==>
               v.reserved <= b && !Claims(TableClaims(table), b) && !Reaches(v, v.root, b))
  {
    table, tree := CheckerSound(v, owners);
    AllNumbered(v, table, tree);
    forall b | 0 <= b < v.total
      ensures Claims(AllClaims(v, table, tree), b) <==>
              b < v.reserved || Claims(TableClaims(table), b) || Reaches(v, v.root, b)
    {
      ClaimsAppend(SuperClaims(v) + TableClaims(table), TreeClaims(tree, OWNER_ARCHIVE), b);
      ClaimsAppend(SuperClaims(v), TableClaims(table), b);
      ClaimedExactlyWhenReached(v, tree, b);
      OwnedClaims(UpTo(if v.reserved < v.total then v.reserved else v.total), OWNER_ARCHIVE, b);
      assert b < v.reserved ==> UpTo(if v.reserved < v.total then v.reserved else v.total)[b] == b;
    }
  }

  // --- Depth and cycles ---

  lemma {:induction false} PathFits(v: View, t: Tree, blk: nat, parent: nat, depth: nat, path: seq<nat>)
    requires IsTree(v, t, blk, parent, depth) && IsPath(v, path) && path[0] == blk
    ensures |path| + depth <= DEPTH_MAX + 1
    decreases t, 1
  {
    if |path| > 1 {
      assert path[0 + 1] in v.node(path[0]).value.kids;
      PathTail(v, path);
      PathFitsBelow(v, t.kids, t.node.kids, t.node.dossier, depth + 1, path[1..]);
    }
  }

  lemma {:induction false} PathFitsBelow(v: View, ts: seq<Tree>, blks: seq<nat>, parent: nat, depth: nat,
      path: seq<nat>)
    requires AreTrees(v, ts, blks, parent, depth) && IsPath(v, path) && path[0] in blks
    ensures |path| + depth <= DEPTH_MAX + 1
    decreases ts, 0
  {
    if path[0] == blks[0] {
      PathFits(v, ts[0], blks[0], parent, depth, path);
    } else {
      PathFitsBelow(v, ts[1..], blks[1..], parent, depth, path);
    }
  }

  lemma PathTail(v: View, path: seq<nat>)
    requires IsPath(v, path) && |path| > 1
    ensures IsPath(v, path[1..])
  {
    var rest := path[1..];
    forall i | 0 <= i < |rest| - 1
      ensures v.node(rest[i]).Ok? && v.node(rest[i]).value.kind.Directory?
              && rest[i + 1] in v.node(rest[i]).value.kids
    {
      assert rest[i] == path[i + 1] && rest[i + 1] == path[i + 2];
    }
  }

  lemma JoinPaths(v: View, p: seq<nat>, q: seq<nat>)
    requires IsPath(v, p) && IsPath(v, q) && p[|p| - 1] == q[0]
    ensures IsPath(v, p + q[1..]) && (p + q[1..])[|p + q[1..]| - 1] == q[|q| - 1]
  {
    var r := p + q[1..];
    forall i | 0 <= i < |r| - 1
      ensures v.node(r[i]).Ok? && v.node(r[i]).value.kind.Directory? && r[i + 1] in v.node(r[i]).value.kids
    {
      if i < |p| - 1 {
        assert r[i] == p[i] && r[i + 1] == p[i + 1];
      } else {
        assert r[i] == q[i - |p| + 1] && r[i + 1] == q[i - |p| + 2];
      }
    }
  }

  /** Round a loop as often as it takes. */
  lemma {:induction false} PathRound(v: View, p: seq<nat>, loop: seq<nat>, n: nat) returns (r: seq<nat>)
    requires IsPath(v, p) && IsPath(v, loop) && |loop| > 1
    requires p[|p| - 1] == loop[0] == loop[|loop| - 1]
    ensures IsPath(v, r) && r[0] == p[0] && |r| > n && r[|r| - 1] == loop[0]
    decreases n
  {
    if n == 0 {
      r := p;
    } else {
      var shorter := PathRound(v, p, loop, n - 1);
      JoinPaths(v, shorter, loop);
      r := shorter + loop[1..];
    }
  }

  /** A volume whose root leads into a directory loop is never given a clean verdict. */
  lemma LoopRejected(v: View, owners: seq<nat>, p: seq<nat>, loop: seq<nat>)
    requires |owners| == v.total
    requires IsPath(v, p) && p[0] == v.root
    requires IsPath(v, loop) && |loop| > 1 && p[|p| - 1] == loop[0] == loop[|loop| - 1]
    ensures !Accepted(v, owners)
  {
    if Accepted(v, owners) {
      var table, tree := AcceptedTrees(v, owners);
      var long := PathRound(v, p, loop, DEPTH_MAX + 1);
      PathFits(v, tree, v.root, 0, 0, long);
    }
  }
}

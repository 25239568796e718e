/**
 The checker's forward walk, over a volume already decoded block by block: claiming
 the owner table, claiming everything below the root directory, and what a run that
 reports nothing says about the volume.
 */
module ReconTree {
  import opened Bytes

  const OWNER_VOID: nat := 0
  const OWNER_ARCHIVE: nat := 1
  const DEPTH_MAX: nat := 64

  datatype Kind = Directory | File | Unknown(code: nat)

  /** An inode as the walk sees it: the blocks it owns, in claiming order, and the inodes it names. */
  datatype Node = Node(dossier: nat, parent: nat, kind: Kind, own: seq<nat>, kids: seq<nat>)

  /** A volume as the walk sees it. Reading a block can fail. */
  datatype View = View(total: nat, reserved: nat, tableRoot: nat, tableDepth: nat, root: nat,
                       node: nat -> Result<Node>, index: nat -> Result<seq<nat>>)

  datatype Problem =
    | PastEnd(blk: nat)
    | Twice(blk: nat)
    | TooDeep
    | WrongParent(blk: nat, says: nat, named: nat)
    | BadType(blk: nat, code: nat)
    | TableLeaves(blk: nat)
    | TableTwice(blk: nat)
    | NotAllocated(blk: nat)
    | NotReachable(blk: nat)
    | WrongOwner(blk: nat, table: nat, walked: nat)
    | NoSuchName
    | ManyNames(count: nat)
    | NotWhole
    | Unreadable

  /** held: what the forward walk says owns each block, zero for nobody yet. */
  datatype State = State(held: seq<nat>, problems: seq<Problem>, inodes: nat)

  function Report(s: State, p: Problem): State
  {
    s.(problems := s.problems + [p])
  }

  // --- Claiming ---

  datatype Claim = Claim(blk: nat, owner: nat)

  function Claim1(s: State, c: Claim): State
  {
    if c.blk >= |s.held| then Report(s, PastEnd(c.blk))
    else if s.held[c.blk] != 0 then Report(s, Twice(c.blk))
    else s.(held := s.held[c.blk := c.owner])
  }

  function ClaimAll(s: State, cs: seq<Claim>): State
    decreases |cs|
  {
    if cs == [] then s else ClaimAll(Claim1(s, cs[0]), cs[1..])
  }

  function Owned(blks: seq<nat>, owner: nat): (cs: seq<Claim>)
    ensures |cs| == |blks|
    ensures forall i {:trigger cs[i]} :: 0 <= i < |cs| ==> cs[i] == Claim(blks[i], owner)
  {
    seq(|blks|, i requires 0 <= i < |blks| => Claim(blks[i], owner))
  }

  // --- The owner table's own blocks ---

  function ClaimTable(v: View, s: State, node: nat, depth: nat): Result<State>
    decreases depth, 0
  {
    if node >= |s.held| then Ok(Report(s, TableLeaves(node)))
    else if s.held[node] != 0 then Ok(Report(s, TableTwice(node)))
    else
      var s1 := s.(held := s.held[node := OWNER_ARCHIVE]);
      if depth == 0 then Ok(s1)
      else
        var slots :- v.index(node);
        ClaimTables(v, s1, NonZero(slots), depth - 1)
  }

  function ClaimTables(v: View, s: State, nodes: seq<nat>, depth: nat): Result<State>
    decreases depth, |nodes| + 1
  {
    if nodes == [] then Ok(s)
    else
      var s1 :- ClaimTable(v, s, nodes[0], depth);
      ClaimTables(v, s1, nodes[1..], depth)
  }

  // --- The directory tree ---

  function Levels(depth: nat): nat
  {
    if depth > DEPTH_MAX then 0 else DEPTH_MAX + 1 - depth
  }

  /** Total on every volume, cyclic ones included: the depth bound is the measure. */
  function Walk(v: View, s: State, blk: nat, parent: nat, owner: nat, depth: nat): Result<State>
    decreases Levels(depth), 0
  {
    if depth > DEPTH_MAX then Ok(Report(s, TooDeep))
    else
      var s1 := Claim1(s, Claim(blk, owner));
      var n :- v.node(blk);
      var s2 := s1.(inodes := s1.inodes + 1);
      var s3 := if n.parent != parent then Report(s2, WrongParent(blk, n.parent, parent)) else s2;
      match n.kind
      case Directory => WalkAll(v, ClaimAll(s3, Owned(n.own, n.dossier)), n.kids, n.dossier, depth + 1)
      case File => Ok(ClaimAll(s3, Owned(n.own, n.dossier)))
      case Unknown(code) => Ok(Report(s3, BadType(blk, code)))
  }

  function WalkAll(v: View, s: State, blks: seq<nat>, dossier: nat, depth: nat): Result<State>
    decreases Levels(depth), |blks| + 1
  {
    if blks == [] then Ok(s)
    else
      var s1 :- Walk(v, s, blks[0], dossier, dossier, depth);
      WalkAll(v, s1, blks[1..], dossier, depth)
  }

  /** Both superblocks and the run between them, claimed before anything else. */
  function Start(v: View): State
  {
    State(seq(v.total, b => if b < v.reserved then OWNER_ARCHIVE else 0), [], 0)
  }

  function Forward(v: View): Result<State>
  {
    var s :- ClaimTable(v, Start(v), v.tableRoot, v.tableDepth);
    Walk(v, s, v.root, 0, OWNER_ARCHIVE, 0)
  }

  // --- The comparison, block for block ---

  function Disagreement(b: nat, a: nat, e: nat): seq<Problem>
  {
    if a == e then []
    else if a == OWNER_VOID then [NotAllocated(b)]
    else if e == 0 then [NotReachable(b)]
    else [WrongOwner(b, a, e)]
  }

  function Compare(actual: seq<nat>, held: seq<nat>, n: nat): seq<Problem>
    requires n <= |actual| && n <= |held|
  {
    if n == 0 then [] else Compare(actual, held, n - 1) + Disagreement(n - 1, actual[n - 1], held[n - 1])
  }

  lemma {:induction false} CompareClean(actual: seq<nat>, held: seq<nat>, n: nat)
    requires n <= |actual| && n <= |held|
    ensures Compare(actual, held, n) == [] <==> actual[..n] == held[..n]
  {
    if n > 0 {
      CompareClean(actual, held, n - 1);
      SamePrefix(actual, held, n);
    }
  }

  lemma SamePrefix(s: seq<nat>, t: seq<nat>, n: nat)
    requires 0 < n <= |s| && n <= |t|
    ensures s[..n] == t[..n] <==> s[..n - 1] == t[..n - 1] && s[n - 1] == t[n - 1]
  {
    assert s[..n] == s[..n - 1] + [s[n - 1]];
    assert t[..n] == t[..n - 1] + [t[n - 1]];
  }

  /** What the comparison says of block b, for each of the three things it can say. */
  lemma {:induction false} CompareSays(actual: seq<nat>, held: seq<nat>, n: nat, b: nat, a: nat, e: nat)
    requires n <= |actual| && n <= |held|
    ensures NotAllocated(b) in Compare(actual, held, n) <==> b < n && actual[b] == 0 && held[b] != 0
    ensures NotReachable(b) in Compare(actual, held, n) <==> b < n && actual[b] != 0 && held[b] == 0
    ensures WrongOwner(b, a, e) in Compare(actual, held, n) <==>
            b < n && actual[b] == a && held[b] == e && a != 0 && e != 0 && a != e
  {
    if n > 0 { CompareSays(actual, held, n - 1, b, a, e); }
  }

  // --- What a list of claims does ---

  /** Each claim in turn finds its block on the volume and unclaimed. */
  ghost predicate Fits(held: seq<nat>, cs: seq<Claim>)
    decreases |cs|
  {
    cs == [] || (cs[0].blk < |held| && held[cs[0].blk] == 0 && Fits(held[cs[0].blk := cs[0].owner], cs[1..]))
  }

  ghost function Mark(held: seq<nat>, cs: seq<Claim>): (r: seq<nat>)
    ensures |r| == |held|
    decreases |cs|
  {
    if cs == [] then held
    else if cs[0].blk < |held| then Mark(held[cs[0].blk := cs[0].owner], cs[1..])
    else Mark(held, cs[1..])
  }

  /** A run of claims reports nothing exactly when they fit, and then it has marked them. */
  lemma {:induction false} ClaimAllClean(s: State, cs: seq<Claim>)
    ensures var r := ClaimAll(s, cs);
            && s.problems <= r.problems && |r.held| == |s.held| && r.inodes == s.inodes
            && (r.problems == s.problems <==> Fits(s.held, cs))
            && (Fits(s.held, cs) ==> r.held == Mark(s.held, cs))
    decreases |cs|
  {
    if cs != [] { ClaimAllClean(Claim1(s, cs[0]), cs[1..]); }
  }

  /** The first owner other than zero that claims a block, or zero if none does. */
  ghost function FirstOwner(cs: seq<Claim>, b: nat): nat
  {
    if cs == [] then 0 else if cs[0].blk == b && cs[0].owner != 0 then cs[0].owner else FirstOwner(cs[1..], b)
  }

  /** Whether they fit or not, a block goes to the first that claims it, and a later claim changes nothing. */
  lemma {:induction false} FirstClaimStands(s: State, cs: seq<Claim>, b: nat)
    requires b < |s.held|
    ensures |ClaimAll(s, cs).held| == |s.held|
    ensures ClaimAll(s, cs).held[b] == if s.held[b] != 0 then s.held[b] else FirstOwner(cs, b)
    decreases |cs|
  {
    if cs != [] { FirstClaimStands(Claim1(s, cs[0]), cs[1..], b); }
  }

  lemma {:induction false} ClaimAllAppend(s: State, a: seq<Claim>, b: seq<Claim>)
    ensures ClaimAll(s, a + b) == ClaimAll(ClaimAll(s, a), b)
    decreases |a|
  {
    if a == [] {
      assert a + b == b;
    } else {
      assert (a + b)[1..] == a[1..] + b;
      ClaimAllAppend(Claim1(s, a[0]), a[1..], b);
    }
  }

  lemma {:induction false} FitsAppend(held: seq<nat>, a: seq<Claim>, b: seq<Claim>)
    ensures Fits(held, a + b) <==> Fits(held, a) && Fits(Mark(held, a), b)
    ensures Mark(held, a + b) == Mark(Mark(held, a), b)
    decreases |a|
  {
    if a == [] {
      assert a + b == b;
    } else {
      assert (a + b)[1..] == a[1..] + b;
      var next := if a[0].blk < |held| then held[a[0].blk := a[0].owner] else held;
      FitsAppend(next, a[1..], b);
    }
  }

  // --- The trees a volume represents ---

  /** An owner table, index blocks above leaves. */
  datatype Table = Table(blk: nat, kids: seq<Table>)

  ghost predicate IsTable(v: View, t: Table, blk: nat, depth: nat)
    decreases t, 1
  {
    && t.blk == blk
    && (if depth == 0 then t.kids == []
        else v.index(blk).Ok? && AreTables(v, t.kids, NonZero(v.index(blk).value), depth - 1))
  }

  ghost predicate AreTables(v: View, ts: seq<Table>, blks: seq<nat>, depth: nat)
    decreases ts, 0
  {
    if blks == [] then ts == []
    else ts != [] && IsTable(v, ts[0], blks[0], depth) && AreTables(v, ts[1..], blks[1..], depth)
  }

  ghost function TableClaims(t: Table): seq<Claim>
    decreases t, 1
  {
    [Claim(t.blk, OWNER_ARCHIVE)] + TablesClaims(t.kids)
  }

  ghost function TablesClaims(ts: seq<Table>): seq<Claim>
    decreases ts, 0
  {
    if ts == [] then [] else TableClaims(ts[0]) + TablesClaims(ts[1..])
  }

  /** A directory tree. */
  datatype Tree = Tree(blk: nat, node: Node, kids: seq<Tree>)

  /** Every inode readable, of a known type, naming the right parent, and no deeper than the limit. */
  ghost predicate IsTree(v: View, t: Tree, blk: nat, parent: nat, depth: nat)
    decreases t, 1
  {
    && depth <= 64
    && t.blk == blk
    && v.node(blk) == Ok(t.node)
    && t.node.parent == parent
    && match t.node.kind
       case Directory => AreTrees(v, t.kids, t.node.kids, t.node.dossier, depth + 1)
       case File => t.kids == []
       case Unknown(_) => false
  }

  ghost predicate AreTrees(v: View, ts: seq<Tree>, blks: seq<nat>, parent: nat, depth: nat)
    decreases ts, 0
  {
    if blks == [] then ts == []
    else ts != [] && IsTree(v, ts[0], blks[0], parent, depth) && AreTrees(v, ts[1..], blks[1..], parent, depth)
  }

  /** Everything a tree reaches, with the owner that reaches it. */
  ghost function TreeClaims(t: Tree, owner: nat): seq<Claim>
    decreases t, 1
  {
    [Claim(t.blk, owner)] + (Owned(t.node.own, t.node.dossier) + TreesClaims(t.kids, t.node.dossier))
  }

  ghost function TreesClaims(ts: seq<Tree>, owner: nat): seq<Claim>
    decreases ts, 0
  {
    if ts == [] then [] else TreeClaims(ts[0], owner) + TreesClaims(ts[1..], owner)
  }

  ghost function Count(t: Tree): nat
    decreases t, 1
  {
    1 + CountAll(t.kids)
  }

  ghost function CountAll(ts: seq<Tree>): nat
    decreases ts, 0
  {
    if ts == [] then 0 else Count(ts[0]) + CountAll(ts[1..])
  }

  // --- The walk of a tree is its list of claims ---

  lemma ClaimAllCount(s: State, cs: seq<Claim>, n: nat)
    ensures ClaimAll(s.(inodes := n), cs) == ClaimAll(s, cs).(inodes := n)
    decreases |cs|
  {
    if cs != [] {
      assert Claim1(s.(inodes := n), cs[0]) == Claim1(s, cs[0]).(inodes := n);
      ClaimAllCount(Claim1(s, cs[0]), cs[1..], n);
    }
  }

  ghost function Run(s: State, cs: seq<Claim>, count: nat): State
  {
    ClaimAll(s, cs).(inodes := s.inodes + count)
  }

  lemma RunAppend(s: State, a: seq<Claim>, m: nat, b: seq<Claim>, n: nat)
    ensures Run(Run(s, a, m), b, n) == Run(s, a + b, m + n)
  {
    ClaimAllAppend(s, a, b);
    ClaimAllClean(s, a);
    ClaimAllCount(ClaimAll(s, a), b, s.inodes + m);
  }

  lemma {:induction false} WalkOfTree(v: View, s: State, t: Tree, blk: nat, parent: nat, owner: nat, depth: nat)
    requires IsTree(v, t, blk, parent, depth)
    ensures Walk(v, s, blk, parent, owner, depth) == Ok(Run(s, TreeClaims(t, owner), Count(t)))
    decreases t, 1
  {
    var n := t.node;
    var first, mine := [Claim(blk, owner)], Owned(n.own, n.dossier);
    var s2 := Run(s, first, 1);
    assert ClaimAll(s, first) == Claim1(s, first[0]) by { assert first[1..] == []; }
    RunAppend(s, first, 1, mine, 0);
    if n.kind.Directory? {
      WalkOfTrees(v, ClaimAll(s2, mine), t.kids, n.kids, n.dossier, depth + 1);
      ClaimAllClean(s2, mine);
      RunAppend(s, first + mine, 1, TreesClaims(t.kids, n.dossier), CountAll(t.kids));
      assert (first + mine) + TreesClaims(t.kids, n.dossier) == TreeClaims(t, owner);
    } else {
      ClaimAllClean(s2, mine);
      assert first + mine == TreeClaims(t, owner);
    }
  }

  lemma {:induction false} WalkOfTrees(v: View, s: State, ts: seq<Tree>, blks: seq<nat>, dossier: nat, depth: nat)
    requires AreTrees(v, ts, blks, dossier, depth)
    ensures WalkAll(v, s, blks, dossier, depth) == Ok(Run(s, TreesClaims(ts, dossier), CountAll(ts)))
    decreases ts, 0
  {
    if blks != [] {
      WalkOfTree(v, s, ts[0], blks[0], dossier, dossier, depth);
      var s1 := Run(s, TreeClaims(ts[0], dossier), Count(ts[0]));
      WalkOfTrees(v, s1, ts[1..], blks[1..], dossier, depth);
      RunAppend(s, TreeClaims(ts[0], dossier), Count(ts[0]), TreesClaims(ts[1..], dossier), CountAll(ts[1..]));
    }
  }

  // --- A walk only ever adds problems, and a silent one has found a tree ---

  lemma {:induction false} WalkGrows(v: View, s: State, blk: nat, parent: nat, owner: nat, depth: nat)
    requires Walk(v, s, blk, parent, owner, depth).Ok?
    ensures var r := Walk(v, s, blk, parent, owner, depth).value;
            s.problems <= r.problems && |r.held| == |s.held|
    decreases Levels(depth), 0
  {
    if depth <= DEPTH_MAX {
      var n := v.node(blk).value;
      var s2 := Claim1(s, Claim(blk, owner)).(inodes := s.inodes + 1);
      var s3 := if n.parent != parent then Report(s2, WrongParent(blk, n.parent, parent)) else s2;
      ClaimAllClean(s3, Owned(n.own, n.dossier));
      if n.kind.Directory? { WalkAllGrows(v, ClaimAll(s3, Owned(n.own, n.dossier)), n.kids, n.dossier, depth + 1); }
    }
  }

  lemma {:induction false} WalkAllGrows(v: View, s: State, blks: seq<nat>, dossier: nat, depth: nat)
    requires WalkAll(v, s, blks, dossier, depth).Ok?
    ensures var r := WalkAll(v, s, blks, dossier, depth).value;
            s.problems <= r.problems && |r.held| == |s.held|
    decreases Levels(depth), |blks| + 1
  {
    if blks != [] {
      WalkGrows(v, s, blks[0], dossier, dossier, depth);
      WalkAllGrows(v, Walk(v, s, blks[0], dossier, dossier, depth).value, blks[1..], dossier, depth);
    }
  }

  lemma {:induction false} SilentWalk(v: View, s: State, blk: nat, parent: nat, owner: nat, depth: nat)
    returns (t: Tree)
    requires Walk(v, s, blk, parent, owner, depth).Ok?
    requires Walk(v, s, blk, parent, owner, depth).value.problems == s.problems
    ensures IsTree(v, t, blk, parent, depth)
    decreases Levels(depth), 0
  {
    var n := v.node(blk).value;
    var s2 := Claim1(s, Claim(blk, owner)).(inodes := s.inodes + 1);
    var s3 := if n.parent != parent then Report(s2, WrongParent(blk, n.parent, parent)) else s2;
    var s4 := ClaimAll(s3, Owned(n.own, n.dossier));
    ClaimAllClean(s3, Owned(n.own, n.dossier));
    if n.kind.Directory? {
      WalkAllGrows(v, s4, n.kids, n.dossier, depth + 1);
      var kids := SilentWalkAll(v, s4, n.kids, n.dossier, depth + 1);
      t := Tree(blk, n, kids);
    } else {
      t := Tree(blk, n, []);
    }
  }

  lemma {:induction false} SilentWalkAll(v: View, s: State, blks: seq<nat>, dossier: nat, depth: nat)
    returns (ts: seq<Tree>)
    requires WalkAll(v, s, blks, dossier, depth).Ok?
    requires WalkAll(v, s, blks, dossier, depth).value.problems == s.problems
    ensures AreTrees(v, ts, blks, dossier, depth)
    decreases Levels(depth), |blks| + 1
  {
    if blks == [] {
      ts := [];
    } else {
      var s1 := Walk(v, s, blks[0], dossier, dossier, depth).value;
      WalkGrows(v, s, blks[0], dossier, dossier, depth);
      WalkAllGrows(v, s1, blks[1..], dossier, depth);
      var t := SilentWalk(v, s, blks[0], dossier, dossier, depth);
      var rest := SilentWalkAll(v, s1, blks[1..], dossier, depth);
      ts := [t] + rest;
      assert ts[1..] == rest;
    }
  }

  // --- The same for the owner table ---

  lemma {:induction false} TableGrows(v: View, s: State, node: nat, depth: nat)
    requires ClaimTable(v, s, node, depth).Ok?
    ensures var r := ClaimTable(v, s, node, depth).value; s.problems <= r.problems && |r.held| == |s.held|
    decreases depth, 0
  {
    if node < |s.held| && s.held[node] == 0 && depth > 0 {
      TablesGrow(v, s.(held := s.held[node := OWNER_ARCHIVE]), NonZero(v.index(node).value), depth - 1);
    }
  }

  lemma {:induction false} TablesGrow(v: View, s: State, nodes: seq<nat>, depth: nat)
    requires ClaimTables(v, s, nodes, depth).Ok?
    ensures var r := ClaimTables(v, s, nodes, depth).value; s.problems <= r.problems && |r.held| == |s.held|
    decreases depth, |nodes| + 1
  {
    if nodes != [] {
      TableGrows(v, s, nodes[0], depth);
      TablesGrow(v, ClaimTable(v, s, nodes[0], depth).value, nodes[1..], depth);
    }
  }

  lemma {:induction false} TableOfTree(v: View, s: State, t: Table, node: nat, depth: nat)
    requires IsTable(v, t, node, depth) && Fits(s.held, TableClaims(t))
    ensures ClaimTable(v, s, node, depth) == Ok(s.(held := Mark(s.held, TableClaims(t))))
    decreases t, 1
  {
    var s1 := s.(held := s.held[node := OWNER_ARCHIVE]);
    assert TableClaims(t)[1..] == TablesClaims(t.kids);
    if depth > 0 { TablesOfTrees(v, s1, t.kids, NonZero(v.index(node).value), depth - 1); }
  }

  lemma {:induction false} TablesOfTrees(v: View, s: State, ts: seq<Table>, nodes: seq<nat>, depth: nat)
    requires AreTables(v, ts, nodes, depth) && Fits(s.held, TablesClaims(ts))
    ensures ClaimTables(v, s, nodes, depth) == Ok(s.(held := Mark(s.held, TablesClaims(ts))))
    decreases ts, 0
  {
    if nodes != [] {
      FitsAppend(s.held, TableClaims(ts[0]), TablesClaims(ts[1..]));
      TableOfTree(v, s, ts[0], nodes[0], depth);
      TablesOfTrees(v, s.(held := Mark(s.held, TableClaims(ts[0]))), ts[1..], nodes[1..], depth);
    }
  }

  lemma {:induction false} SilentTable(v: View, s: State, node: nat, depth: nat) returns (t: Table)
    requires ClaimTable(v, s, node, depth).Ok?
    requires ClaimTable(v, s, node, depth).value.problems == s.problems
    ensures IsTable(v, t, node, depth) && Fits(s.held, TableClaims(t))
    decreases depth, 0
  {
    var s1 := s.(held := s.held[node := OWNER_ARCHIVE]);
    if depth == 0 {
      t := Table(node, []);
    } else {
      var kids := SilentTables(v, s1, NonZero(v.index(node).value), depth - 1);
      t := Table(node, kids);
    }
    assert TableClaims(t)[1..] == TablesClaims(t.kids);
  }

  lemma {:induction false} SilentTables(v: View, s: State, nodes: seq<nat>, depth: nat) returns (ts: seq<Table>)
    requires ClaimTables(v, s, nodes, depth).Ok?
    requires ClaimTables(v, s, nodes, depth).value.problems == s.problems
    ensures AreTables(v, ts, nodes, depth) && Fits(s.held, TablesClaims(ts))
    decreases depth, |nodes| + 1
  {
    if nodes == [] {
      ts := [];
    } else {
      var s1 := ClaimTable(v, s, nodes[0], depth).value;
      TableGrows(v, s, nodes[0], depth);
      TablesGrow(v, s1, nodes[1..], depth);
      var t := SilentTable(v, s, nodes[0], depth);
      TableOfTree(v, s, t, nodes[0], depth);
      var rest := SilentTables(v, s1, nodes[1..], depth);
      ts := [t] + rest;
      assert ts[1..] == rest;
      FitsAppend(s.held, TableClaims(t), TablesClaims(rest));
    }
  }
}

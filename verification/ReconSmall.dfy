/** Volumes small enough to know in full, and what the check says of them. */
module ReconSmall {
  import opened Bytes
  import opened Arith
  import opened ReconImage
  import opened ReconTree
  import opened ReconVerdict
  import opened ReconCheck
  import opened ReconBlocks

  // --- Claims ---

  /** A few blocks past the superblocks, claimed once each, and an owner table that says so and nothing else. */
  ghost predicate Few(view: View, few: seq<Claim>, words: seq<nat>)
  {
    && view.reserved <= view.total == |words| && Distinct(few)
    && (forall i :: 0 <= i < |few| ==> view.reserved <= few[i].blk < view.total && words[few[i].blk] == few[i].owner)
    && (forall b :: 0 <= b < view.reserved ==> words[b] == OWNER_ARCHIVE)
    && (forall b :: view.reserved <= b < view.total && !Claims(few, b) ==> words[b] == 0)
  }

  lemma FewRecorded(view: View, few: seq<Claim>, words: seq<nat>)
    requires Few(view, few, words)
    ensures var cs := SuperClaims(view) + few;
            Distinct(cs) && Free(Unclaimed(view.total), cs) && Records(Unclaimed(view.total), cs, words)
  {
    var supers := SuperClaims(view);
    var cs := supers + few;
    assert |supers| == view.reserved && forall i :: 0 <= i < |supers| ==> supers[i] == Claim(i, OWNER_ARCHIVE);
    hide SuperClaims;
    forall i | 0 <= i < |cs|
      ensures cs[i] == if i < view.reserved then Claim(i, OWNER_ARCHIVE) else few[i - view.reserved]
    {
    }
    forall b | 0 <= b < view.total && !Claims(cs, b) ensures words[b] == 0 {
      assert b < view.reserved ==> cs[b].blk == b;
      forall i | 0 <= i < |few| ensures few[i].blk != b { assert cs[view.reserved + i] == few[i]; }
    }
  }

  lemma RecordsOnce(held: seq<nat>, cs: seq<Claim>, a: seq<nat>, b: seq<nat>)
    requires Records(held, cs, a) && Records(held, cs, b)
    ensures a == b
  {
    forall i | 0 <= i < |held| ensures a[i] == b[i] {
      if j :| 0 <= j < |cs| && cs[j].blk == i { assert a[cs[j].blk] == b[cs[j].blk]; }
    }
  }

  /** Claiming for nobody changes nothing and is never refused twice. */
  lemma {:induction false} OwnedByNobody(held: seq<nat>, blks: seq<nat>)
    requires forall i :: 0 <= i < |blks| ==> blks[i] < |held| && held[blks[i]] == 0
    ensures Fits(held, Owned(blks, 0)) && Mark(held, Owned(blks, 0)) == held
    decreases |blks|
  {
    if blks != [] {
      var cs := Owned(blks, 0);
      assert held[blks[0] := 0] == held;
      assert cs[1..] == Owned(blks[1..], 0);
      OwnedByNobody(held, blks[1..]);
    }
  }

  /** The claims fit, and leave the owner table, when all are among the few or are made for nobody on void blocks. */
  lemma FewFit(view: View, few: seq<Claim>, words: seq<nat>, free: seq<nat>)
    requires Few(view, few, words) && forall i :: 0 <= i < |free| ==> free[i] < view.total && words[free[i]] == 0
    ensures var cs := (SuperClaims(view) + few) + Owned(free, 0);
            Fits(Unclaimed(view.total), cs) && Mark(Unclaimed(view.total), cs) == words
  {
    var cs := SuperClaims(view) + few;
    FewRecorded(view, few, words);
    FitsFrom(Unclaimed(view.total), cs);
    RecordsOnce(Unclaimed(view.total), cs, Mark(Unclaimed(view.total), cs), words);
    OwnedByNobody(words, free);
    FitsAppend(Unclaimed(view.total), cs, Owned(free, 0));
  }

  // --- Reading ---

  /** A table of one leaf is that leaf's words. */
  lemma OneLeaf(v: Volume, words: seq<nat>)
    requires Sized(v) && v.super.tableDepth == 0 && |words| == v.super.total <= PerIndex(v)
    requires Block(v, v.super.tableRoot) == Ok(LeafOf(words, v.bs))
    requires forall b :: 0 <= b < |words| ==> words[b] < 256
    ensures Owners(v) == Ok(words)
  {
    hide LeafOf, Words, Block;
    forall b: nat | b < v.super.total ensures EntryAt(v, b) == Ok(words[b]) {
      LeafReads(words, v.bs, b);
      LeafAlone(v);
      FirstLeaf(b, PerIndex(v));
    }
    hide EntryAt;
    assert Owners(v).Ok?;
    forall b: nat | b < v.super.total ensures Owners(v).value[b] == words[b] {
      assert EntryAt(v, b) == Ok(Owners(v).value[b]);
    }
    assert Owners(v).value == words;
  }

  lemma FirstLeaf(b: nat, per: nat)
    requires b < per
    ensures Quot(b, per) == 0 && Rem(b, per) == b
  {
  }

  lemma LeafAlone(v: Volume)
    requires Sized(v) && v.super.tableDepth == 0
    ensures LeafBlock(v, 0) == Ok(v.super.tableRoot)
  {
    assert Digits(0, PerIndex(v), 0) == [];
  }

  /** An inode without slots or inline bytes is an empty directory. */
  lemma EmptyDirectory(v: Volume, ino: Inode)
    requires ino.inlineLen == 0 && ino.direct == Slots(0, 0)
    ensures DirEntries(v, ino) == Ok([]) && DirOwn(ino) == []
  {
    SlotsUsed(0, 0);
    assert NonZero(ino.direct) == [];
    assert BlocksAt(v, []) == Ok([]);
    assert AllEntries([]) == Ok([]);
  }

  // --- A volume with an empty root ---

  /** Nothing on the volume but its superblocks, one leaf and a root directory with nothing in it. */
  ghost predicate EmptyVolume(v: Volume, root: Inode, words: seq<nat>)
    requires Sized(v)
  {
    && v.super.tableDepth == 0 && Owners(v) == Ok(words)
    && ReadInode(v, v.super.root) == Ok(root) && root.kind == TYPE_DIR && root.parent == 0
    && root.inlineLen == 0 && root.direct == Slots(0, 0)
    && Few(ViewOf(v), [Claim(v.super.tableRoot, OWNER_ARCHIVE), Claim(v.super.root, OWNER_ARCHIVE)], words)
  }

  lemma EmptyClaims(view: View, table: Table, tree: Tree)
    requires table.kids == [] && tree.node.own == [] && tree.kids == []
    ensures AllClaims(view, table, tree) ==
            (SuperClaims(view) + [Claim(table.blk, OWNER_ARCHIVE), Claim(tree.blk, OWNER_ARCHIVE)]) + Owned([], 0)
  {
    hide SuperClaims;
    assert TableClaims(table) == [Claim(table.blk, OWNER_ARCHIVE)];
    assert TreeClaims(tree, OWNER_ARCHIVE) == [Claim(tree.blk, OWNER_ARCHIVE)];
  }

  lemma EmptyPasses(v: Volume, root: Inode, words: seq<nat>, key: seq<Byte> -> string)
    requires Sized(v) && EmptyVolume(v, root, words)
    ensures VolumePasses(v, None, key)
  {
    var view := ViewOf(v);
    var table := Table(v.super.tableRoot, []);
    var tree := Tree(v.super.root, Node(root.dossier, 0, Directory, [], []), []);
    EmptyDirectory(v, root);
    assert IsTree(view, tree, view.root, 0, 0);
    EmptyClaims(view, table, tree);
    FewFit(view, [Claim(v.super.tableRoot, OWNER_ARCHIVE), Claim(v.super.root, OWNER_ARCHIVE)], words, []);
    hide SuperClaims, Few, Fits, Mark, AllClaims, Accepted;
    VerdictOf(view, words, table, tree);
  }

  // --- A volume with one file ---

  /** A root directory that names one file, and the file's inode. */
  ghost predicate OneFile(v: Volume, root: Inode, name: seq<Byte>, m: nat, file: Inode, words: seq<nat>)
    requires Sized(v)
  {
    && v.super.tableDepth == 0 && Owners(v) == Ok(words)
    && ReadInode(v, v.super.root) == Ok(root) && root.kind == TYPE_DIR && root.parent == 0 && root.inlineLen != 0
    && DirEntries(v, root) == Ok([Entry(name, m, TYPE_FILE)])
    && ReadInode(v, m) == Ok(file) && file.kind == TYPE_FILE && file.parent == root.dossier
    && file.inlineLen == 0 && file.indirect == 0
  }

  ghost function FileTree(v: Volume, root: Inode, m: nat, file: Inode): Tree
  {
    Tree(v.super.root, Node(root.dossier, 0, Directory, [], [m]),
         [Tree(m, Node(file.dossier, root.dossier, File, NonZero(file.direct), []), [])])
  }

  lemma FileTreeIs(v: Volume, root: Inode, name: seq<Byte>, m: nat, file: Inode, words: seq<nat>)
    requires Sized(v) && OneFile(v, root, name, m, file, words)
    ensures IsTree(ViewOf(v), FileTree(v, root, m, file), v.super.root, 0, 0)
  {
    var view, tree := ViewOf(v), FileTree(v, root, m, file);
    assert ChildrenOf([Entry(name, m, TYPE_FILE)]) == [m];
    assert view.node(v.super.root) == Ok(tree.node);
    assert view.node(m) == Ok(tree.kids[0].node);
    assert IsTree(view, tree.kids[0], m, root.dossier, 1);
    assert AreTrees(view, [], [], root.dossier, 1);
    assert tree.kids[1..] == [] && tree.node.kids[1..] == [];
    assert AreTrees(view, tree.kids, tree.node.kids, root.dossier, 1);
  }

  lemma FileClaims(v: Volume, root: Inode, m: nat, file: Inode)
    requires Sized(v)
    ensures AllClaims(ViewOf(v), Table(v.super.tableRoot, []), FileTree(v, root, m, file)) ==
            (SuperClaims(ViewOf(v)) + [Claim(v.super.tableRoot, OWNER_ARCHIVE), Claim(v.super.root, OWNER_ARCHIVE),
                                       Claim(m, root.dossier)])
            + Owned(NonZero(file.direct), file.dossier)
  {
    hide SuperClaims, ViewOf;
    var tree := FileTree(v, root, m, file);
    var kid := tree.kids[0];
    var own := Owned(NonZero(file.direct), file.dossier);
    assert TableClaims(Table(v.super.tableRoot, [])) == [Claim(v.super.tableRoot, OWNER_ARCHIVE)];
    assert TreeClaims(kid, root.dossier) == [Claim(m, root.dossier)] + own;
    assert tree.kids[1..] == [];
    assert TreesClaims(tree.kids, root.dossier) == TreeClaims(kid, root.dossier) + TreesClaims([], root.dossier);
    assert TreeClaims(tree, OWNER_ARCHIVE) == [Claim(v.super.root, OWNER_ARCHIVE)] + ([Claim(m, root.dossier)] + own);
  }

  /** The first claims on such a volume: the leaf, the root and the file's inode. */
  ghost function Fixed(v: Volume, root: Inode, m: nat): seq<Claim>
  {
    [Claim(v.super.tableRoot, OWNER_ARCHIVE), Claim(v.super.root, OWNER_ARCHIVE), Claim(m, root.dossier)]
  }

  /** A numbered file of one block, rightly entered: the volume is accepted. */
  lemma NumberedFileAccepted(v: Volume, root: Inode, name: seq<Byte>, m: nat, file: Inode, w: nat, words: seq<nat>)
    requires Sized(v) && OneFile(v, root, name, m, file, words) && NonZero(file.direct) == [w]
    requires Few(ViewOf(v), Fixed(v, root, m) + [Claim(w, file.dossier)], words)
    ensures Accepted(ViewOf(v), words)
  {
    var view, table, tree := ViewOf(v), Table(v.super.tableRoot, []), FileTree(v, root, m, file);
    FileTreeIs(v, root, name, m, file, words);
    FileClaims(v, root, m, file);
    hide SuperClaims, Few, Fits, Mark, AllClaims, Accepted, ViewOf, Owned, IsTree, FileTree;
    FewFit(view, Fixed(v, root, m) + [Claim(w, file.dossier)], words, []);
    LastClaim(SuperClaims(view), Fixed(v, root, m), w, file.dossier);
    VerdictOf(view, words, table, tree);
  }

  lemma LastClaim(a: seq<Claim>, b: seq<Claim>, w: nat, owner: nat)
    ensures (a + (b + [Claim(w, owner)])) + Owned([], 0) == (a + b) + Owned([w], owner)
  {
    assert Owned([w], owner) == [Claim(w, owner)];
  }

  /** A file numbered zero, whatever void blocks it lists and however often: the volume is accepted too. */
  lemma UnnumberedFileAccepted(v: Volume, root: Inode, name: seq<Byte>, m: nat, file: Inode, words: seq<nat>)
    requires Sized(v) && OneFile(v, root, name, m, file, words) && file.dossier == 0
    requires Few(ViewOf(v), Fixed(v, root, m), words)
    requires forall i :: 0 <= i < |NonZero(file.direct)| ==>
               NonZero(file.direct)[i] < v.super.total && words[NonZero(file.direct)[i]] == 0
    ensures Accepted(ViewOf(v), words)
  {
    var view, table, tree := ViewOf(v), Table(v.super.tableRoot, []), FileTree(v, root, m, file);
    FileTreeIs(v, root, name, m, file, words);
    FileClaims(v, root, m, file);
    hide SuperClaims, Few, Fits, Mark, AllClaims, Accepted, ViewOf, Owned, IsTree, FileTree;
    FewFit(view, Fixed(v, root, m), words, NonZero(file.direct));
    VerdictOf(view, words, table, tree);
  }
}

/**
 The block index of src/chain.cpp: blocks point to their parent and, by BuildSkip,
 to one further ancestor. GetAncestor and LastCommonAncestor follow both kinds of
 pointers and are proved against the plain walk along parents.
 */
module BlockChain {

  import opened Powers
  import opened SkipList

  // --------------------------------------------------------------------- blocks

  /** The parent of path[h] is the block before it, and a skip pointer that is set names the ancestor it should. */
  ghost predicate Linked(path: seq<BlockIndex>, h: nat)
    requires h < |path|
    reads path
  {
    && path[h].nHeight == h && path[h].path == path[..h + 1]
    && path[h].pprev == (if h == 0 then null else path[h - 1])
    && (path[h].pskip != null ==> path[h].pskip == path[GetSkipHeight(h)])
  }

  /** A link depends on the path up to it only. */
  lemma LinkedPrefix(path: seq<BlockIndex>, longer: seq<BlockIndex>, h: nat)
    requires h < |path| && path <= longer
    ensures Linked(path, h) <==> Linked(longer, h)
  {
    assert path[..h + 1] == longer[..h + 1];
  }

  class BlockIndex {
    const nHeight: nat
    const pprev: BlockIndex?
    var pskip: BlockIndex?

    /** The naive walk to the root, reversed: path[h] is the ancestor at height h. */
    ghost const path: seq<BlockIndex>

    ghost predicate Valid()
      reads path
    {
      && |path| == nHeight + 1 && path[nHeight] == this
      && forall h | 0 <= h <= nHeight :: Linked(path, h)
    }

    constructor Genesis()
      ensures nHeight == 0 && pprev == null && path == [this] && Valid()
    {
      nHeight, pprev, pskip := 0, null, null;
      path := [this];
    }

    constructor Child(parent: BlockIndex)
      requires parent.Valid()
      ensures nHeight == parent.nHeight + 1 && pprev == parent && pskip == null && path == parent.path + [this]
      ensures Valid()
    {
      nHeight, pprev, pskip := parent.nHeight + 1, parent, null;
      path := parent.path + [this];
      new;
      ChildValid(parent, this);
    }

    /** Every block of the path but the root has its skip pointer. */
    ghost predicate Skipping()
      requires Valid()
      reads path
    {
      forall h | 0 < h <= nHeight :: path[h].pskip != null
    }

    /** The ancestor at a height, or null outside 0..nHeight, and the turns of the loop. */
    method GetAncestor(height: int) returns (r: BlockIndex?, ghost turns: nat)
      requires Valid()
      ensures r == if 0 <= height <= nHeight then path[height] else null
      ensures Skipping() ==> turns == if 0 <= height <= nHeight then Turns(nHeight, height) else 0
      ensures Skipping() ==> forall k: nat | nHeight < Pow(2, k) :: turns <= StepBound(k)
    {
      turns := 0;
      if height > nHeight || height < 0 { return null, turns; }
      var walk := this;
      var heightWalk := nHeight;
      while heightWalk > height
        invariant height <= heightWalk <= nHeight && walk == path[heightWalk]
        invariant Skipping() ==> turns + Turns(heightWalk, height) == Turns(nHeight, height)
      {
        assert Linked(path, heightWalk);
        var heightSkip := GetSkipHeight(heightWalk);
        var heightSkipPrev := GetSkipHeight(heightWalk - 1);
        if walk.pskip != null && TakesSkip(heightSkip, heightSkipPrev, height) {
          walk := walk.pskip;
          heightWalk := heightSkip;
        } else {
          assert walk.pprev != null;
          walk := walk.pprev;
          heightWalk := heightWalk - 1;
        }
        turns := turns + 1;
      }
      forall k: nat | Skipping() && nHeight < Pow(2, k) ensures turns <= StepBound(k) {
        TurnsBounded(nHeight, height, k);
      }
      return walk, turns;
    }

    method BuildSkip()
      requires Valid()
      modifies this`pskip
      ensures Valid() && pskip == if pprev == null then old(pskip) else path[GetSkipHeight(nHeight)]
    {
      if pprev != null {
        ParentValid(this);
        var r, _ := pprev.GetAncestor(GetSkipHeight(nHeight));
        pskip := r;
        forall h | 0 <= h <= nHeight ensures Linked(path, h) {
          assert old(Linked(path, h));
        }
      }
    }
  }

  lemma ChildValid(parent: BlockIndex, child: BlockIndex)
    requires parent.Valid() && child.nHeight == parent.nHeight + 1 && child.pprev == parent && child.pskip == null
    requires child.path == parent.path + [child]
    ensures child.Valid()
  {
    hide GetSkipHeight;
    forall h | 0 <= h <= parent.nHeight ensures Linked(child.path, h) { LinkedPrefix(parent.path, child.path, h); }
    assert child.path[..child.nHeight + 1] == child.path;
  }

  /** Ancestors of a valid block are valid. */
  lemma AncestorValid(b: BlockIndex, h: nat)
    requires b.Valid() && h <= b.nHeight
    ensures b.path[h].Valid()
  {
    hide GetSkipHeight;
    assert Linked(b.path, h);
    var path := b.path[..h + 1];
    forall j | 0 <= j < |path| ensures Linked(path, j) { LinkedPrefix(path, b.path, j); }
  }

  lemma ParentValid(b: BlockIndex)
    requires b.Valid() && b.pprev != null
    ensures b.pprev.Valid() && b.pprev.nHeight == b.nHeight - 1 && b.pprev.path == b.path[..b.nHeight]
  {
    assert Linked(b.path, b.nHeight) && (b.nHeight > 0 ==> Linked(b.path, b.nHeight - 1));
    AncestorValid(b, b.nHeight - 1);
  }

  /** Blocks that two paths share at one height are shared at every height below. */
  lemma SharedBelow(a: BlockIndex, b: BlockIndex, h: nat, j: nat)
    requires a.Valid() && b.Valid() && j <= h <= a.nHeight && h <= b.nHeight && a.path[h] == b.path[h]
    ensures a.path[j] == b.path[j]
  {
    assert Linked(a.path, h) && Linked(b.path, h);
    assert a.path[j] == a.path[..h + 1][j] && b.path[j] == b.path[..h + 1][j];
  }

  /** The last common ancestor: shared, and the paths part above it. */
  ghost predicate IsForkPoint(a: BlockIndex, b: BlockIndex, h: nat) {
    && h < |a.path| && h < |b.path| && a.path[h] == b.path[h]
    && forall j | h < j < |a.path| && j < |b.path| :: a.path[j] != b.path[j]
  }

  method LastCommonAncestor(a: BlockIndex, b: BlockIndex) returns (r: BlockIndex)
    requires a.Valid() && b.Valid() && a.path[0] == b.path[0]
    ensures r.nHeight < |a.path| && r == a.path[r.nHeight] && IsForkPoint(a, b, r.nHeight)
  {
    var pa: BlockIndex?, pb: BlockIndex? := a, b;
    if pa.nHeight > pb.nHeight {
      var r, _ := pa.GetAncestor(pb.nHeight);
      pa := r;
    } else if pb.nHeight > pa.nHeight {
      var r, _ := pb.GetAncestor(pa.nHeight);
      pb := r;
    }
    ghost var h := if a.nHeight < b.nHeight then a.nHeight else b.nHeight;
    while pa != pb && pa != null && pb != null
      invariant 0 <= h <= a.nHeight && h <= b.nHeight && pa == a.path[h] && pb == b.path[h]
      invariant forall j | h < j < |a.path| && j < |b.path| :: a.path[j] != b.path[j]
      decreases h
    {
      assert Linked(a.path, h) && Linked(b.path, h);
      if pa.pskip != null && pb.pskip != null && pa.pskip != pb.pskip {
        ghost var s := GetSkipHeight(h);
        Parted(a, b, s);
        pa, pb := pa.pskip, pb.pskip;
        assert pa.nHeight == pb.nHeight by { assert Linked(a.path, s) && Linked(b.path, s); }
        h := s;
      } else {
        pa, pb := pa.pprev, pb.pprev;
        h := h - 1;
      }
    }
    assert pa == pb;
    assert Linked(a.path, h);
    return pa;
  }

  /** Paths that differ at one height differ at every height above. */
  lemma Parted(a: BlockIndex, b: BlockIndex, s: nat)
    requires a.Valid() && b.Valid() && s <= a.nHeight && s <= b.nHeight && a.path[s] != b.path[s]
    ensures forall j | s <= j < |a.path| && j < |b.path| :: a.path[j] != b.path[j]
  {
    forall j | s <= j < |a.path| && j < |b.path| ensures a.path[j] != b.path[j] {
      if a.path[j] == b.path[j] { SharedBelow(a, b, j, s); }
    }
  }

  // ----------------------------------------------------------------------- trees

  /** A block tree: every block in it is valid, and all have the same root. */
  class BlockTree {
    const genesis: BlockIndex
    ghost var blocks: set<BlockIndex>

    ghost predicate Valid()
      reads this, blocks
    {
      && genesis in blocks
      && (forall b, p | b in blocks && p in b.path :: p in blocks)
      && (forall b | b in blocks :: b.Valid() && b.path[0] == genesis && b.Skipping())
    }

    constructor ()
      ensures Valid() && blocks == {genesis}
    {
      var g := new BlockIndex.Genesis();
      genesis := g;
      blocks := {g};
    }

    /** A new block on top of any block of the tree, with its skip pointer. */
    method Add(parent: BlockIndex) returns (b: BlockIndex)
      requires Valid() && parent in blocks
      modifies this
      ensures Valid() && blocks == old(blocks) + {b} && b !in old(blocks)
      ensures b.pprev == parent && b.pskip == b.path[GetSkipHeight(b.nHeight)] && b.path == parent.path + [b]
    {
      b := new BlockIndex.Child(parent);
      b.BuildSkip();
      blocks := blocks + {b};
    }
  }

  // ---------------------------------------------------------------- active chain

  /** CChain: the path of its tip, held as a vector. */
  class Chain {
    var vChain: seq<BlockIndex?>
    ghost var tip: BlockIndex?

    ghost predicate Valid()
      reads this, if tip == null then [] else tip.path
    {
      if tip == null then vChain == [] else tip.Valid() && vChain == tip.path
    }

    constructor ()
      ensures Valid() && tip == null
    {
      vChain, tip := [], null;
    }

    /** SetTip rewrites the vector from the top down and stops at the first block that is already in place. */
    method SetTip(block: BlockIndex?)
      requires Valid() && (block != null ==> block.Valid())
      modifies this
      ensures Valid() && tip == block
    {
      if block == null {
        vChain, tip := [], null;
        return;
      }
      var n := block.nHeight + 1;
      vChain := if |vChain| < n then vChain + seq(n - |vChain|, i => null) else vChain[..n];
      ghost var was := vChain;
      var pindex: BlockIndex? := block;
      ghost var h: int := block.nHeight;
      while pindex != null && vChain[pindex.nHeight] != pindex
        invariant -1 <= h <= block.nHeight && |vChain| == n && tip == old(tip)
        invariant pindex == if h < 0 then null else block.path[h]
        invariant pindex != null ==> pindex.nHeight == h
        invariant forall j | h < j < n :: vChain[j] == block.path[j]
        invariant forall j | 0 <= j <= h :: vChain[j] == was[j]
        decreases h
      {
        assert Linked(block.path, h);
        vChain := vChain[pindex.nHeight := pindex];
        pindex := pindex.pprev;
        h := h - 1;
        if h >= 0 { assert Linked(block.path, h); }
      }
      forall j | 0 <= j < n ensures vChain[j] == block.path[j] {
        if j <= h { SharedBelow(block, old(tip), h, j); }
      }
      tip := block;
    }

    method Contains(block: BlockIndex) returns (r: bool)
      requires Valid() && block.Valid()
      ensures r <==> tip != null && block in tip.path
      ensures r ==> block.nHeight < |tip.path| && tip.path[block.nHeight] == block
    {
      r := block.nHeight < |vChain| && vChain[block.nHeight] == block;
      if tip != null && block in tip.path {
        ghost var j :| 0 <= j < |tip.path| && tip.path[j] == block;
        assert Linked(tip.path, j);
      }
    }

    /** FindFork: the last block that a block's path and the chain share, or null when they share none. */
    method FindFork(block: BlockIndex?) returns (r: BlockIndex?)
      requires Valid() && (block != null ==> block.Valid())
      ensures block == null || tip == null ==> r == null
      ensures block != null && tip != null && r == null ==> forall j | 0 <= j < |block.path| && j < |tip.path| ::
          block.path[j] != tip.path[j]
      ensures block != null && tip != null && r != null ==>
        r.nHeight < |block.path| && r == block.path[r.nHeight] && IsForkPoint(block, tip, r.nHeight)
    {
      if block == null { return null; }
      r := block;
      if block.nHeight > |vChain| - 1 {
        var up, _ := block.GetAncestor(|vChain| - 1);
        r := up;
      }
      ghost var h: int := if block.nHeight < |vChain| then block.nHeight else |vChain| - 1;
      while r != null
        invariant -1 <= h <= block.nHeight && h < |vChain| && r == if h < 0 then null else block.path[h]
        invariant tip != null ==> forall j | h < j < |block.path| && j < |tip.path| :: block.path[j] != tip.path[j]
        decreases h
      {
        assert Linked(block.path, h);
        AncestorValid(block, h);
        var c := Contains(r);
        if c { return r; }
        r := r.pprev;
        h := h - 1;
      }
    }
  }
}

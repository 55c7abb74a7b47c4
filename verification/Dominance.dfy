/** Select expansion keeps every definition in front of its uses.  A program point (x, i) is the one just
    before instruction i of block x; a definition is named by its instruction's point. */
module Dominance {
  import opened Isa
  import opened Mir
  import opened Cfg
  import opened SelectExpansion

  /** A walk along successor lists from the entry block. */
  ghost predicate Path(f: Func, p: seq<BlockId>) {
    && p != [] && f.layout != []
    && p[|p| - 1] in f.blocks
    && if |p| == 1 then p[0] == f.layout[0]
       else Path(f, p[..|p| - 1]) && p[|p| - 1] in f.blocks[p[|p| - 2]].succs
  }

  /** No way from the entry to y avoids x. */
  ghost predicate Dominates(f: Func, x: BlockId, y: BlockId) {
    forall p :: Path(f, p) && p[|p| - 1] == y ==> x in p
  }

  datatype Point = Point(b: BlockId, i: nat)

  /** The definition at d has been executed whenever control reaches u. */
  ghost predicate Reaches(f: Func, d: Point, u: Point) {
    if d.b == u.b then d.i < u.i else Dominates(f, d.b, u.b)
  }

  /** Where the instructions of the split block are after the expansion: the Select became the PHI at the head
      of copy1, and the tail follows it. */
  function Moved(b: BlockId, k: nat, c1: BlockId, p: Point): Point {
    if p.b == b && p.i >= k then Point(c1, p.i - k) else p
  }

  /** A walk of the expanded function without the new blocks. */
  function Collapse(p: seq<BlockId>, c0: BlockId, c1: BlockId): seq<BlockId> {
    if p == [] then []
    else Collapse(p[..|p| - 1], c0, c1) + (if p[|p| - 1] == c0 || p[|p| - 1] == c1 then [] else [p[|p| - 1]])
  }

  lemma {:induction false} CollapseKeeps(p: seq<BlockId>, c0: BlockId, c1: BlockId)
    ensures forall x :: x in Collapse(p, c0, c1) ==> x in p
  {
    if p != [] {
      CollapseKeeps(p[..|p| - 1], c0, c1);
    }
  }

  /** The edges of g are those of f with the diamond b, c0, c1 in the place of b, and its entry is f's. */
  ghost predicate Diamond(f: Func, g: Func, b: BlockId, c0: BlockId, c1: BlockId) {
    && b != c0 && b != c1 && c0 != c1
    && f.layout != [] && g.layout != [] && g.layout[0] == f.layout[0]
    && f.layout[0] in f.blocks && f.layout[0] != c0 && f.layout[0] != c1
    && forall z, y :: z in g.blocks && y in g.blocks[z].succs ==> DiamondEdge(f, b, c0, c1, z, y)
  }

  ghost predicate DiamondEdge(f: Func, b: BlockId, c0: BlockId, c1: BlockId, z: BlockId, y: BlockId) {
    && (y == c0 ==> z == b)
    && (y == c1 ==> z == b || z == c0)
    && (z == b || z == c0 ==> y == c0 || y == c1)
    && (y != c0 && y != c1 ==>
          var was := if z == c1 then b else z; y in f.blocks && was in f.blocks && y in f.blocks[was].succs)
  }

  lemma {:induction false} ExpandedEdges(f: Func, b: BlockId, k: nat, c0: BlockId, c1: BlockId)
    requires Ready(f, b, k, c0, c1)
    ensures Diamond(f, ExpandSelect(f, b, k, c0, c1), b, c0, c1)
  {
    var g := ExpandSelect(f, b, k, c0, c1);
    EntryKept(f, b, k, c0, c1);
    forall z, y | z in g.blocks && y in g.blocks[z].succs ensures DiamondEdge(f, b, c0, c1, z, y) {
      ExpandedEdge(f, b, k, c0, c1, z, y);
    }
  }

  lemma {:induction false} ExpandedEdge(f: Func, b: BlockId, k: nat, c0: BlockId, c1: BlockId, z: BlockId, y: BlockId)
    requires Ready(f, b, k, c0, c1)
    requires var g := ExpandSelect(f, b, k, c0, c1); z in g.blocks && y in g.blocks[z].succs
    ensures DiamondEdge(f, b, c0, c1, z, y)
  {
    ExpandedSuccs(f, b, k, c0, c1);
    var was := if z == c1 || z == c0 then b else z;
    FreshUnmentioned(f, was, c0);
    FreshUnmentioned(f, was, c1);
    assert Elements(f.blocks[was].succs) <= f.blocks.Keys;
    assert y in f.blocks[was].succs ==> y in Elements(f.blocks[was].succs);
  }

  lemma {:induction false} EntryKept(f: Func, b: BlockId, k: nat, c0: BlockId, c1: BlockId)
    requires Ready(f, b, k, c0, c1)
    ensures var g := ExpandSelect(f, b, k, c0, c1);
            && f.layout != [] && g.layout != [] && g.layout[0] == f.layout[0]
            && f.layout[0] in f.blocks && f.layout[0] != c0 && f.layout[0] != c1
  {
    assert b in Elements(f.layout);
    assert f.layout[0] in Elements(f.layout);
  }

  /** Without the new blocks a walk of the expanded function is one of the original, to the same place. */
  lemma {:induction false} CollapsedPath(f: Func, g: Func, b: BlockId, c0: BlockId, c1: BlockId, p: seq<BlockId>)
    requires Diamond(f, g, b, c0, c1) && Path(g, p)
    ensures var q := Collapse(p, c0, c1); var y := p[|p| - 1];
            Path(f, q) && q[|q| - 1] == if y == c0 || y == c1 then b else y
    decreases |p|
  {
    var y, p' := p[|p| - 1], p[..|p| - 1];
    if |p| == 1 {
      assert Collapse(p', c0, c1) == [];
      assert Collapse(p, c0, c1) == [y];
    } else {
      var z := p'[|p'| - 1];
      var q' := Collapse(p', c0, c1);
      CollapsedPath(f, g, b, c0, c1, p');
      assert DiamondEdge(f, b, c0, c1, z, y);
      if y != c0 && y != c1 {
        assert Collapse(p, c0, c1)[..|q'|] == q';
      } else {
        assert Collapse(p, c0, c1) == q';
      }
    }
  }

  /** Whoever came through the split block and left the diamond came through copy1. */
  lemma {:induction false} ThroughCopy1(f: Func, g: Func, b: BlockId, c0: BlockId, c1: BlockId, p: seq<BlockId>)
    requires Diamond(f, g, b, c0, c1) && Path(g, p)
    requires b in p && p[|p| - 1] != b && p[|p| - 1] != c0
    ensures c1 in p
    decreases |p|
  {
    var p', y := p[..|p| - 1], p[|p| - 1];
    assert p == p' + [y];
    if y != c1 {
      assert b in p';
      var z := p'[|p'| - 1];
      assert DiamondEdge(f, b, c0, c1, z, y);
      ThroughCopy1(f, g, b, c0, c1, p');
    }
  }

  /** Where x dominated y, its image still does. */
  lemma {:induction false} DominanceKept(f: Func, b: BlockId, k: nat, c0: BlockId, c1: BlockId,
                                         x: BlockId, x': BlockId, y: BlockId, y': BlockId)
    requires Ready(f, b, k, c0, c1) && x in f.blocks && y in f.blocks && Dominates(f, x, y)
    requires y' == y || (y == b && (y' == c0 || y' == c1))
    requires x' == x || (x == b && x' == c1 && y != b)
    ensures Dominates(ExpandSelect(f, b, k, c0, c1), x', y')
  {
    var g := ExpandSelect(f, b, k, c0, c1);
    ExpandedEdges(f, b, k, c0, c1);
    forall p | Path(g, p) && p[|p| - 1] == y' ensures x' in p {
      CollapsedPath(f, g, b, c0, c1, p);
      assert x in Collapse(p, c0, c1);
      CollapseKeeps(p, c0, c1);
      if x' != x {
        ThroughCopy1(f, g, b, c0, c1, p);
      }
    }
  }

  /** Every way to the new blocks leads through the split block. */
  lemma {:induction false} SplitDominatesNew(f: Func, b: BlockId, k: nat, c0: BlockId, c1: BlockId)
    requires Ready(f, b, k, c0, c1)
    ensures var g := ExpandSelect(f, b, k, c0, c1); Dominates(g, b, c0) && Dominates(g, b, c1)
  {
    var g := ExpandSelect(f, b, k, c0, c1);
    ExpandedEdges(f, b, k, c0, c1);
    forall p | Path(g, p) && (p[|p| - 1] == c0 || p[|p| - 1] == c1) ensures b in p {
      CollapsedPath(f, g, b, c0, c1, p);
      CollapseKeeps(p, c0, c1);
      var q := Collapse(p, c0, c1);
      assert q[|q| - 1] in q;
    }
  }

  /** Every definition still reaches its uses: those before the Select, those after it (the end of the block,
      where successor PHIs read, included), and those of the Select itself, which are now read by the jump
      at (b, k), at the end of b and at the end of copy0. */
  lemma {:induction false} DefinitionsStillReach(f: Func, b: BlockId, k: nat, c0: BlockId, c1: BlockId,
                                                 d: Point, u: Point)
    requires Ready(f, b, k, c0, c1) && d.b in f.blocks && u.b in f.blocks
    ensures var g := ExpandSelect(f, b, k, c0, c1); var d' := Moved(b, k, c1, d);
            Reaches(f, d, u) ==>
              if u == Point(b, k) then
                Reaches(g, d', Point(b, k)) && Reaches(g, d', Point(b, k + 1)) && Reaches(g, d', Point(c0, 0))
              else Reaches(g, d', Moved(b, k, c1, u))
  {
    var d', u' := Moved(b, k, c1, d), Moved(b, k, c1, u);
    if !Reaches(f, d, u) {
      return;
    }
    if d.b == u.b {
      if d.b == b && d.i < k {
        SplitDominatesNew(f, b, k, c0, c1);
      }
    } else if u == Point(b, k) {
      DominanceKept(f, b, k, c0, c1, d.b, d.b, b, b);
      DominanceKept(f, b, k, c0, c1, d.b, d.b, b, c0);
    } else {
      DominanceKept(f, b, k, c0, c1, d.b, d'.b, u.b, u'.b);
    }
  }
}

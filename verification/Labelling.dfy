/**
 * The blocks of a slice of values: maximal connected sets of cells with equal values, and scanning for them row by row.
 */
module Labelling {
  import opened Cells
  import opened Reachability
  import opened Slices

  /** The block of a cell: the cells connected to it through cells of its value. */
  ghost function BlockOf(work: map<Pos, int>, p: Pos): set<Pos>
    requires p in work
  {
    Component(NO_WALLS, Region(work, work[p]), p)
  }

  lemma BlockMembers(work: map<Pos, int>, p: Pos, q: Pos)
    requires p in work && q in BlockOf(work, p)
    ensures q in work && work[q] == work[p] && BlockOf(work, q) == BlockOf(work, p)
  {
    var region := Region(work, work[p]);
    ConnectedSym(NO_WALLS, region, p, q);
    forall r ensures r in BlockOf(work, q) <==> r in BlockOf(work, p) {
      if r in BlockOf(work, q) { ConnectedTrans(NO_WALLS, region, p, q, r); }
      if r in BlockOf(work, p) { ConnectedTrans(NO_WALLS, region, q, p, r); }
    }
  }

  lemma InOwnBlock(work: map<Pos, int>, p: Pos)
    requires p in work
    ensures p in BlockOf(work, p)
  {
    ConnectedRefl(NO_WALLS, Region(work, work[p]), p);
  }

  ghost predicate AllIn(work: map<Pos, int>, firsts: seq<Pos>) {
    forall c :: 0 <= c < |firsts| ==> firsts[c] in work
  }

  /** The cells of the blocks of some cells. */
  ghost function Covered(work: map<Pos, int>, firsts: seq<Pos>): set<Pos>
    requires AllIn(work, firsts)
  {
    set p, c | 0 <= c < |firsts| && p in BlockOf(work, firsts[c]) :: p
  }

  /** A cell that comes first in its block, row by row. */
  ghost predicate IsFirst(work: map<Pos, int>, p: Pos)
    requires p in work
  {
    forall q :: q in BlockOf(work, p) ==> !Before(q, p)
  }

  /**
   * What a scan knows when it has visited the cells before `end`: `firsts` lists, in order, the first cells of
   * the blocks met so far, one for each block, and these blocks hold every visited cell that is not zero.
   */
  ghost predicate Scanned(work: map<Pos, int>, firsts: seq<Pos>, end: Pos)
    ensures Scanned(work, firsts, end) ==> AllIn(work, firsts)
  {
    && AllIn(work, firsts)
    && (forall c :: 0 <= c < |firsts| ==> work[firsts[c]] != 0 && IsFirst(work, firsts[c]) && Before(firsts[c], end))
    && (forall c, d :: 0 <= c < d < |firsts| ==>
        Before(firsts[c], firsts[d]) && BlockOf(work, firsts[c]) !! BlockOf(work, firsts[d]))
    && (forall p :: p in work && work[p] != 0 && Before(p, end) ==> p in Covered(work, firsts))
  }

  /** The labels after a scan: the cells of the block number `c` carry `base + c`, all others their old label. */
  ghost predicate Labelled(work: map<Pos, int>, firsts: seq<Pos>, base: int, old_: map<Pos, int>, labels: map<Pos, int>)
    requires AllIn(work, firsts)
  {
    && labels.Keys == old_.Keys == work.Keys
    && (forall c, p :: 0 <= c < |firsts| && p in BlockOf(work, firsts[c]) && p in work ==> labels[p] == base + c)
    && (forall p :: p in work && p !in Covered(work, firsts) ==> labels[p] == old_[p])
  }

  lemma CoveredAt(work: map<Pos, int>, firsts: seq<Pos>, p: Pos) returns (c: nat)
    requires AllIn(work, firsts) && p in Covered(work, firsts)
    ensures c < |firsts| && p in BlockOf(work, firsts[c]) && p in work && BlockOf(work, p) == BlockOf(work, firsts[c])
  {
    c :| 0 <= c < |firsts| && p in BlockOf(work, firsts[c]);
    BlockMembers(work, firsts[c], p);
  }

  /** The block of a cell that is not covered has no covered cell. */
  lemma UncoveredBlock(work: map<Pos, int>, firsts: seq<Pos>, p: Pos)
    requires AllIn(work, firsts) && p in work && p !in Covered(work, firsts)
    ensures BlockOf(work, p) !! Covered(work, firsts)
  {
    forall q | q in BlockOf(work, p) ensures q !in Covered(work, firsts) {
      if q in Covered(work, firsts) {
        var c := CoveredAt(work, firsts, q);
        BlockMembers(work, p, q);
        InOwnBlock(work, p);
      }
    }
  }

  /** Erasing whole blocks does not change any other block. */
  lemma BlockAfterErasing(work: map<Pos, int>, firsts: seq<Pos>, p: Pos)
    requires AllIn(work, firsts) && p in work && work[p] != 0 && p !in Covered(work, firsts)
    ensures
      var now := Painted(work, Covered(work, firsts), 0);
      now[p] == work[p] && Component(NO_WALLS, Region(now, work[p]), p) == BlockOf(work, p)
  {
    var now, v, block := Painted(work, Covered(work, firsts), 0), work[p], BlockOf(work, p);
    var region, left := Region(work, v), Region(Painted(work, Covered(work, firsts), 0), v);
    UncoveredBlock(work, firsts, p);
    forall q | q in Component(NO_WALLS, left, p) ensures q in block {
      ConnectedMono(NO_WALLS, left, region, p, q);
    }
    InOwnBlock(work, p);
    var reached := Component(NO_WALLS, left, p);
    ConnectedRefl(NO_WALLS, left, p);
    forall a, b | a in reached && b in region && Linked(NO_WALLS, a, b) ensures b in reached {
      ConnectedMono(NO_WALLS, left, region, p, a);
      ConnectedStep(NO_WALLS, region, p, a, b);
      assert b in block;
      ConnectedStep(NO_WALLS, left, p, a, b);
    }
    assert Closed(NO_WALLS, region, reached);
    ComponentInClosed(NO_WALLS, region, reached, p);
  }

  lemma CoveredMore(work: map<Pos, int>, firsts: seq<Pos>, p: Pos)
    requires AllIn(work, firsts) && p in work
    ensures AllIn(work, firsts + [p])
    ensures Covered(work, firsts + [p]) == Covered(work, firsts) + BlockOf(work, p)
  {
    var more := firsts + [p];
    forall q | q in Covered(work, firsts) ensures q in Covered(work, more) {
      var c :| 0 <= c < |firsts| && q in BlockOf(work, firsts[c]);
      assert more[c] == firsts[c];
    }
    forall q | q in BlockOf(work, p) ensures q in Covered(work, more) {
      assert more[|firsts|] == p;
    }
  }

  lemma ScanStarts(work: map<Pos, int>, nx: nat, ny: nat, labels: map<Pos, int>, base: int)
    requires work.Keys == labels.Keys == Box(nx, ny)
    ensures Scanned(work, [], Pos(0, 0)) && Labelled(work, [], base, labels, labels)
    ensures Covered(work, []) == {}
  {
  }

  /** The next cell belongs to a block met before, or is zero. */
  lemma ScanSkips(work: map<Pos, int>, firsts: seq<Pos>, p: Pos)
    requires Scanned(work, firsts, p) && p in work && (work[p] == 0 || p in Covered(work, firsts))
    ensures Scanned(work, firsts, Pos(p.i + 1, p.j))
  {
    BeforeNext(p.i, p.j);
    hide BlockOf, IsFirst, Covered, Before;
  }

  lemma MetIsFirst(work: map<Pos, int>, firsts: seq<Pos>, p: Pos)
    requires Scanned(work, firsts, p) && p in work && work[p] != 0 && p !in Covered(work, firsts)
    ensures IsFirst(work, p)
  {
    UncoveredBlock(work, firsts, p);
    forall q | q in BlockOf(work, p) ensures !Before(q, p) {
      BlockMembers(work, p, q);
    }
  }

  lemma MetIsApart(work: map<Pos, int>, firsts: seq<Pos>, p: Pos, c: nat)
    requires AllIn(work, firsts) && p in work && p !in Covered(work, firsts) && c < |firsts|
    ensures BlockOf(work, firsts[c]) !! BlockOf(work, p)
  {
    UncoveredBlock(work, firsts, p);
    hide BlockOf;
    forall q | q in BlockOf(work, firsts[c]) ensures q !in BlockOf(work, p) {
      assert q in Covered(work, firsts);
    }
  }

  /** The next cell is the first of a new block. */
  lemma ScanMeets(work: map<Pos, int>, firsts: seq<Pos>, p: Pos)
    requires Scanned(work, firsts, p) && p in work && work[p] != 0 && p !in Covered(work, firsts)
    ensures Scanned(work, firsts + [p], Pos(p.i + 1, p.j))
  {
    BeforeNext(p.i, p.j);
    hide BlockOf, IsFirst, Covered, Before;
    var end, more := Pos(p.i + 1, p.j), firsts + [p];
    CoveredMore(work, firsts, p);
    InOwnBlock(work, p);
    MetIsFirst(work, firsts, p);
    forall c, d | 0 <= c < d < |more|
      ensures Before(more[c], more[d]) && BlockOf(work, more[c]) !! BlockOf(work, more[d])
    {
      if d == |firsts| { MetIsApart(work, firsts, p, c); }
    }
    forall q | q in work && work[q] != 0 && Before(q, end) ensures q in Covered(work, more) {}
  }

  lemma LabelsMore(work: map<Pos, int>, firsts: seq<Pos>, p: Pos, base: int, old_: map<Pos, int>, labels: map<Pos, int>)
    requires AllIn(work, firsts) && p in work && p !in Covered(work, firsts)
    requires Labelled(work, firsts, base, old_, labels)
    ensures AllIn(work, firsts + [p])
    ensures Labelled(work, firsts + [p], base, old_, Painted(labels, BlockOf(work, p), base + |firsts|))
  {
    hide BlockOf, Covered;
    CoveredMore(work, firsts, p);
    var more, now := firsts + [p], Painted(labels, BlockOf(work, p), base + |firsts|);
    forall c, q | 0 <= c < |more| && q in BlockOf(work, more[c]) && q in work ensures now[q] == base + c {
      if c < |firsts| {
        assert more[c] == firsts[c];
        MetIsApart(work, firsts, p, c);
      }
    }
  }

  lemma ScanNextRow(work: map<Pos, int>, nx: nat, ny: nat, firsts: seq<Pos>, j: int)
    requires work.Keys == Box(nx, ny) && Scanned(work, firsts, Pos(nx, j))
    ensures Scanned(work, firsts, Pos(0, j + 1))
  {
    hide BlockOf, IsFirst, Before;
    BeforeNextRow(nx, ny, j);
  }

  /** At the end of the scan every cell that is not zero lies in exactly one of the blocks. */
  lemma ScanEnds(work: map<Pos, int>, nx: nat, ny: nat, firsts: seq<Pos>)
    requires work.Keys == Box(nx, ny) && Scanned(work, firsts, Pos(0, ny))
    ensures forall p :: p in work && work[p] != 0 ==> p in Covered(work, firsts)
    ensures forall p :: p in work ==> Painted(work, Covered(work, firsts), 0)[p] == 0
  {
    hide BlockOf, IsFirst;
  }

  /** The block that a cell lies in, and its label. */
  lemma LabelAt(work: map<Pos, int>, nx: nat, ny: nat, firsts: seq<Pos>, base: int,
                old_: map<Pos, int>, labels: map<Pos, int>, p: Pos) returns (c: nat)
    requires work.Keys == Box(nx, ny) && Scanned(work, firsts, Pos(0, ny))
    requires Labelled(work, firsts, base, old_, labels)
    requires p in work && work[p] != 0
    ensures c < |firsts| && labels[p] == base + c && p in BlockOf(work, p)
    ensures firsts[c] in work && BlockOf(work, p) == BlockOf(work, firsts[c])
  {
    hide BlockOf, IsFirst;
    ScanEnds(work, nx, ny, firsts);
    c := CoveredAt(work, firsts, p);
    InOwnBlock(work, p);
  }

  lemma BlocksApart(work: map<Pos, int>, firsts: seq<Pos>, end: Pos, c: nat, d: nat)
    requires Scanned(work, firsts, end) && c < |firsts| && d < |firsts| && c != d
    ensures firsts[c] in work && firsts[d] in work && BlockOf(work, firsts[c]) !! BlockOf(work, firsts[d])
  {
    hide BlockOf, IsFirst, Covered;
    var low, high := if c < d then c else d, if c < d then d else c;
    assert BlockOf(work, firsts[low]) !! BlockOf(work, firsts[high]);
  }

  /**
   * The labels of a complete scan tell blocks apart: two cells that are not zero have the same label just when they
   * are connected through cells of their value.
   */
  lemma LabelsAreComponents(work: map<Pos, int>, nx: nat, ny: nat, firsts: seq<Pos>, base: int,
                            old_: map<Pos, int>, labels: map<Pos, int>, p: Pos, q: Pos)
    requires work.Keys == Box(nx, ny) && Scanned(work, firsts, Pos(0, ny))
    requires Labelled(work, firsts, base, old_, labels)
    requires p in work && q in work && work[p] != 0 && work[q] != 0
    ensures base <= labels[p] < base + |firsts|
    ensures labels[p] == labels[q] <==> q in BlockOf(work, p)
  {
    hide Scanned, BlockOf, Covered;
    var c := LabelAt(work, nx, ny, firsts, base, old_, labels, p);
    var d := LabelAt(work, nx, ny, firsts, base, old_, labels, q);
    hide *;
    if c != d { BlocksApart(work, firsts, Pos(0, ny), c, d); }
  }

  /** The labels are given out in the order of the first cells of the blocks. */
  lemma LabelsFollowFirstCells(work: map<Pos, int>, nx: nat, ny: nat, firsts: seq<Pos>, base: int,
                               old_: map<Pos, int>, labels: map<Pos, int>, p: Pos, q: Pos)
    requires work.Keys == Box(nx, ny) && Scanned(work, firsts, Pos(0, ny))
    requires Labelled(work, firsts, base, old_, labels)
    requires p in work && q in work && work[p] != 0 && work[q] != 0 && IsFirst(work, p) && IsFirst(work, q)
    ensures labels[p] < labels[q] <==> Before(p, q)
  {
    hide BlockOf, Covered, Labelled;
    var c := LabelAt(work, nx, ny, firsts, base, old_, labels, p);
    var d := LabelAt(work, nx, ny, firsts, base, old_, labels, q);
    hide IsFirst;
    FirstIsUnique(work, p, firsts[c]);
    FirstIsUnique(work, q, firsts[d]);
    if d < c { assert Before(firsts[d], firsts[c]); }
  }

  lemma FirstIsUnique(work: map<Pos, int>, p: Pos, q: Pos)
    requires p in work && q in work && IsFirst(work, p) && IsFirst(work, q) && p in BlockOf(work, q)
    ensures p == q
  {
    BlockMembers(work, q, p);
    InOwnBlock(work, p);
    InOwnBlock(work, q);
  }
}

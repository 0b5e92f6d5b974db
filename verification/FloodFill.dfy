/** Recolouring the cells connected to a cell. */
module FloodFill {
  import opened Cells
  import opened Reachability
  import opened Slices
  import opened Layers

  /** The values of a layer after recolouring the cells of value `org` connected to `p`. */
  ghost function Recoloured(values: map<Pos, int>, w: Walls, p: Pos, org: int, colour: int): map<Pos, int> {
    if org == colour then values else Painted(values, Component(w, Region(values, org), p), colour)
  }

  lemma FillStarts(values: map<Pos, int>, p: Pos, org: int, colour: int)
    requires p in values && values[p] == org && org != colour
    ensures
      var region := Region(values, org);
      p in region && values[p := colour] == Painted(values, region - (region - {p}), colour)
  {
  }

  /** The values after going on to the neighbour `n` of `p`. */
  ghost function Onwards(values: map<Pos, int>, w: Walls, p: Pos, n: Pos, org: int, colour: int): map<Pos, int> {
    if Linked(w, p, n) then Recoloured(values, w, n, org, colour) else values
  }

  /** Going on to `n` when `left` is left of the region leaves `Explored(w, left, p, n)` of it. */
  lemma FillNeighbour(values: map<Pos, int>, w: Walls, left: set<Pos>, p: Pos, n: Pos, org: int, colour: int)
    requires org != colour && left <= Region(values, org) - {p} && p in Region(values, org)
    ensures
      var region := Region(values, org);
      var now := Painted(values, region - left, colour);
      var next := Explored(w, left, p, n);
      && next <= left && Region(now, org) < region
      && Onwards(now, w, p, n, org, colour) == Painted(values, region - next, colour)
  {
    var region := Region(values, org);
    var now := Painted(values, region - left, colour);
    assert Region(now, org) == left;
  }

  /** Exploring the four neighbours one after the other takes the whole component. */
  lemma FillEnds(values: map<Pos, int>, w: Walls, p: Pos, n: seq<Pos>, left: seq<set<Pos>>, org: int, colour: int)
    requires p in Region(values, org) && org != colour && |n| == 4 && |left| == 5
    requires n == [Pos(p.i + 1, p.j), Pos(p.i - 1, p.j), Pos(p.i, p.j + 1), Pos(p.i, p.j - 1)]
    requires left[0] == Region(values, org) - {p}
    requires forall k :: 0 <= k < 4 ==> left[k+1] == Explored(w, left[k], p, n[k])
    ensures Painted(values, Region(values, org) - left[4], colour) == Recoloured(values, w, p, org, colour)
  {
    var region := Region(values, org);
    assert n[0] in n && n[1] in n && n[2] in n && n[3] in n;
    FillStep(w, region, p, n, left);
    assert region - left[4] == Component(w, region, p);
  }

  lemma NothingToFill(values: map<Pos, int>, w: Walls, p: Pos, org: int, colour: int)
    requires p !in values || values[p] != org || org == colour
    ensures Recoloured(values, w, p, org, colour) == values
  {
  }

  /** Recolours exactly the cells with value `org` that can be reached from (i, j) without crossing a barrier. */
  method UpdateConnectedCells(layer: Layer, i: int, j: int, org: int, colour: int)
    requires layer.Valid() && 0 <= i < layer.nx && 0 <= j < layer.ny
    modifies layer`cellSum, layer`slice, layer.cells
    ensures layer.Valid()
    ensures layer.slice.Barriers() == old(layer.slice).Barriers()
    ensures layer.slice.Values() ==
            Recoloured(old(layer.slice).Values(), old(layer.slice).Barriers(), Pos(i, j), org, colour)
    decreases Region(layer.slice.Values(), org), 0
  {
    hide *;
    ghost var values, w, p := layer.slice.Values(), layer.slice.Barriers(), Pos(i, j);
    layer.IsCell(i, j);
    if org != colour {
      var value := layer.CellValue(i, j);
      if value == org {
        FillStarts(values, p, org, colour);
        layer.SetCellValue(i, j, colour);

        ghost var l0 := Region(values, org) - {p};
        FillNeighbour(values, w, l0, p, Pos(i + 1, j), org, colour);
        UpdateConnectedNeighbour(layer, i, j, i + 1, j, org, colour);
        ghost var l1 := Explored(w, l0, p, Pos(i + 1, j));
        FillNeighbour(values, w, l1, p, Pos(i - 1, j), org, colour);
        UpdateConnectedNeighbour(layer, i, j, i - 1, j, org, colour);
        ghost var l2 := Explored(w, l1, p, Pos(i - 1, j));
        FillNeighbour(values, w, l2, p, Pos(i, j + 1), org, colour);
        UpdateConnectedNeighbour(layer, i, j, i, j + 1, org, colour);
        ghost var l3 := Explored(w, l2, p, Pos(i, j + 1));
        FillNeighbour(values, w, l3, p, Pos(i, j - 1), org, colour);
        UpdateConnectedNeighbour(layer, i, j, i, j - 1, org, colour);
        ghost var l4 := Explored(w, l3, p, Pos(i, j - 1));
        ghost var n := [Pos(i + 1, j), Pos(i - 1, j), Pos(i, j + 1), Pos(i, j - 1)];
        FillEnds(values, w, p, n, [l0, l1, l2, l3, l4], org, colour);
        return;
      }
    }
    NothingToFill(values, w, p, org, colour);
  }

  /** Goes on to a neighbouring cell, if there is one and no barrier lies between. */
  method UpdateConnectedNeighbour(layer: Layer, i: int, j: int, i2: int, j2: int, org: int, colour: int)
    requires layer.Valid() && 0 <= i < layer.nx && 0 <= j < layer.ny
    modifies layer`cellSum, layer`slice, layer.cells
    ensures layer.Valid()
    ensures layer.slice.Barriers() == old(layer.slice).Barriers()
    ensures layer.slice.Values() ==
            Onwards(old(layer.slice).Values(), old(layer.slice).Barriers(), Pos(i, j), Pos(i2, j2), org, colour)
    decreases Region(layer.slice.Values(), org), 1
  {
    hide Layer.Valid, Recoloured, Slice.Values, Slice.Barriers, Linked;
    if 0 <= i2 < layer.nx && 0 <= j2 < layer.ny {
      var contact := layer.CellContact(i, j, i2, j2);
      if contact {
        UpdateConnectedCells(layer, i2, j2, org, colour);
      }
    } else {
      NothingToFill(layer.slice.Values(), layer.slice.Barriers(), Pos(i2, j2), org, colour);
    }
  }
}

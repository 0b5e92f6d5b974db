/** Listing, and optionally erasing, the connected cells of one value. */
module BlockTrace {
  import opened Prelude
  import opened Cells
  import opened Reachability
  import opened Slices
  import opened Layers

  ghost function Elements(s: seq<Pos>): set<Pos> {
    set p | p in s
  }

  /**
   * The order in which the cells of `white` are listed from `p` on: the cell, then what lies left, right, below, above.
   */
  ghost function BlockOrder(white: set<Pos>, p: Pos): (order: seq<Pos>)
    decreases white
  {
    if p !in white then [] else
    var w0 := white - {p};
    var left := BlockOrder(w0, Left(p));
    var w1 := w0 - Elements(left);
    var right := BlockOrder(w1, Right(p));
    var w2 := w1 - Elements(right);
    var down := BlockOrder(w2, Down(p));
    var w3 := w2 - Elements(down);
    var up := BlockOrder(w3, Up(p));
    [p] + left + right + down + up
  }

  lemma OrderStarts(white: set<Pos>, p: Pos)
    requires p in white
    ensures BlockOrder(white, p) != [] && BlockOrder(white, p)[0] == p
  {
  }

  /** The neighbours of a cell are listed in the order left, right, below, above, if nothing else is in the way. */
  lemma OrderOfNeighbours(white: set<Pos>, p: Pos)
    requires p in white && white <= {p, Left(p), Right(p), Down(p), Up(p)}
    ensures BlockOrder(white, p) ==
            [p] + OneOf(white, Left(p)) + OneOf(white, Right(p)) + OneOf(white, Down(p)) + OneOf(white, Up(p))
  {
    hide BlockOrder, Elements, OneOf, Left, Right, Down, Up;
    RestOfNeighbours(white, p);
    var w0 := white - {p};
    var w1 := w0 - {Left(p)};
    var w2 := w1 - {Right(p)};
    var w3 := w2 - {Down(p)};
    NeighbourAlone(w0, p, Left(p));
    NeighbourAlone(w1, p, Right(p));
    NeighbourAlone(w2, p, Down(p));
    NeighbourAlone(w3, p, Up(p));
    OrderFromCell(white, p, w1, w2, w3);
  }

  lemma RestOfNeighbours(white: set<Pos>, p: Pos)
    ensures
      var w0 := white - {p};
      var w1 := w0 - {Left(p)};
      var w2 := w1 - {Right(p)};
      && OneOf(w0, Left(p)) == OneOf(white, Left(p)) && OneOf(w1, Right(p)) == OneOf(white, Right(p))
      && OneOf(w2, Down(p)) == OneOf(white, Down(p)) && OneOf(w2 - {Down(p)}, Up(p)) == OneOf(white, Up(p))
  {
  }

  lemma NeighbourAlone(white: set<Pos>, p: Pos, n: Pos)
    requires white <= {Left(p), Right(p), Down(p), Up(p)} && n in {Left(p), Right(p), Down(p), Up(p)}
    ensures BlockOrder(white, n) == OneOf(white, n) && white - Elements(BlockOrder(white, n)) == white - {n}
  {
    hide BlockOrder;
    OrderOfOne(white, n);
  }

  function OneOf(white: set<Pos>, p: Pos): seq<Pos> {
    if p in white then [p] else []
  }

  lemma OrderFromCell(white: set<Pos>, p: Pos, w1: set<Pos>, w2: set<Pos>, w3: set<Pos>)
    requires p in white && w1 == white - {p} - Elements(BlockOrder(white - {p}, Left(p)))
    requires w2 == w1 - Elements(BlockOrder(w1, Right(p))) && w3 == w2 - Elements(BlockOrder(w2, Down(p)))
    ensures BlockOrder(white, p) ==
            [p] + BlockOrder(white - {p}, Left(p)) + BlockOrder(w1, Right(p)) + BlockOrder(w2, Down(p))
            + BlockOrder(w3, Up(p))
  {
    hide Elements;
  }

  /** A cell without neighbours is listed alone. */
  lemma OrderOfOne(white: set<Pos>, p: Pos)
    requires Left(p) !in white && Right(p) !in white && Down(p) !in white && Up(p) !in white
    ensures BlockOrder(white, p) == OneOf(white, p) && Elements(BlockOrder(white, p)) == if p in white then {p} else {}
  {
    if p in white {
      var w := white - {p};
      assert w - Elements([]) == w;
      assert BlockOrder(w, Left(p)) == [] && BlockOrder(w, Right(p)) == [];
      assert BlockOrder(w, Down(p)) == [] && BlockOrder(w, Up(p)) == [];
      OrderFromCell(white, p, w, w, w);
    }
  }

  lemma ElementsOfSum(s: seq<Pos>, t: seq<Pos>)
    ensures Elements(s + t) == Elements(s) + Elements(t)
    ensures Distinct(s) && Distinct(t) && Elements(s) !! Elements(t) ==> Distinct(s + t)
  {
    assert forall p :: p in s + t <==> p in s || p in t;
    if Distinct(s) && Distinct(t) && Elements(s) !! Elements(t) {
      var u := s + t;
      forall k, m | 0 <= k < m < |u| ensures u[k] != u[m] {
        if k < |s| <= m {
          assert u[k] in Elements(s) && u[m] in Elements(t);
        }
      }
    }
  }

  lemma NoOrder(white: set<Pos>, p: Pos)
    requires p !in white
    ensures BlockOrder(white, p) == [] && Component(NO_WALLS, white, p) == {}
  {
  }

  /** The listing from `p` holds each cell of the component of `p` once, and no other cell. */
  lemma {:induction false} BlockOrderIsComponent(white: set<Pos>, p: Pos)
    ensures Elements(BlockOrder(white, p)) == Component(NO_WALLS, white, p)
    ensures Distinct(BlockOrder(white, p))
    decreases white
  {
    if p !in white {
      NoOrder(white, p);
    } else {
      var w0 := white - {p};
      var left := BlockOrder(w0, Left(p));
      var w1 := w0 - Elements(left);
      var right := BlockOrder(w1, Right(p));
      var w2 := w1 - Elements(right);
      var down := BlockOrder(w2, Down(p));
      var w3 := w2 - Elements(down);
      var up := BlockOrder(w3, Up(p));
      var w4 := w3 - Elements(up);
      BlockOrderIsComponent(w0, Left(p));
      BlockOrderIsComponent(w1, Right(p));
      BlockOrderIsComponent(w2, Down(p));
      BlockOrderIsComponent(w3, Up(p));
      OrderStep(white, p, left, right, down, up, [w0, w1, w2, w3, w4]);
    }
  }

  lemma OrderStep(white: set<Pos>, p: Pos, left: seq<Pos>, right: seq<Pos>, down: seq<Pos>, up: seq<Pos>,
                  w: seq<set<Pos>>)
    requires p in white && |w| == 5 && w[0] == white - {p}
    requires Distinct(left) && Elements(left) == Component(NO_WALLS, w[0], Left(p)) && w[1] == w[0] - Elements(left)
    requires Distinct(right) && Elements(right) == Component(NO_WALLS, w[1], Right(p)) && w[2] == w[1] - Elements(right)
    requires Distinct(down) && Elements(down) == Component(NO_WALLS, w[2], Down(p)) && w[3] == w[2] - Elements(down)
    requires Distinct(up) && Elements(up) == Component(NO_WALLS, w[3], Up(p)) && w[4] == w[3] - Elements(up)
    ensures
      var order := [p] + left + right + down + up;
      Elements(order) == Component(NO_WALLS, white, p) && Distinct(order)
  {
    var n := [Left(p), Right(p), Down(p), Up(p)];
    AllNeighbours(p, n, w);
    FillStep(NO_WALLS, white, p, n, w);
    ComponentInRegion(w[0], Left(p));
    ComponentInRegion(w[1], Right(p));
    ComponentInRegion(w[2], Down(p));
    ComponentInRegion(w[3], Up(p));
    ComponentInRegion(white, p);
    hide *;
    Singleton(p);
    ListedMore(white, [p], w[0], left);
    ListedMore(white, [p] + left, w[1], right);
    ListedMore(white, [p] + left + right, w[2], down);
    ListedMore(white, [p] + left + right + down, w[3], up);
    Remaining(white, [p] + left + right + down + up, Component(NO_WALLS, white, p));
  }

  /** A further list of cells that have not been listed yet. */
  lemma ListedMore(white: set<Pos>, order: seq<Pos>, w: set<Pos>, more: seq<Pos>)
    requires Distinct(order) && Distinct(more) && Elements(order) <= white && w == white - Elements(order) &&
             Elements(more) <= w
    ensures Distinct(order + more) && Elements(order + more) <= white &&
            w - Elements(more) == white - Elements(order + more)
  {
    hide *;
    ElementsOfSum(order, more);
  }

  lemma Remaining(white: set<Pos>, order: seq<Pos>, listed: set<Pos>)
    requires Elements(order) <= white && listed <= white && white - Elements(order) == white - listed
    ensures Elements(order) == listed
  {
    hide *;
    assert Elements(order) == white - (white - Elements(order));
    assert listed == white - (white - listed);
  }

  lemma Singleton(p: Pos)
    ensures Elements([p]) == {p} && Distinct([p])
  {
  }

  lemma ComponentInRegion(region: set<Pos>, p: Pos)
    ensures Component(NO_WALLS, region, p) <= region
  {
  }

  lemma AllNeighbours(p: Pos, n: seq<Pos>, w: seq<set<Pos>>)
    requires n == [Left(p), Right(p), Down(p), Up(p)] && |w| == 5
    requires forall k :: 0 <= k < 4 ==> w[k+1] == w[k] - Component(NO_WALLS, w[k], n[k])
    ensures forall q :: Linked(NO_WALLS, p, q) ==> q in n
    ensures forall k :: 0 <= k < 4 ==> w[k+1] == Explored(NO_WALLS, w[k], p, n[k])
  {
    assert n[0] in n && n[1] in n && n[2] in n && n[3] in n;
  }

  lemma ElementsOfOneMore(s: seq<Pos>, p: Pos)
    ensures Elements(s + [p]) == Elements(s) + {p}
  {
    ElementsOfSum(s, [p]);
    Singleton(p);
  }

  /** The listing from a cell, taken apart into the listings from its four neighbours. */
  lemma OrderUnfolds(white: set<Pos>, p: Pos, start: seq<Pos>, left: seq<Pos>, right: seq<Pos>, down: seq<Pos>,
                     up: seq<Pos>)
    requires p in white
    requires
      var w0 := white - {p};
      var w1 := w0 - Elements(left);
      var w2 := w1 - Elements(right);
      var w3 := w2 - Elements(down);
      && left == BlockOrder(w0, Pos(p.i - 1, p.j)) && right == BlockOrder(w1, Pos(p.i + 1, p.j))
      && down == BlockOrder(w2, Pos(p.i, p.j - 1)) && up == BlockOrder(w3, Pos(p.i, p.j + 1))
    ensures start + BlockOrder(white, p) == start + [p] + left + right + down + up
  {
    assert BlockOrder(white, p) == [p] + left + right + down + up;
    hide *;
    SumsOfLists(start, [p], left, right, down, up);
  }

  lemma SumsOfLists(start: seq<Pos>, a: seq<Pos>, b: seq<Pos>, c: seq<Pos>, d: seq<Pos>, e: seq<Pos>)
    ensures start + (a + b + c + d + e) == start + a + b + c + d + e
  {
  }

  ghost function Is(s: seq<Pos>): seq<int> { seq(|s|, k requires 0 <= k < |s| => s[k].i) }

  ghost function Js(s: seq<Pos>): seq<int> { seq(|s|, k requires 0 <= k < |s| => s[k].j) }

  /** The values once the cells of `trace` have been erased, if they are to be erased. */
  ghost function Erased(values: map<Pos, int>, erase: bool, trace: seq<Pos>): map<Pos, int> {
    if erase then Painted(values, Elements(trace), 0) else values
  }

  lemma TraceMore(values: map<Pos, int>, erase: bool, trace: seq<Pos>, p: Pos)
    requires p in values
    ensures Erased(values, erase, trace + [p]) ==
            if erase then Erased(values, erase, trace)[p := 0] else Erased(values, erase, trace)
    ensures Is(trace + [p]) == Is(trace) + [p.i] && Js(trace + [p]) == Js(trace) + [p.j]
  {
    ElementsOfOneMore(trace, p);
  }

  /** The recursive tracer: it lists cells of one value, never one twice, and may erase them as it goes. */
  class BlockTracer {
    const layer: Layer
    const erase: bool
    const value: int
    const visited: array2<bool>
    var iList: seq<int>
    var jList: seq<int>
    /** The values when tracing began, and the cells listed since. */
    ghost const origin: map<Pos, int>
    ghost var trace: seq<Pos>

    ghost predicate Valid()
      reads this, visited, layer, layer.cells
      ensures Valid() ==> layer.Valid()
    {
      && layer.Valid() && value != 0
      && layer.slice.Values() == Erased(origin, erase, trace)
      && visited.Length0 == layer.nx + 1 && visited.Length1 == layer.ny + 1
      && (forall i, j :: 0 <= i <= layer.nx && 0 <= j <= layer.ny ==> (visited[i, j] <==> Pos(i, j) in trace))
      && iList == Is(trace) && jList == Js(trace)
    }

    constructor (layer: Layer, erase: bool, value: int)
      requires layer.Valid() && value != 0
      ensures Valid() && fresh(visited)
      ensures this.layer == layer && this.erase == erase && this.value == value
      ensures origin == layer.slice.Values() && trace == []
    {
      this.layer, this.erase, this.value := layer, erase, value;
      visited := new bool[layer.nx + 1, layer.ny + 1]((i, j) => false);
      iList, jList := [], [];
      origin, trace := layer.slice.Values(), [];
    }

    /** Lists cell (i, j) and every cell of its value connected to it, unless it was listed or has another value. */
    method Visit(i: int, j: int)
      requires Valid() && 0 <= i < layer.nx && 0 <= j < layer.ny
      modifies this`iList, this`jList, this`trace, visited, layer`cellSum, layer`slice, layer.cells
      ensures Valid()
      ensures layer.slice.Barriers() == old(layer.slice).Barriers()
      ensures trace == old(trace) + BlockOrder(Region(origin, value) - Elements(old(trace)), Pos(i, j))
      decreases Region(origin, value) - Elements(trace), 0
    {
      hide *;
      ghost var p, region, start := Pos(i, j), Region(origin, value), trace;
      ghost var white := region - Elements(start);
      var isWhite := Enter(i, j);
      if !isWhite {
        NoOrder(white, p);
        return;
      }
      ghost var w0 := white - {p};
      ElementsOfOneMore(start, p);
      assert region - Elements(trace) == w0;
      VisitNeighbour(i - 1, j);
      ghost var left := BlockOrder(w0, Pos(i - 1, j));
      ElementsOfSum(start + [p], left);
      ghost var w1 := w0 - Elements(left);
      assert region - Elements(trace) == w1;
      VisitNeighbour(i + 1, j);
      ghost var right := BlockOrder(w1, Pos(i + 1, j));
      ElementsOfSum(start + [p] + left, right);
      ghost var w2 := w1 - Elements(right);
      assert region - Elements(trace) == w2;
      VisitNeighbour(i, j - 1);
      ghost var down := BlockOrder(w2, Pos(i, j - 1));
      ElementsOfSum(start + [p] + left + right, down);
      ghost var w3 := w2 - Elements(down);
      assert region - Elements(trace) == w3;
      VisitNeighbour(i, j + 1);
      OrderUnfolds(white, p, start, left, right, down, BlockOrder(w3, Pos(i, j + 1)));
    }

    /** Checks that a cell is of the traced value and not listed yet, and then lists it. */
    method Enter(i: int, j: int) returns (isWhite: bool)
      requires Valid() && 0 <= i < layer.nx && 0 <= j < layer.ny
      modifies this`iList, this`jList, this`trace, visited, layer`cellSum, layer`slice, layer.cells
      ensures Valid()
      ensures layer.slice.Barriers() == old(layer.slice).Barriers()
      ensures isWhite == (Pos(i, j) in Region(origin, value) - Elements(old(trace)))
      ensures trace == if isWhite then old(trace) + [Pos(i, j)] else old(trace)
    {
      hide Layer.Valid, Slice.Values, Slice.Barriers, Elements, Erased, Is, Js, Region;
      var v := layer.CellValue(i, j);
      WhiteTest(i, j);
      if v != value || visited[i, j] {
        return false;
      }
      visited[i, j] := true;
      if erase {
        layer.SetCellValue(i, j, 0);
      }
      iList, jList := iList + [i], jList + [j];
      TraceMore(origin, erase, trace, Pos(i, j));
      trace := trace + [Pos(i, j)];
      return true;
    }

    lemma WhiteTest(i: int, j: int)
      requires Valid() && 0 <= i < layer.nx && 0 <= j < layer.ny
      ensures Pos(i, j) in layer.slice.Values() && Pos(i, j) in origin
      ensures 0 <= i < visited.Length0 && 0 <= j < visited.Length1
      ensures Pos(i, j) in Region(origin, value) - Elements(trace) <==>
              layer.slice.Values()[Pos(i, j)] == value && !visited[i, j]
    {
    }

    method VisitNeighbour(i: int, j: int)
      requires Valid()
      modifies this`iList, this`jList, this`trace, visited, layer`cellSum, layer`slice, layer.cells
      ensures Valid()
      ensures layer.slice.Barriers() == old(layer.slice).Barriers()
      ensures trace == old(trace) + BlockOrder(Region(origin, value) - Elements(old(trace)), Pos(i, j))
      decreases Region(origin, value) - Elements(trace), 1
    {
      if 0 <= i < layer.nx && 0 <= j < layer.ny {
        Visit(i, j);
      } else {
        NotACell(i, j);
        NoOrder(Region(origin, value) - Elements(trace), Pos(i, j));
      }
    }

    lemma NotACell(i: int, j: int)
      requires Valid() && !(0 <= i < layer.nx && 0 <= j < layer.ny)
      ensures Pos(i, j) !in Region(origin, value)
    {
      assert origin.Keys == layer.slice.Values().Keys;
    }
  }

  /**
   * Lists the block of the cell (i, j), if the cell is not zero and `value` is zero or the value of the cell.
   * The list is the same whether or not the cells are erased.
   */
  method TraceBlockContent(layer: Layer, erase: bool, i: int, j: int, value: int)
    returns (found: bool, iList: seq<int>, jList: seq<int>)
    requires layer.Valid() && 0 <= i < layer.nx && 0 <= j < layer.ny
    modifies layer`cellSum, layer`slice, layer.cells
    ensures layer.Valid() && layer.slice.Barriers() == old(layer.slice).Barriers()
    ensures
      var values, p := old(layer.slice).Values(), Pos(i, j);
      && p in values
      && found == (values[p] != 0 && (value == 0 || value == values[p]))
      && var order := if found then BlockOrder(Region(values, values[p]), p) else [];
      && iList == Is(order) && jList == Js(order)
      && layer.slice.Values() == Erased(values, found && erase, order)
  {
    hide Layer.Valid, Slice.Values, Slice.Barriers, Region, BlockOrder, Elements;
    iList, jList := [], [];
    ghost var values := layer.slice.Values();
    var v := layer.CellValue(i, j);
    found := (value == 0 && v != 0) || (v == value && v != 0);
    if found {
      var tracer := new BlockTracer(layer, erase, v);
      NothingListed(Region(values, v), Pos(i, j));
      tracer.Visit(i, j);
      iList, jList := tracer.iList, tracer.jList;
    }
  }

  lemma NothingListed(region: set<Pos>, p: Pos)
    ensures [] + BlockOrder(region - Elements([]), p) == BlockOrder(region, p)
  {
    assert region - Elements([]) == region;
  }
}

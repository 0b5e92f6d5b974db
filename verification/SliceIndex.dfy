/** Where the cells of one slice of a grid are found in a keyword over the whole grid. */
module SliceIndex {
  import opened Arithmetic
  import opened Cells

  /** The number of cells of the whole grid. */
  function GridSize(nx: nat, ny: nat, nz: nat): nat {
    nx * ny * nz
  }

  /** The number of a cell in the whole grid. */
  function GlobalIndex(nx: nat, ny: nat, k: nat, p: Pos): int {
    p.i + p.j * nx + k * nx * ny
  }

  lemma GlobalIndexInRange(nx: nat, ny: nat, nz: nat, k: nat, p: Pos)
    requires 0 <= p.i < nx && 0 <= p.j < ny && k < nz
    ensures 0 <= GlobalIndex(nx, ny, k, p) < GridSize(nx, ny, nz)
  {
    DigitsInRange(p.i, p.j, nx, ny);
    DigitsInRange(p.i + p.j * nx, k, nx * ny, nz);
  }

  /** Different cells have different numbers, in the same slice and in different ones. */
  lemma GlobalIndexInjective(nx: nat, ny: nat, k: nat, p: Pos, k': nat, p': Pos)
    requires InBox(nx, ny, p) && InBox(nx, ny, p') && GlobalIndex(nx, ny, k, p) == GlobalIndex(nx, ny, k', p')
    ensures p == p' && k == k'
  {
    DigitsInRange(p.i, p.j, nx, ny);
    DigitsInRange(p'.i, p'.j, nx, ny);
    DigitsUnique(p.i + p.j * nx, k, p'.i + p'.j * nx, k', nx * ny);
    DigitsUnique(p.i, p.j, p'.i, p'.j, nx);
  }

  /** The numbers follow the order of the slices, and within a slice the order row by row. */
  lemma GlobalIndexFollowsOrder(nx: nat, ny: nat, k: nat, p: Pos, k': nat, p': Pos)
    requires InBox(nx, ny, p) && InBox(nx, ny, p')
    ensures GlobalIndex(nx, ny, k, p) < GlobalIndex(nx, ny, k', p') <==> k < k' || (k == k' && Before(p, p'))
  {
    LexicographicOrder(p.i, p.j, p'.i, p'.j, nx);
    DigitsInRange(p.i, p.j, nx, ny);
    DigitsInRange(p'.i, p'.j, nx, ny);
    LexicographicOrder(p.i + p.j * nx, k, p'.i + p'.j * nx, k', nx * ny);
    assert k * nx * ny == k * (nx * ny) && k' * nx * ny == k' * (nx * ny);
  }

  /** The cell and the slice with a given number. */
  function Ijk1(nx: nat, ny: nat, g: nat): (Pos, int)
    requires nx > 0 && ny > 0 && nx * ny > 0
  {
    var (k, rest) := Split(g, nx * ny);
    var (j, i) := Split(rest, nx);
    (Pos(i, j), k)
  }

  /** Numbering a cell and finding a cell by its number undo each other. */
  lemma IjkRoundTrip(nx: nat, ny: nat, nz: nat, k: nat, p: Pos)
    requires InBox(nx, ny, p) && k < nz
    ensures nx * ny > 0 && GlobalIndex(nx, ny, k, p) >= 0 && Ijk1(nx, ny, GlobalIndex(nx, ny, k, p)) == (p, k)
  {
    var row := p.i + p.j * nx;
    DigitsInRange(p.i, p.j, nx, ny);
    SplitOf(row, k, nx * ny);
    SplitOf(p.i, p.j, nx);
    assert GlobalIndex(nx, ny, k, p) == row + k * (nx * ny);
    hide Split, GlobalIndex;
  }

  /** Every number below the number of cells belongs to a cell. */
  lemma GlobalIndexOfIjk(nx: nat, ny: nat, nz: nat, g: nat)
    requires g < GridSize(nx, ny, nz)
    ensures nx > 0 && ny > 0 && nx * ny > 0
    ensures
      var (p, k) := Ijk1(nx, ny, g);
      InBox(nx, ny, p) && 0 <= k < nz && GlobalIndex(nx, ny, k, p) == g
  {
    hide Split, GridSize;
    SizeIsPositive(nx, ny, nz);
    SizeByLayers(nx, ny, nz);
    SplitBelow(g, nx * ny, nz);
    SplitBelow(Split(g, nx * ny).1, nx, ny);
  }

  lemma SizeIsPositive(nx: nat, ny: nat, nz: nat)
    requires GridSize(nx, ny, nz) > 0
    ensures nx > 0 && ny > 0 && nx * ny > 0
  {
    if nx > 0 && ny > 0 { AtLeastOnce(nx, ny); }
  }

  lemma SizeByLayers(nx: nat, ny: nat, nz: nat)
    ensures 0 <= nx * ny && GridSize(nx, ny, nz) == (nx * ny) * nz
  {
  }

  /** The number `g` is the number of a cell of slice `k`. */
  ghost predicate InSlice(nx: nat, ny: nat, k: nat, g: int) {
    exists p :: InBox(nx, ny, p) && GlobalIndex(nx, ny, k, p) == g
  }

  /** The values of one slice of a keyword. */
  ghost function KwSlice(data: seq<int>, nx: nat, ny: nat, nz: nat, k: nat): (values: map<Pos, int>)
    requires |data| == GridSize(nx, ny, nz) && k < nz
    ensures values.Keys == Box(nx, ny)
  {
    map p | p in Box(nx, ny) :: KwAt(data, nx, ny, nz, k, p)
  }

  ghost function KwAt(data: seq<int>, nx: nat, ny: nat, nz: nat, k: nat, p: Pos): int
    requires |data| == GridSize(nx, ny, nz) && k < nz && InBox(nx, ny, p)
  {
    GlobalIndexInRange(nx, ny, nz, k, p);
    data[GlobalIndex(nx, ny, k, p)]
  }

  /** Reads the value of one cell from a keyword. */
  method KwValue(data: seq<int>, nx: nat, ny: nat, nz: nat, k: nat, i: int, j: int) returns (v: int)
    requires |data| == GridSize(nx, ny, nz) && k < nz && 0 <= i < nx && 0 <= j < ny
    ensures Pos(i, j) in KwSlice(data, nx, ny, nz, k) && v == KwSlice(data, nx, ny, nz, k)[Pos(i, j)]
  {
    GlobalIndexInRange(nx, ny, nz, k, Pos(i, j));
    v := data[GlobalIndex(nx, ny, k, Pos(i, j))];
    assert v == KwAt(data, nx, ny, nz, k, Pos(i, j));
  }

  /** Writing one cell of a keyword writes that cell of its slice, and nothing in any other slice. */
  lemma KwSliceUpdate(data: seq<int>, nx: nat, ny: nat, nz: nat, k: nat, p: Pos, v: int)
    requires |data| == GridSize(nx, ny, nz) && k < nz && InBox(nx, ny, p)
    ensures
      var g := GlobalIndex(nx, ny, k, p);
      && 0 <= g < |data|
      && KwSlice(data[g := v], nx, ny, nz, k) == KwSlice(data, nx, ny, nz, k)[p := v]
      && forall k' :: 0 <= k' < nz && k' != k ==> KwSlice(data[g := v], nx, ny, nz, k') == KwSlice(data, nx, ny, nz, k')
  {
    hide GlobalIndex, GridSize;
    GlobalIndexInRange(nx, ny, nz, k, p);
    var g := GlobalIndex(nx, ny, k, p);
    var next := data[g := v];
    forall k', q | 0 <= k' < nz && InBox(nx, ny, q)
      ensures KwAt(next, nx, ny, nz, k', q) == if k' == k && q == p then v else KwAt(data, nx, ny, nz, k', q)
    {
      GlobalIndexInRange(nx, ny, nz, k', q);
      if GlobalIndex(nx, ny, k', q) == g { GlobalIndexInjective(nx, ny, k', q, k, p); }
    }
    forall k' | 0 <= k' < nz && k' != k ensures KwSlice(next, nx, ny, nz, k') == KwSlice(data, nx, ny, nz, k') {
    }
  }
}

/** Building the corners of the cells from the COORD and ZCORN arrays, and exporting ZCORN again. */
module GridGeometry {
  import opened Arithmetic
  import opened Cells
  import opened SliceIndex
  import opened Zcorn

  datatype Point = Point(x: real, y: real, z: real)

  /** A map to the coordinates of the world: it moves and turns in the plane. */
  datatype MapAxes = MapAxes(origo: (real, real), unitX: (real, real), unitY: (real, real))

  function MapaxesTransform(p: Point, m: MapAxes): Point {
    Point(m.origo.0 + p.x * m.unitX.0 + p.y * m.unitY.0, m.origo.1 + p.x * m.unitX.1 + p.y * m.unitY.1, p.z)
  }

  function Determinant(m: MapAxes): real {
    m.unitX.0 * m.unitY.1 - m.unitX.1 * m.unitY.0
  }

  function MapaxesInvtransform(p: Point, m: MapAxes): Point
    requires Determinant(m) != 0.0
  {
    var norm := 1.0 / Determinant(m);
    var dx, dy := p.x - m.origo.0, p.y - m.origo.1;
    Point((dx * m.unitY.1 - dy * m.unitY.0) * norm, (-dx * m.unitX.1 + dy * m.unitX.0) * norm, p.z)
  }

  /** Going to the coordinates of the world and back changes nothing. */
  lemma TransformRoundTrip(p: Point, m: MapAxes)
    requires Determinant(m) != 0.0
    ensures MapaxesInvtransform(MapaxesTransform(p, m), m) == p
  {
    var q := MapaxesTransform(p, m);
    var d := Determinant(m);
    var dx, dy := q.x - m.origo.0, q.y - m.origo.1;
    assert dx == p.x * m.unitX.0 + p.y * m.unitY.0 && dy == p.x * m.unitX.1 + p.y * m.unitY.1;
    assert dx * m.unitY.1 - dy * m.unitY.0 == p.x * d;
    assert -dx * m.unitX.1 + dy * m.unitX.0 == p.y * d;
    Cancels(p.x, d);
    Cancels(p.y, d);
  }

  lemma Cancels(a: real, d: real)
    requires d != 0.0
    ensures a * d * (1.0 / d) == a
  {
  }

  /** The point of a pillar at a given depth; a pillar without height is taken as upright. */
  function CrossPlane(top: Point, bottom: Point, z: real): (p: Point)
    ensures p.z == z
  {
    if bottom.z - top.z != 0.0 then
      var t := (z - top.z) / (bottom.z - top.z);
      Point(top.x + t * (bottom.x - top.x), top.y + t * (bottom.y - top.y), z)
    else Point(top.x, top.y, z)
  }

  /** That point lies on the line through the ends of the pillar. */
  lemma LiesOnPillar(top: Point, bottom: Point, z: real)
    requires bottom.z != top.z
    ensures
      var p := CrossPlane(top, bottom, z);
      && (p.x - top.x) * (bottom.z - top.z) == (p.z - top.z) * (bottom.x - top.x)
      && (p.y - top.y) * (bottom.z - top.z) == (p.z - top.z) * (bottom.y - top.y)
  {
    var e := bottom.z - top.z;
    var t := (z - top.z) / e;
    assert t * e == z - top.z;
    assert t * (bottom.x - top.x) * e == (t * e) * (bottom.x - top.x);
    assert t * (bottom.y - top.y) * e == (t * e) * (bottom.y - top.y);
  }

  function CoordSize(nx: nat, ny: nat): nat {
    6 * (nx + 1) * (ny + 1)
  }

  /** Where the six numbers of a pillar start. */
  function PillarIndex(nx: nat, i: nat, j: nat): nat {
    6 * (j * (nx + 1) + i)
  }

  lemma PillarInRange(nx: nat, ny: nat, i: nat, j: nat)
    requires i <= nx && j <= ny
    ensures PillarIndex(nx, i, j) + 6 <= CoordSize(nx, ny)
  {
    DigitsInRange(i, j, nx + 1, ny + 1);
  }

  /** The two ends of a pillar. */
  function PillarEnd(coord: seq<real>, nx: nat, ny: nat, i: nat, j: nat, end: nat): Point
    requires |coord| == CoordSize(nx, ny) && i <= nx && j <= ny && end < 2
  {
    PillarInRange(nx, ny, i, j);
    var index := PillarIndex(nx, i, j) + 3 * end;
    Point(coord[index], coord[index + 1], coord[index + 2])
  }

  /** The corner of a cell as the arrays give it. */
  ghost function CornerPoint(zcorn: seq<real>, coord: seq<real>, nx: nat, ny: nat, nz: nat, mapaxes: seq<MapAxes>,
                             at: Corner): Point
    requires |zcorn| == ZcornSize(nx, ny, nz) && |coord| == CoordSize(nx, ny) && InGrid(nx, ny, nz, at)
  {
    IndexInRange(nx, ny, nz, at);
    var i, j := at.i + at.c % 2, at.j + at.c / 2 % 2;
    var p := CrossPlane(PillarEnd(coord, nx, ny, i, j, 0), PillarEnd(coord, nx, ny, i, j, 1),
                        zcorn[ZcornIndex(nx, ny, at)]);
    if mapaxes == [] then p else MapaxesTransform(p, mapaxes[0])
  }

  /** The column and the row of the pillar on which a corner lies. */
  function PillarOf(at: Corner): (nat, nat) {
    (at.i + if at.c in {1, 3, 5, 7} then 1 else 0, at.j + if at.c in {2, 3, 6, 7} then 1 else 0)
  }

  /**
   * A point lies on the pillar whose six numbers start at `u`: on the line through its ends, or, if both are at one
   * height, straight above or below the first of them.
   */
  ghost predicate OnPillar(coord: seq<real>, u: nat, p: Point)
    requires u + 6 <= |coord|
  {
    var height := coord[u + 5] - coord[u + 2];
    if height == 0.0 then p.x == coord[u] && p.y == coord[u + 1]
    else
      && (p.x - coord[u]) * height == (p.z - coord[u + 2]) * (coord[u + 3] - coord[u])
      && (p.y - coord[u + 1]) * height == (p.z - coord[u + 2]) * (coord[u + 4] - coord[u + 1])
  }

  /**
   * Every corner of a cell lies on its own one of the four pillars around the cell, at the depth that belongs to it.
   */
  lemma CornerOnPillar(zcorn: seq<real>, coord: seq<real>, nx: nat, ny: nat, nz: nat, at: Corner)
    requires |zcorn| == ZcornSize(nx, ny, nz) && |coord| == CoordSize(nx, ny) && InGrid(nx, ny, nz, at)
    ensures
      var p, u := CornerPoint(zcorn, coord, nx, ny, nz, [], at), 6 * (PillarOf(at).1 * (nx + 1) + PillarOf(at).0);
      && u + 6 <= |coord| && OnPillar(coord, u, p)
      && 0 <= ZcornIndex(nx, ny, at) < |zcorn| && p.z == zcorn[ZcornIndex(nx, ny, at)]
  {
    hide CoordSize, ZcornSize, ZcornIndex, PillarIndex, CrossPlane, PillarOf, OnPillar;
    PillarBits(at);
    var (i, j) := PillarOf(at);
    PillarInRange(nx, ny, i, j);
    IndexInRange(nx, ny, nz, at);
    PillarStart(nx, i, j);
    CrossOnPillar(coord, PillarIndex(nx, i, j), PillarEnd(coord, nx, ny, i, j, 0), PillarEnd(coord, nx, ny, i, j, 1),
                  zcorn[ZcornIndex(nx, ny, at)]);
  }

  lemma PillarBits(at: Corner)
    requires at.c < 8
    ensures PillarOf(at) == (at.i + at.c % 2, at.j + at.c / 2 % 2)
  {
  }

  lemma PillarStart(nx: nat, i: nat, j: nat)
    ensures PillarIndex(nx, i, j) == 6 * (j * (nx + 1) + i)
  {
  }

  lemma CrossOnPillar(coord: seq<real>, u: nat, top: Point, bottom: Point, z: real)
    requires u + 6 <= |coord| && top == Point(coord[u], coord[u + 1], coord[u + 2])
    requires bottom == Point(coord[u + 3], coord[u + 4], coord[u + 5])
    ensures OnPillar(coord, u, CrossPlane(top, bottom, z))
  {
    if bottom.z != top.z {
      LiesOnPillar(top, bottom, z);
      hide CrossPlane;
    }
  }

  /** Corners of different cells on one pillar lie on one line with the ends of the pillar. */
  lemma CornersShareLine(coord: seq<real>, u: nat, p: Point, q: Point)
    requires u + 6 <= |coord| && OnPillar(coord, u, p) && OnPillar(coord, u, q)
    ensures (p.x - q.x) * (coord[u + 5] - coord[u + 2]) == (p.z - q.z) * (coord[u + 3] - coord[u]) ||
            coord[u + 5] == coord[u + 2]
    ensures (p.y - q.y) * (coord[u + 5] - coord[u + 2]) == (p.z - q.z) * (coord[u + 4] - coord[u + 1]) ||
            coord[u + 5] == coord[u + 2]
    ensures coord[u + 5] == coord[u + 2] ==> p.x == q.x && p.y == q.y
  {
    var h := coord[u + 5] - coord[u + 2];
    Subtract(p.x - coord[u], q.x - coord[u], h);
    Subtract(p.y - coord[u + 1], q.y - coord[u + 1], h);
    Subtract(p.z - coord[u + 2], q.z - coord[u + 2], coord[u + 3] - coord[u]);
    Subtract(p.z - coord[u + 2], q.z - coord[u + 2], coord[u + 4] - coord[u + 1]);
  }

  lemma Subtract(a: real, b: real, h: real)
    ensures (a - b) * h == a * h - b * h
  {
  }

  /** The map takes the origin and the two unit points to the points that define it. */
  lemma TransformOfUnits(m: MapAxes, z: real)
    ensures MapaxesTransform(Point(0.0, 0.0, z), m) == Point(m.origo.0, m.origo.1, z)
    ensures MapaxesTransform(Point(1.0, 0.0, z), m) == Point(m.origo.0 + m.unitX.0, m.origo.1 + m.unitX.1, z)
    ensures MapaxesTransform(Point(0.0, 1.0, z), m) == Point(m.origo.0 + m.unitY.0, m.origo.1 + m.unitY.1, z)
  {
  }

  /** The map keeps lines, and the ratios in which points divide them: `r` divides the line from `p` to `q`. */
  lemma TransformKeepsRatios(m: MapAxes, p: Point, q: Point, r: Point, t: real)
    requires r.x == p.x + t * (q.x - p.x) && r.y == p.y + t * (q.y - p.y)
    ensures
      var a, b, c := MapaxesTransform(p, m), MapaxesTransform(q, m), MapaxesTransform(r, m);
      c.x == a.x + t * (b.x - a.x) && c.y == a.y + t * (b.y - a.y) && c.z == r.z
  {
    var a, b, c := MapaxesTransform(p, m), MapaxesTransform(q, m), MapaxesTransform(r, m);
    OnRatio(m.origo.0, p, q, r, m.unitX.0, m.unitY.0, t, a.x, b.x, c.x);
    OnRatio(m.origo.1, p, q, r, m.unitX.1, m.unitY.1, t, a.y, b.y, c.y);
  }

  lemma OnRatio(o: real, p: Point, q: Point, r: Point, u: real, v: real, t: real, a: real, b: real, c: real)
    requires r.x == p.x + t * (q.x - p.x) && r.y == p.y + t * (q.y - p.y)
    requires a == o + p.x * u + p.y * v && b == o + q.x * u + q.y * v && c == o + r.x * u + r.y * v
    ensures c == a + t * (b - a)
  {
    Scaled(p.x, q.x, u, t);
    Scaled(p.y, q.y, v, t);
    var d, e := q.x * u - p.x * u, q.y * v - p.y * v;
    assert b - a == d + e;
    assert t * (d + e) == t * d + t * e;
  }

  lemma Scaled(p: real, q: real, u: real, t: real)
    ensures (p + t * (q - p)) * u == p * u + t * (q * u - p * u)
  {
  }

  class CornerGrid {
    const nx: nat
    const ny: nat
    const nz: nat
    /** The map to the world, if there is one. */
    const mapaxes: seq<MapAxes>
    /** The eight corners of each cell. */
    const corners: array2<Point>

    ghost predicate Valid() {
      corners.Length0 == GridSize(nx, ny, nz) && corners.Length1 == 8
    }

    constructor (nx: nat, ny: nat, nz: nat, mapaxes: seq<MapAxes>)
      ensures Valid() && this.nx == nx && this.ny == ny && this.nz == nz && this.mapaxes == mapaxes && fresh(corners)
    {
      this.nx, this.ny, this.nz, this.mapaxes := nx, ny, nz, mapaxes;
      corners := new Point[GridSize(nx, ny, nz), 8]((g, c) => Point(0.0, 0.0, 0.0));
    }

    function CornerOf(at: Corner): Point
      requires Valid() && InGrid(nx, ny, nz, at)
      reads corners
    {
      GlobalIndexInRange(nx, ny, nz, at.k, Pos(at.i, at.j));
      corners[GlobalIndex(nx, ny, at.k, Pos(at.i, at.j)), at.c]
    }

    /** The corners of one cell are those that the arrays give. */
    ghost predicate CellBuilt(zcorn: seq<real>, coord: seq<real>, i: nat, j: nat, k: nat)
      requires Valid() && |zcorn| == ZcornSize(nx, ny, nz) && |coord| == CoordSize(nx, ny) && i < nx && j < ny && k < nz
      reads corners
    {
      forall c :: 0 <= c < 8 ==>
        CornerOf(Corner(i, j, k, c)) == CornerPoint(zcorn, coord, nx, ny, nz, mapaxes, Corner(i, j, k, c))
    }

    /** Sets the corners of one cell. */
    method SetCellEgrid(i: nat, j: nat, k: nat, points: seq<Point>)
      requires Valid() && i < nx && j < ny && k < nz && |points| == 8
      modifies corners
      ensures forall c :: 0 <= c < 8 ==>
                CornerOf(Corner(i, j, k, c)) ==
                  if mapaxes == [] then points[c] else MapaxesTransform(points[c], mapaxes[0])
      ensures forall at :: InGrid(nx, ny, nz, at) && (at.i != i || at.j != j || at.k != k) ==>
              CornerOf(at) == old(CornerOf(at))
    {
      var g := GlobalIndex(nx, ny, k, Pos(i, j));
      GlobalIndexInRange(nx, ny, nz, k, Pos(i, j));
      for iz := 0 to 2
        invariant forall c :: 0 <= c < 4 * iz ==>
                  corners[g, c] == if mapaxes == [] then points[c] else MapaxesTransform(points[c], mapaxes[0])
        invariant forall h, c :: 0 <= h < corners.Length0 && 0 <= c < 8 && h != g ==>
                  corners[h, c] == old(corners[h, c])
      {
        for ip := 0 to 4
          invariant forall c :: 0 <= c < 4 * iz + ip ==>
                    corners[g, c] == if mapaxes == [] then points[c] else MapaxesTransform(points[c], mapaxes[0])
          invariant forall h, c :: 0 <= h < corners.Length0 && 0 <= c < 8 && h != g ==>
                    corners[h, c] == old(corners[h, c])
        {
          var c := ip + iz * 4;
          corners[g, c] := points[c];
          if mapaxes != [] { corners[g, c] := MapaxesTransform(corners[g, c], mapaxes[0]); }
        }
      }
      forall at | InGrid(nx, ny, nz, at) && (at.i != i || at.j != j || at.k != k)
        ensures CornerOf(at) == old(CornerOf(at))
      {
        GlobalIndexInRange(nx, ny, nz, at.k, Pos(at.i, at.j));
        if GlobalIndex(nx, ny, at.k, Pos(at.i, at.j)) == g {
          GlobalIndexInjective(nx, ny, at.k, Pos(at.i, at.j), k, Pos(i, j));
        }
      }
    }

    /** The eight corners of a cell, from the ends of its pillars and its depths. */
    method CellPoints(zcorn: seq<real>, coord: seq<real>, i: nat, j: nat, k: nat) returns (points: seq<Point>)
      requires Valid() && |zcorn| == ZcornSize(nx, ny, nz) && |coord| == CoordSize(nx, ny) && i < nx && j < ny && k < nz
      ensures |points| == 8
      ensures forall c :: 0 <= c < 8 ==> points[c] == CornerPoint(zcorn, coord, nx, ny, nz, [], Corner(i, j, k, c))
    {
      hide CrossPlane, PillarEnd, ZcornSize, CoordSize, FacePlaces, ZcornIndex;
      points := [];
      for l := 0 to 2
        invariant |points| == 4 * l
        invariant forall d :: 0 <= d < 4 * l ==>
                  points[d] == CornerPoint(zcorn, coord, nx, ny, nz, [], Corner(i, j, k, d))
      {
        FacePlacesAreIndices(nx, ny, i, j, k, l);
        IndexInRange(nx, ny, nz, Corner(i, j, k, 4 * l));
        IndexInRange(nx, ny, nz, Corner(i, j, k, 4 * l + 1));
        IndexInRange(nx, ny, nz, Corner(i, j, k, 4 * l + 2));
        IndexInRange(nx, ny, nz, Corner(i, j, k, 4 * l + 3));
        var places := FacePlaces(nx, ny, i, j, k, l);
        points := points + [
          CrossPlane(PillarEnd(coord, nx, ny, i, j, 0), PillarEnd(coord, nx, ny, i, j, 1), zcorn[places.0]),
          CrossPlane(PillarEnd(coord, nx, ny, i + 1, j, 0), PillarEnd(coord, nx, ny, i + 1, j, 1), zcorn[places.1]),
          CrossPlane(PillarEnd(coord, nx, ny, i, j + 1, 0), PillarEnd(coord, nx, ny, i, j + 1, 1), zcorn[places.2]),
          CrossPlane(PillarEnd(coord, nx, ny, i + 1, j + 1, 0), PillarEnd(coord, nx, ny, i + 1, j + 1, 1),
                     zcorn[places.3])];
      }
    }

    method BuildCell(zcorn: seq<real>, coord: seq<real>, i: nat, j: nat, k: nat)
      requires Valid() && |zcorn| == ZcornSize(nx, ny, nz) && |coord| == CoordSize(nx, ny) && i < nx && j < ny && k < nz
      modifies corners
      ensures CellBuilt(zcorn, coord, i, j, k)
      ensures forall at :: InGrid(nx, ny, nz, at) && (at.i != i || at.j != j || at.k != k) ==>
              CornerOf(at) == old(CornerOf(at))
      ensures forall i', j', k' :: (0 <= i' < nx && 0 <= j' < ny && 0 <= k' < nz && (i' != i || j' != j || k' != k)
                && old(CellBuilt(zcorn, coord, i', j', k'))) ==>
                CellBuilt(zcorn, coord, i', j', k')
    {
      hide CrossPlane, PillarEnd, ZcornSize, CoordSize, ZcornIndex, MapaxesTransform, CornerOf;
      var points := CellPoints(zcorn, coord, i, j, k);
      SetCellEgrid(i, j, k, points);
    }

    /** Builds the cells of one row of all layers, and leaves all other cells as they are. */
    method InitGrdeclDataJslice(zcorn: seq<real>, coord: seq<real>, j: nat)
      requires Valid() && |zcorn| == ZcornSize(nx, ny, nz) && |coord| == CoordSize(nx, ny) && j < ny
      modifies corners
      ensures forall i, k :: 0 <= i < nx && 0 <= k < nz ==> CellBuilt(zcorn, coord, i, j, k)
      ensures forall at :: InGrid(nx, ny, nz, at) && at.j != j ==> CornerOf(at) == old(CornerOf(at))
      ensures forall i, j', k :: (0 <= i < nx && 0 <= j' < ny && 0 <= k < nz && j' != j
                && old(CellBuilt(zcorn, coord, i, j', k))) ==>
                CellBuilt(zcorn, coord, i, j', k)
    {
      hide CellBuilt, CornerOf;
      for i := 0 to nx
        invariant forall i', k :: 0 <= i' < i && 0 <= k < nz ==> CellBuilt(zcorn, coord, i', j, k)
        invariant forall at :: InGrid(nx, ny, nz, at) && at.j != j ==> CornerOf(at) == old(CornerOf(at))
        invariant forall i', j', k' :: (0 <= i' < nx && 0 <= j' < ny && 0 <= k' < nz && j' != j
                && old(CellBuilt(zcorn, coord, i', j', k'))) ==>
                CellBuilt(zcorn, coord, i', j', k')
      {
        for k := 0 to nz
          invariant forall i', k' :: 0 <= i' < i && 0 <= k' < nz ==> CellBuilt(zcorn, coord, i', j, k')
          invariant forall k' :: 0 <= k' < k ==> CellBuilt(zcorn, coord, i, j, k')
          invariant forall at :: InGrid(nx, ny, nz, at) && at.j != j ==> CornerOf(at) == old(CornerOf(at))
          invariant forall i', j', k' :: (0 <= i' < nx && 0 <= j' < ny && 0 <= k' < nz && j' != j
                && old(CellBuilt(zcorn, coord, i', j', k'))) ==>
                CellBuilt(zcorn, coord, i', j', k')
        {
          BuildCell(zcorn, coord, i, j, k);
        }
      }
    }

    /** Every corner of every cell is the one that the arrays give. */
    ghost predicate Built(zcorn: seq<real>, coord: seq<real>)
      requires Valid() && |zcorn| == ZcornSize(nx, ny, nz) && |coord| == CoordSize(nx, ny)
      reads corners
    {
      forall i, j, k :: 0 <= i < nx && 0 <= j < ny && 0 <= k < nz ==> CellBuilt(zcorn, coord, i, j, k)
    }

    /** Builds all cells. */
    method InitGrdeclData(zcorn: seq<real>, coord: seq<real>)
      requires Valid() && |zcorn| == ZcornSize(nx, ny, nz) && |coord| == CoordSize(nx, ny)
      modifies corners
      ensures Built(zcorn, coord)
    {
      hide CellBuilt, CornerOf;
      for j := 0 to ny
        invariant forall i, j', k :: 0 <= i < nx && 0 <= j' < j && 0 <= k < nz ==> CellBuilt(zcorn, coord, i, j', k)
      {
        InitGrdeclDataJslice(zcorn, coord, j);
      }
    }

    /** The depths of one cell stand at their places in the array. */
    ghost predicate CellExported(zcorn: seq<real>, i: nat, j: nat, k: nat)
      requires Valid() && |zcorn| == ZcornSize(nx, ny, nz) && i < nx && j < ny && k < nz
      reads corners
    {
      forall c :: 0 <= c < 8 ==> DepthAt(zcorn, Corner(i, j, k, c)) == CornerOf(Corner(i, j, k, c)).z
    }

    ghost function DepthAt(zcorn: seq<real>, at: Corner): real
      requires |zcorn| == ZcornSize(nx, ny, nz) && InGrid(nx, ny, nz, at)
    {
      IndexInRange(nx, ny, nz, at);
      zcorn[ZcornIndex(nx, ny, at)]
    }

    /** Writes the depths of one cell. */
    method ExportCell(zcorn: array<real>, i: nat, j: nat, k: nat)
      requires Valid() && zcorn.Length == ZcornSize(nx, ny, nz) && i < nx && j < ny && k < nz
      modifies zcorn
      ensures CellExported(zcorn[..], i, j, k)
      ensures forall i', j', k' :: (0 <= i' < nx && 0 <= j' < ny && 0 <= k' < nz && (i' != i || j' != j || k' != k)
                && old(CellExported(zcorn[..], i', j', k'))) ==>
                CellExported(zcorn[..], i', j', k')
    {
      hide ZcornSize, ZcornIndex, FacePlaces, CornerOf;
      for l := 0 to 2
        invariant forall c :: 0 <= c < 4 * l ==>
                  DepthAt(zcorn[..], Corner(i, j, k, c)) == CornerOf(Corner(i, j, k, c)).z
        invariant forall at :: InGrid(nx, ny, nz, at) && (at.i != i || at.j != j || at.k != k) ==>
                    DepthAt(zcorn[..], at) == DepthAt(old(zcorn[..]), at)
      {
        FacePlacesAreIndices(nx, ny, i, j, k, l);
        ghost var p0, p1, p2, p3 := Corner(i, j, k, 4 * l), Corner(i, j, k, 4 * l + 1), Corner(i, j, k, 4 * l + 2),
          Corner(i, j, k, 4 * l + 3);
        IndexInRange(nx, ny, nz, p0);
        IndexInRange(nx, ny, nz, p1);
        IndexInRange(nx, ny, nz, p2);
        IndexInRange(nx, ny, nz, p3);
        var places := FacePlaces(nx, ny, i, j, k, l);
        ghost var was := zcorn[..];
        zcorn[places.0] := CornerOf(Corner(i, j, k, 4 * l)).z;
        zcorn[places.1] := CornerOf(Corner(i, j, k, 4 * l + 1)).z;
        zcorn[places.2] := CornerOf(Corner(i, j, k, 4 * l + 2)).z;
        zcorn[places.3] := CornerOf(Corner(i, j, k, 4 * l + 3)).z;
        forall at | InGrid(nx, ny, nz, at)
          ensures DepthAt(zcorn[..], at) == if at in {p0, p1, p2, p3} then CornerOf(at).z else DepthAt(was, at)
        {
          IndexInRange(nx, ny, nz, at);
          forall p | p in {p0, p1, p2, p3} && ZcornIndex(nx, ny, p) == ZcornIndex(nx, ny, at) ensures p == at {
            IndexIsInjective(nx, ny, nz, p, at);
          }
        }
      }
    }

    /** Writes the depths of all cells. */
    method InitZcornData(zcorn: array<real>)
      requires Valid() && zcorn.Length == ZcornSize(nx, ny, nz)
      modifies zcorn
      ensures Exported(zcorn[..])
    {
      hide CellExported;
      for j := 0 to ny
        invariant forall i, j', k :: 0 <= i < nx && 0 <= j' < j && 0 <= k < nz ==> CellExported(zcorn[..], i, j', k)
      {
        for i := 0 to nx
          invariant forall i', j', k :: 0 <= i' < nx && 0 <= j' < j && 0 <= k < nz ==>
                    CellExported(zcorn[..], i', j', k)
          invariant forall i', k :: 0 <= i' < i && 0 <= k < nz ==> CellExported(zcorn[..], i', j, k)
        {
          for k := 0 to nz
            invariant forall i', j', k' :: 0 <= i' < nx && 0 <= j' < j && 0 <= k' < nz ==>
                      CellExported(zcorn[..], i', j', k')
            invariant forall i', k' :: 0 <= i' < i && 0 <= k' < nz ==> CellExported(zcorn[..], i', j, k')
            invariant forall k' :: 0 <= k' < k ==> CellExported(zcorn[..], i, j, k')
          {
            ExportCell(zcorn, i, j, k);
          }
        }
      }
    }

    /** The array holds the depth of every corner. */
    ghost predicate Exported(zcorn: seq<real>)
      requires Valid() && |zcorn| == ZcornSize(nx, ny, nz)
      reads corners
    {
      forall i, j, k :: 0 <= i < nx && 0 <= j < ny && 0 <= k < nz ==> CellExported(zcorn, i, j, k)
    }

    /**
     * Exporting from a grid that was built from an array gives that array back, at every place, with or without a map.
     */
    lemma ExportUndoesBuild(zcorn: seq<real>, coord: seq<real>, exported: seq<real>)
      requires Valid() && |zcorn| == |exported| == ZcornSize(nx, ny, nz) && |coord| == CoordSize(nx, ny)
      requires Built(zcorn, coord) && Exported(exported)
      ensures exported == zcorn
    {
      hide ZcornIndex, ZcornSize, CornerAt, CornerOf, PillarEnd;
      forall m | 0 <= m < |zcorn| ensures exported[m] == zcorn[m] {
        IndexIsOnto(nx, ny, nz, m);
        var at := CornerAt(nx, ny, m);
        assert CellBuilt(zcorn, coord, at.i, at.j, at.k) && CellExported(exported, at.i, at.j, at.k);
        assert at == Corner(at.i, at.j, at.k, at.c);
        assert DepthAt(exported, at) == CornerOf(at).z;
      }
    }
  }
}

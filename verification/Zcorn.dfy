/** Where the depths of the corners of the cells are kept in the ZCORN array. */
module Zcorn {
  import opened Arithmetic

  /** A corner of a cell: 0 to 3 on top, 4 to 7 at the bottom. */
  datatype Corner = Corner(i: nat, j: nat, k: nat, c: nat)

  predicate InGrid(nx: nat, ny: nat, nz: nat, at: Corner) {
    at.i < nx && at.j < ny && at.k < nz && at.c < 8
  }

  function ZcornSize(nx: nat, ny: nat, nz: nat): nat {
    8 * nx * ny * nz
  }

  function ZcornIndex(nx: nat, ny: nat, at: Corner): int {
    at.k * 8 * nx * ny + at.j * 4 * nx + 2 * at.i
    + (if at.c % 2 == 1 then 1 else 0)
    + (if at.c % 4 == 2 then 2 * nx else 0)
    + (if at.c % 4 == 3 then 2 * nx else 0)
    + (if at.c >= 4 then 4 * nx * ny else 0)
  }

  /**
   * The four places of the top (`l` = 0) or the bottom (`l` = 1) of a cell, as the loops over the cells compute them.
   */
  function FacePlaces(nx: nat, ny: nat, i: nat, j: nat, k: nat, l: nat): (int, int, int, int) {
    (k * 8 * nx * ny + j * 4 * nx + 2 * i + l * 4 * nx * ny,
     k * 8 * nx * ny + j * 4 * nx + 2 * i + 1 + l * 4 * nx * ny,
     k * 8 * nx * ny + j * 4 * nx + 2 * nx + 2 * i + l * 4 * nx * ny,
     k * 8 * nx * ny + j * 4 * nx + 2 * nx + 2 * i + 1 + l * 4 * nx * ny)
  }

  /** The loops and the index function agree. */
  lemma FacePlacesAreIndices(nx: nat, ny: nat, i: nat, j: nat, k: nat, l: nat)
    requires l < 2
    ensures FacePlaces(nx, ny, i, j, k, l) ==
            (ZcornIndex(nx, ny, Corner(i, j, k, 4 * l)), ZcornIndex(nx, ny, Corner(i, j, k, 4 * l + 1)),
             ZcornIndex(nx, ny, Corner(i, j, k, 4 * l + 2)), ZcornIndex(nx, ny, Corner(i, j, k, 4 * l + 3)))
  {
  }

  /** The corner whose depth stands at a place in the array. */
  function CornerAt(nx: nat, ny: nat, m: nat): Corner
    requires nx > 0 && ny > 0
  {
    var (row, x) := Split(m, 2 * nx);
    var (z, y) := Split(row, 2 * ny);
    Corner(x / 2, y / 2, z / 2, x % 2 + 2 * (y % 2) + 4 * (z % 2))
  }

  /** The corners of all cells form one lattice, twice as fine as that of the cells in each direction. */
  lemma IndexInLattice(nx: nat, ny: nat, at: Corner)
    requires at.c < 8
    ensures
      var x, y, z := 2 * at.i + at.c % 2, 2 * at.j + at.c / 2 % 2, 2 * at.k + at.c / 4;
      ZcornIndex(nx, ny, at) == x + (y + z * (2 * ny)) * (2 * nx)
  {
    var x, y, z := 2 * at.i + at.c % 2, 2 * at.j + at.c / 2 % 2, 2 * at.k + at.c / 4;
    assert at.c == at.c % 2 + 2 * (at.c / 2 % 2) + 4 * (at.c / 4);
    assert at.c / 2 % 2 == if at.c % 4 == 2 || at.c % 4 == 3 then 1 else 0;
    assert at.c / 4 == if at.c >= 4 then 1 else 0;
    LatticeSum(nx, ny, at.i, at.j, at.k, at.c % 2, at.c / 2 % 2, at.c / 4);
  }

  lemma LatticeSum(nx: nat, ny: nat, i: nat, j: nat, k: nat, di: nat, dj: nat, dk: nat)
    ensures k * 8 * nx * ny + j * 4 * nx + 2 * i + di + dj * (2 * nx) + dk * (4 * nx * ny)
            == (2 * i + di) + ((2 * j + dj) + (2 * k + dk) * (2 * ny)) * (2 * nx)
  {
    assert (2 * k + dk) * (2 * ny) * (2 * nx) == 8 * (k * nx * ny) + 4 * (dk * nx * ny);
    assert (2 * j + dj) * (2 * nx) == 4 * (j * nx) + 2 * (dj * nx);
  }

  /** Every corner has its own place in the array. */
  lemma IndexIsInjective(nx: nat, ny: nat, nz: nat, a: Corner, b: Corner)
    requires InGrid(nx, ny, nz, a) && InGrid(nx, ny, nz, b) && ZcornIndex(nx, ny, a) == ZcornIndex(nx, ny, b)
    ensures a == b
  {
    hide ZcornIndex;
    IndexInLattice(nx, ny, a);
    IndexInLattice(nx, ny, b);
    var y, y' := 2 * a.j + a.c / 2 % 2, 2 * b.j + b.c / 2 % 2;
    var z, z' := 2 * a.k + a.c / 4, 2 * b.k + b.c / 4;
    DigitsUnique(2 * a.i + a.c % 2, y + z * (2 * ny), 2 * b.i + b.c % 2, y' + z' * (2 * ny), 2 * nx);
    DigitsUnique(y, z, y', z', 2 * ny);
    SameBits(a.c, b.c, a.i, b.i, a.j, b.j, a.k, b.k);
  }

  lemma SameBits(c: nat, c': nat, i: nat, i': nat, j: nat, j': nat, k: nat, k': nat)
    requires c < 8 && c' < 8
    requires 2 * i + c % 2 == 2 * i' + c' % 2 && 2 * j + c / 2 % 2 == 2 * j' + c' / 2 % 2 &&
             2 * k + c / 4 == 2 * k' + c' / 4
    ensures c == c' && i == i' && j == j' && k == k'
  {
  }

  lemma IndexInRange(nx: nat, ny: nat, nz: nat, at: Corner)
    requires InGrid(nx, ny, nz, at)
    ensures 0 <= ZcornIndex(nx, ny, at) < ZcornSize(nx, ny, nz)
  {
    IndexInLattice(nx, ny, at);
    SizeAsProduct(nx, ny, nz);
    hide ZcornIndex, ZcornSize;
    DigitsInRange(2 * at.j + at.c / 2 % 2, 2 * at.k + at.c / 4, 2 * ny, 2 * nz);
    DigitsInRange(2 * at.i + at.c % 2, 2 * at.j + at.c / 2 % 2 + (2 * at.k + at.c / 4) * (2 * ny), 2 * nx,
                  2 * ny * (2 * nz));
  }

  /** Every place in the array belongs to a corner. */
  lemma IndexIsOnto(nx: nat, ny: nat, nz: nat, m: nat)
    requires m < ZcornSize(nx, ny, nz)
    ensures nx > 0 && ny > 0 && InGrid(nx, ny, nz, CornerAt(nx, ny, m)) && ZcornIndex(nx, ny, CornerAt(nx, ny, m)) == m
  {
    SizeAsProduct(nx, ny, nz);
    SizeIsPositive(nx, ny, nz);
    hide ZcornIndex, ZcornSize, Split;
    var (row, x) := Split(m, 2 * nx);
    var (z, y) := Split(row, 2 * ny);
    SplitBelow(m, 2 * nx, 2 * ny * (2 * nz));
    SplitBelow(row, 2 * ny, 2 * nz);
    Bits(x, y, z);
    IndexInLattice(nx, ny, CornerAt(nx, ny, m));
  }

  lemma Bits(x: nat, y: nat, z: nat)
    ensures
      var c := x % 2 + 2 * (y % 2) + 4 * (z % 2);
      c < 8 && 2 * (x / 2) + c % 2 == x && 2 * (y / 2) + c / 2 % 2 == y && 2 * (z / 2) + c / 4 == z
  {
  }

  lemma SizeAsProduct(nx: nat, ny: nat, nz: nat)
    ensures ZcornSize(nx, ny, nz) == 2 * nx * (2 * ny * (2 * nz))
  {
    var n := nx * ny * nz;
    assert 2 * nx * (2 * ny * (2 * nz)) == 8 * n;
  }

  lemma SizeIsPositive(nx: nat, ny: nat, nz: nat)
    requires ZcornSize(nx, ny, nz) > 0
    ensures nx > 0 && ny > 0 && nz > 0
  {
  }
}

/** The cells of one horizontal slice of a grid, and what it means for two of them to be linked. */
module Cells {

  /** A cell (or a cell corner) in the (i, j) plane. */
  datatype Pos = Pos(i: int, j: int)

  predicate InBox(nx: nat, ny: nat, p: Pos) {
    0 <= p.i < nx && 0 <= p.j < ny
  }

  /** All cells of an nx * ny slice. */
  ghost function Box(nx: nat, ny: nat): (box: set<Pos>)
    ensures forall p :: p in box <==> InBox(nx, ny, p)
  {
    set i, j | 0 <= i < nx && 0 <= j < ny :: Pos(i, j)
  }

  /** The walls between cells: `left` holds the cells with a wall on their left side, `bottom` those with one below. */
  datatype Walls = Walls(left: set<Pos>, bottom: set<Pos>)

  const NO_WALLS := Walls({}, {})

  /** Two cells that share a side which is not a wall. */
  predicate Linked(w: Walls, a: Pos, b: Pos) {
    || (a.j == b.j && a.i == b.i + 1 && a !in w.left)
    || (a.j == b.j && b.i == a.i + 1 && b !in w.left)
    || (a.i == b.i && a.j == b.j + 1 && a !in w.bottom)
    || (a.i == b.i && b.j == a.j + 1 && b !in w.bottom)
  }

  /** Two cells that share a side. */
  predicate Adjacent(a: Pos, b: Pos) {
    Linked(NO_WALLS, a, b)
  }

  /** The order in which the loops visit the cells: row by row. */
  predicate Before(p: Pos, q: Pos) {
    p.j < q.j || (p.j == q.j && p.i < q.i)
  }

  /** Visiting one more cell, and going to the next row. */
  lemma BeforeNext(i: int, j: int)
    ensures forall q :: Before(q, Pos(i + 1, j)) <==> Before(q, Pos(i, j)) || q == Pos(i, j)
    ensures !Before(Pos(i, j), Pos(i, j))
  {
  }

  lemma BeforeNextRow(nx: nat, ny: nat, j: int)
    ensures forall q :: InBox(nx, ny, q) ==> (Before(q, Pos(nx, j)) <==> Before(q, Pos(0, j + 1)))
  {
  }

  /** The four corners of a cell. */
  function CellCorners(p: Pos): set<Pos> {
    {p, Right(p), Up(p), Right(Up(p))}
  }

  function Left(p: Pos): Pos { Pos(p.i - 1, p.j) }
  function Right(p: Pos): Pos { Pos(p.i + 1, p.j) }
  function Up(p: Pos): Pos { Pos(p.i, p.j + 1) }
  function Down(p: Pos): Pos { Pos(p.i, p.j - 1) }
}

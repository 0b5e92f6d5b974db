/** Which cells of a grid are active, and how active cells and coarse groups of cells are numbered. */
module ActiveIndex {

  /** A cell may be active in the matrix, in the fractures, or in both. */
  datatype Kind = Matrix | Fracture

  /** The bit of an active value that stands for the kind. */
  predicate On(kind: Kind, value: int) {
    if kind == Matrix then value % 2 == 1 else (value / 2) % 2 == 1
  }

  /** An active value is the sum of its bits: one for the matrix and two for the fractures. */
  lemma SumOfBits(value: int)
    requires 0 <= value <= 3
    ensures value == (if On(Matrix, value) then 1 else 0) + (if On(Fracture, value) then 2 else 0)
  {
  }

  /** How many of the first `m` active values are among the given ones. */
  ghost function CountOf(active: seq<int>, values: set<int>, m: nat): nat
    requires m <= |active|
  {
    if m == 0 then 0 else CountOf(active, values, m - 1) + if active[m - 1] in values then 1 else 0
  }

  const NO_GROUP := -1

  /** The active value and the coarse group of every cell. */
  datatype GridCells = GridCells(active: seq<int>, group: seq<int>) {
    ghost predicate Valid() {
      |active| == |group| && forall x :: 0 <= x < |group| ==> group[x] >= NO_GROUP
    }
  }

  /** The cells of a coarse group among the first `m` cells, in order. */
  ghost function Members(g: GridCells, c: int, m: nat): seq<int>
    requires g.Valid() && m <= |g.active|
  {
    if m == 0 then [] else Members(g, c, m - 1) + if g.group[m-1] == c then [m - 1] else []
  }

  /** The active cells of a coarse group among the first `m` cells, in order. */
  ghost function Actives(g: GridCells, c: int, m: nat): seq<int>
    requires g.Valid() && m <= |g.active|
  {
    if m == 0 then [] else Actives(g, c, m - 1) + if g.group[m-1] == c && g.active[m-1] != 0 then [m - 1] else []
  }

  /** A cell that gets an index of its own: it is in no group, or the first active cell of its group. */
  ghost predicate IsRep(g: GridCells, kind: Kind, x: int)
    requires g.Valid()
  {
    0 <= x < |g.active| && On(kind, g.active[x]) && (g.group[x] == NO_GROUP || Actives(g, g.group[x], x) == [])
  }

  /** The cells among the first `m` that get an index of their own, in order. */
  ghost function Reps(g: GridCells, kind: Kind, m: nat): seq<int>
    requires g.Valid() && m <= |g.active|
  {
    if m == 0 then [] else Reps(g, kind, m - 1) + if IsRep(g, kind, m - 1) then [m - 1] else []
  }

  /** All active cells of a group have the same active value. */
  ghost predicate Uniform(g: GridCells, m: nat)
    requires g.Valid() && m <= |g.active|
  {
    forall x, y :: 0 <= x < m && 0 <= y < m ==> Agree(g, x, y)
  }

  /** Two cells do not contradict each other: if both are active cells of one group, their active values are equal. */
  ghost predicate Agree(g: GridCells, x: int, y: int)
    requires g.Valid() && 0 <= x < |g.active| && 0 <= y < |g.active|
  {
    g.group[x] == g.group[y] != NO_GROUP && g.active[x] != 0 && g.active[y] != 0 ==> g.active[x] == g.active[y]
  }

  lemma OnIsActive(kind: Kind, value: int)
    requires On(kind, value)
    ensures value != 0
  {
  }

  lemma {:induction false} ActivesMeaning(g: GridCells, c: int, m: nat)
    requires g.Valid() && m <= |g.active|
    ensures forall k :: 0 <= k < |Actives(g, c, m)| ==>
              var x := Actives(g, c, m)[k]; 0 <= x < m && g.group[x] == c && g.active[x] != 0
    ensures forall x :: 0 <= x < m && g.group[x] == c && g.active[x] != 0 ==> x in Actives(g, c, m)
    ensures forall k, l :: 0 <= k < l < |Actives(g, c, m)| ==> Actives(g, c, m)[k] < Actives(g, c, m)[l]
  {
    if m > 0 { ActivesMeaning(g, c, m - 1); }
  }

  lemma {:induction false} ActivesPrefix(g: GridCells, c: int, m: nat, n: nat)
    requires g.Valid() && m <= n <= |g.active|
    ensures Actives(g, c, m) <= Actives(g, c, n)
  {
    if m < n { ActivesPrefix(g, c, m, n - 1); }
  }

  lemma {:induction false} MembersMeaning(g: GridCells, c: int, m: nat)
    requires g.Valid() && m <= |g.active|
    ensures forall k :: 0 <= k < |Members(g, c, m)| ==> var x := Members(g, c, m)[k]; 0 <= x < m && g.group[x] == c
    ensures forall x :: 0 <= x < m && g.group[x] == c ==> x in Members(g, c, m)
    ensures forall k, l :: 0 <= k < l < |Members(g, c, m)| ==> Members(g, c, m)[k] < Members(g, c, m)[l]
  {
    if m > 0 { MembersMeaning(g, c, m - 1); }
  }

  /** The cells with an index of their own are listed in ascending order, and no other cell is listed. */
  lemma {:induction false} RepsMeaning(g: GridCells, kind: Kind, m: nat)
    requires g.Valid() && m <= |g.active|
    ensures forall k :: 0 <= k < |Reps(g, kind, m)| ==> IsRep(g, kind, Reps(g, kind, m)[k]) && Reps(g, kind, m)[k] < m
    ensures forall x :: 0 <= x < m && IsRep(g, kind, x) ==> x in Reps(g, kind, m)
    ensures forall k, l :: 0 <= k < l < |Reps(g, kind, m)| ==> Reps(g, kind, m)[k] < Reps(g, kind, m)[l]
  {
    hide IsRep;
    if m > 0 { RepsMeaning(g, kind, m - 1); }
  }

  lemma {:induction false} RepsPrefix(g: GridCells, kind: Kind, m: nat, n: nat)
    requires g.Valid() && m <= n <= |g.active|
    ensures Reps(g, kind, m) <= Reps(g, kind, n)
  {
    hide IsRep;
    if m < n { RepsPrefix(g, kind, m, n - 1); }
  }

  /** The number of a cell with an index of its own. */
  ghost function Rank(g: GridCells, kind: Kind, x: int): nat
    requires g.Valid() && 0 <= x < |g.active|
  {
    |Reps(g, kind, x)|
  }

  /** Numbering and listing undo each other. */
  lemma RankOfRep(g: GridCells, kind: Kind, x: int, m: nat)
    requires g.Valid() && 0 <= x < m <= |g.active| && IsRep(g, kind, x)
    ensures Rank(g, kind, x) < |Reps(g, kind, m)| && Reps(g, kind, m)[Rank(g, kind, x)] == x
  {
    hide IsRep;
    RepsPrefix(g, kind, x + 1, m);
  }

  lemma RepOfRank(g: GridCells, kind: Kind, a: nat, m: nat)
    requires g.Valid() && m <= |g.active| && a < |Reps(g, kind, m)|
    ensures
      var x := Reps(g, kind, m)[a];
      0 <= x < m && IsRep(g, kind, x) && Rank(g, kind, x) == a
  {
    hide IsRep;
    RepsMeaning(g, kind, m);
    var x := Reps(g, kind, m)[a];
    RepIsCell(g, kind, x);
    RankOfRep(g, kind, x, m);
  }

  lemma RepIsCell(g: GridCells, kind: Kind, x: int)
    requires g.Valid() && IsRep(g, kind, x)
    ensures 0 <= x < |g.active|
  {
  }

  /** The first active cell of a group that is on gets an index of its own. */
  lemma FirstIsRep(g: GridCells, kind: Kind, c: int, m: nat)
    requires g.Valid() && m <= |g.active| && c != NO_GROUP && Actives(g, c, m) != []
    ensures
      var f := Actives(g, c, m)[0];
      && 0 <= f < m && g.group[f] == c && g.active[f] != 0 && Actives(g, c, f) == []
      && (On(kind, g.active[f]) <==> IsRep(g, kind, f))
  {
    ActivesMeaning(g, c, m);
    var f := Actives(g, c, m)[0];
    ActivesMeaning(g, c, f);
    ActivesPrefix(g, c, f, m);
  }

  /** The cells in no group that are on, and the groups with a cell that is on. */
  ghost function Ungrouped(g: GridCells, kind: Kind, m: nat): set<int>
    requires g.Valid() && m <= |g.active|
  {
    set x | 0 <= x < m && g.group[x] == NO_GROUP && On(kind, g.active[x])
  }

  ghost function ActiveGroups(g: GridCells, kind: Kind, m: nat): set<int>
    requires g.Valid() && m <= |g.active|
  {
    set x | 0 <= x < m && g.group[x] != NO_GROUP && On(kind, g.active[x]) :: g.group[x]
  }

  lemma OneMoreCell(g: GridCells, kind: Kind, x: nat)
    requires g.Valid() && x < |g.active|
    ensures
      var plain := g.group[x] == NO_GROUP && On(kind, g.active[x]);
      var grouped := g.group[x] != NO_GROUP && On(kind, g.active[x]);
      && x !in Ungrouped(g, kind, x)
      && Ungrouped(g, kind, x + 1) == (if plain then Ungrouped(g, kind, x) + {x} else Ungrouped(g, kind, x))
      && ActiveGroups(g, kind, x + 1) ==
         (if grouped && g.group[x] !in ActiveGroups(g, kind, x) then ActiveGroups(g, kind, x) + {g.group[x]}
          else ActiveGroups(g, kind, x))
      && (IsRep(g, kind, x) ==> plain || grouped) && (plain ==> IsRep(g, kind, x))
      && |Reps(g, kind, x + 1)| == |Reps(g, kind, x)| + (if IsRep(g, kind, x) then 1 else 0)
  {
    hide On;
  }

  /** The number of active indices is the number of active cells in no group plus the number of active groups. */
  lemma {:induction false} CountReps(g: GridCells, kind: Kind, m: nat)
    requires g.Valid() && m <= |g.active| && Uniform(g, m)
    ensures |Reps(g, kind, m)| == |Ungrouped(g, kind, m)| + |ActiveGroups(g, kind, m)|
  {
    hide *;
    if m == 0 {
      CountNone(g, kind);
    } else {
      var x := m - 1;
      UniformBefore(g, m);
      CountReps(g, kind, x);
      if g.group[x] != NO_GROUP && On(kind, g.active[x]) { GroupIsNew(g, kind, x); }
      OneMoreCell(g, kind, x);
    }
  }

  lemma CountNone(g: GridCells, kind: Kind)
    requires g.Valid()
    ensures Reps(g, kind, 0) == [] && Ungrouped(g, kind, 0) == {} && ActiveGroups(g, kind, 0) == {}
  {
  }

  lemma UniformBefore(g: GridCells, m: nat)
    requires g.Valid() && 0 < m <= |g.active| && Uniform(g, m)
    ensures Uniform(g, m - 1) && |g.active| == |g.group|
  {
  }

  lemma GroupIsNew(g: GridCells, kind: Kind, x: int)
    requires g.Valid() && 0 <= x < |g.active| && Uniform(g, x + 1) && g.group[x] != NO_GROUP && On(kind, g.active[x])
    ensures g.group[x] !in ActiveGroups(g, kind, x) <==> IsRep(g, kind, x)
  {
    var c := g.group[x];
    OnIsActive(kind, g.active[x]);
    ActivesMeaning(g, c, x);
    hide On;
    if Actives(g, c, x) != [] {
      var y := Actives(g, c, x)[0];
      assert Agree(g, y, x);
      assert g.group[y] in ActiveGroups(g, kind, x);
    }
    if c in ActiveGroups(g, kind, x) {
      var y :| 0 <= y < x && g.group[y] == c && On(kind, g.active[y]);
      OnIsActive(kind, g.active[y]);
      assert y in Actives(g, c, x);
    }
  }
}

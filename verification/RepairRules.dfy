/** The rule by which a region keyword is repaired: a cell takes over the value on which its neighbours agree. */
module RepairRules {
  import opened Cells
  import opened Reachability
  import opened Slices

  /** The value of a neighbour: zero if it is outside of the slice or not active. */
  ghost function Seen(values: map<Pos, int>, act: set<Pos>, q: Pos): int {
    if q in values && q in act then values[q] else 0
  }

  /** One more neighbour: the common value so far, zero if there is none yet, -1 once two disagree. */
  function Combine(value: int, n: int): int {
    if n == 0 then value else if value == 0 then n else if value != n then -1 else value
  }

  function NewValue(n1: int, n2: int, n3: int, n4: int): int {
    Combine(Combine(Combine(n1, n2), n3), n4)
  }

  ghost function NewValueAt(values: map<Pos, int>, act: set<Pos>, p: Pos): int {
    NewValue(Seen(values, act, Left(p)), Seen(values, act, Right(p)), Seen(values, act, Down(p)),
             Seen(values, act, Up(p)))
  }

  /** A positive new value is the one on which all neighbours with a value agree. */
  lemma NewValueMeaning(n1: int, n2: int, n3: int, n4: int, v: int)
    requires v > 0
    ensures NewValue(n1, n2, n3, n4) == v <==>
            (n1 == v || n2 == v || n3 == v || n4 == v) && n1 in {0, v} && n2 in {0, v} && n3 in {0, v} && n4 in {0, v}
  {
  }

  ghost predicate Uninitialised(values: map<Pos, int>, act: set<Pos>, p: Pos) {
    p in values && p in act && values[p] == 0
  }

  /** The neighbours of the cell have values, but do not agree on a positive one. */
  ghost predicate Stuck(values: map<Pos, int>, act: set<Pos>, p: Pos) {
    && NewValueAt(values, act, p) <= 0
    && (Seen(values, act, Left(p)) != 0 || Seen(values, act, Right(p)) != 0
        || Seen(values, act, Down(p)) != 0 || Seen(values, act, Up(p)) != 0)
  }

  /** Values only appear: a cell that has one, or is not active, keeps it. */
  ghost predicate Extends(values: map<Pos, int>, later: map<Pos, int>, act: set<Pos>) {
    later.Keys == values.Keys && forall p :: p in values && (values[p] != 0 || p !in act) ==> later[p] == values[p]
  }

  lemma StuckForNumbers(n1: int, n2: int, n3: int, n4: int, m1: int, m2: int, m3: int, m4: int)
    requires NewValue(n1, n2, n3, n4) <= 0 && (n1 != 0 || n2 != 0 || n3 != 0 || n4 != 0)
    requires (n1 != 0 ==> m1 == n1) && (n2 != 0 ==> m2 == n2) && (n3 != 0 ==> m3 == n3) && (n4 != 0 ==> m4 == n4)
    ensures NewValue(m1, m2, m3, m4) <= 0
  {
  }

  /** A cell that is stuck stays stuck, whatever other cells are filled. */
  lemma StuckStays(values: map<Pos, int>, later: map<Pos, int>, act: set<Pos>, p: Pos)
    requires Extends(values, later, act) && Stuck(values, act, p)
    ensures Stuck(later, act, p)
  {
    hide NewValue;
    StuckForNumbers(Seen(values, act, Left(p)), Seen(values, act, Right(p)), Seen(values, act, Down(p)),
                    Seen(values, act, Up(p)), Seen(later, act, Left(p)), Seen(later, act, Right(p)),
                    Seen(later, act, Down(p)), Seen(later, act, Up(p)));
  }

  /** The active cells with a given value. */
  ghost function ActiveRegion(values: map<Pos, int>, act: set<Pos>, v: int): set<Pos> {
    Region(values, v) * act
  }

  /** The value of a cell reaches it, through active cells of that value, from a cell that had it at the start. */
  ghost predicate Rooted(values0: map<Pos, int>, values: map<Pos, int>, act: set<Pos>, p: Pos)
    requires p in values
  {
    exists q :: q in values0 && q in act && values0[q] == values[p] &&
      Connected(NO_WALLS, ActiveRegion(values, act, values[p]), p, q)
  }

  /** An active cell that has a value has it from the start, or took over a positive value; either way it is rooted. */
  ghost predicate GrownCell(values0: map<Pos, int>, values: map<Pos, int>, act: set<Pos>, p: Pos) {
    p in values && p in act && values[p] != 0 ==>
      p in values0 && (values[p] == values0[p] || values[p] > 0) && Rooted(values0, values, act, p)
  }

  ghost predicate Grown(values0: map<Pos, int>, values: map<Pos, int>, act: set<Pos>) {
    Extends(values0, values, act) && forall p :: GrownCell(values0, values, act, p)
  }

  lemma GrownStarts(values: map<Pos, int>, act: set<Pos>)
    ensures Grown(values, values, act)
  {
    forall p ensures GrownCell(values, values, act, p) {
      if p in values && p in act { ConnectedRefl(NO_WALLS, ActiveRegion(values, act, values[p]), p); }
    }
  }

  /** The neighbour from which a cell takes over its new value. */
  lemma AgreeingNeighbour(values: map<Pos, int>, act: set<Pos>, p: Pos) returns (q: Pos)
    requires NewValueAt(values, act, p) > 0
    ensures Adjacent(p, q) && q in values && q in act && values[q] == NewValueAt(values, act, p)
  {
    hide NewValue;
    var v := NewValueAt(values, act, p);
    NewValueMeaning(Seen(values, act, Left(p)), Seen(values, act, Right(p)), Seen(values, act, Down(p)),
                    Seen(values, act, Up(p)), v);
    if Seen(values, act, Left(p)) == v { q := Left(p); }
    else if Seen(values, act, Right(p)) == v { q := Right(p); }
    else if Seen(values, act, Down(p)) == v { q := Down(p); }
    else { q := Up(p); }
  }

  lemma RootedStays(values0: map<Pos, int>, values: map<Pos, int>, later: map<Pos, int>, act: set<Pos>, p: Pos)
    requires Extends(values, later, act) && p in values && p in act && values[p] != 0 && Rooted(values0, values, act, p)
    ensures Rooted(values0, later, act, p)
  {
    var v := values[p];
    var q :| q in values0 && q in act && values0[q] == v && Connected(NO_WALLS, ActiveRegion(values, act, v), p, q);
    ConnectedMono(NO_WALLS, ActiveRegion(values, act, v), ActiveRegion(later, act, v), p, q);
  }

  lemma FillExtends(values: map<Pos, int>, act: set<Pos>, p: Pos, v: int)
    requires Uninitialised(values, act, p)
    ensures Extends(values, values[p := v], act)
  {
  }

  lemma ExtendsTransitive(a: map<Pos, int>, b: map<Pos, int>, c: map<Pos, int>, act: set<Pos>)
    requires Extends(a, b, act) && Extends(b, c, act)
    ensures Extends(a, c, act)
  {
  }

  /** A filled cell is rooted where the neighbour is rooted from which it takes over its value. */
  lemma FillIsRooted(values0: map<Pos, int>, values: map<Pos, int>, act: set<Pos>, p: Pos)
    requires Grown(values0, values, act) && Uninitialised(values, act, p) && NewValueAt(values, act, p) > 0
    ensures Rooted(values0, values[p := NewValueAt(values, act, p)], act, p)
  {
    hide NewValueAt;
    var v := NewValueAt(values, act, p);
    var later := values[p := v];
    var n := AgreeingNeighbour(values, act, p);
    FillExtends(values, act, p, v);
    assert GrownCell(values0, values, act, n);
    assert later[n] == v && n in later && p in ActiveRegion(later, act, v);
    hide Grown, Connected, Adjacent, Extends, ActiveRegion;
    RootedStays(values0, values, later, act, n);
    var region := ActiveRegion(later, act, v);
    var root :| root in values0 && root in act && values0[root] == later[n] && Connected(NO_WALLS, region, n, root);
    ConnectedRefl(NO_WALLS, region, p);
    AdjacentIsLinked(p, n);
    ConnectedInRegion(region, n, root);
    ConnectedStep(NO_WALLS, region, p, p, n);
    ConnectedTrans(NO_WALLS, region, p, n, root);
  }

  lemma ConnectedInRegion(region: set<Pos>, a: Pos, b: Pos)
    requires Connected(NO_WALLS, region, a, b)
    ensures a in region && b in region
  {
  }

  lemma AdjacentIsLinked(p: Pos, q: Pos)
    requires Adjacent(p, q)
    ensures Linked(NO_WALLS, p, q)
  {
  }

  lemma GrownCellStays(values0: map<Pos, int>, values: map<Pos, int>, act: set<Pos>, p: Pos, v: int, q: Pos)
    requires GrownCell(values0, values, act, q) && Uninitialised(values, act, p) && q != p
    ensures GrownCell(values0, values[p := v], act, q)
  {
    FillExtends(values, act, p, v);
    hide Rooted, Extends;
    if q in values && q in act && values[q] != 0 { RootedStays(values0, values, values[p := v], act, q); }
  }

  /** Filling an uninitialised cell with the value its neighbours agree on. */
  lemma FillGrows(values0: map<Pos, int>, values: map<Pos, int>, act: set<Pos>, p: Pos)
    requires Grown(values0, values, act) && Uninitialised(values, act, p) && NewValueAt(values, act, p) > 0
    ensures
      var later := values[p := NewValueAt(values, act, p)];
      Extends(values, later, act) && Grown(values0, later, act)
  {
    hide NewValueAt, Rooted, Extends;
    var v := NewValueAt(values, act, p);
    var later := values[p := v];
    FillIsRooted(values0, values, act, p);
    FillExtends(values, act, p, v);
    ExtendsTransitive(values0, values, later, act);
    assert p in values0 by { ExtendsKeys(values0, values, act); }
    forall q ensures GrownCell(values0, later, act, q) {
      if q != p { GrownCellStays(values0, values, act, p, v, q); }
    }
  }

  lemma ExtendsKeys(values: map<Pos, int>, later: map<Pos, int>, act: set<Pos>)
    requires Extends(values, later, act)
    ensures later.Keys == values.Keys
  {
  }

  /** No uninitialised cell has neighbours that agree on a positive value. */
  ghost predicate Settled(values: map<Pos, int>, act: set<Pos>) {
    forall p :: Uninitialised(values, act, p) ==> NewValueAt(values, act, p) <= 0
  }

  /** What a repair makes of a slice. */
  ghost predicate Repaired(values0: map<Pos, int>, values: map<Pos, int>, act: set<Pos>) {
    Grown(values0, values, act) && Settled(values, act)
  }

  /** Two of the numbers are not zero and differ. */
  predicate TwoDisagree(n1: int, n2: int, n3: int, n4: int) {
    || (n1 != 0 && n2 != 0 && n1 != n2) || (n1 != 0 && n3 != 0 && n1 != n3) || (n1 != 0 && n4 != 0 && n1 != n4)
    || (n2 != 0 && n3 != 0 && n2 != n3) || (n2 != 0 && n4 != 0 && n2 != n4) || (n3 != 0 && n4 != 0 && n3 != n4)
  }

  lemma NoNewValue(n1: int, n2: int, n3: int, n4: int)
    requires n1 >= 0 && n2 >= 0 && n3 >= 0 && n4 >= 0
    ensures NewValue(n1, n2, n3, n4) <= 0 <==> n1 == n2 == n3 == n4 == 0 || TwoDisagree(n1, n2, n3, n4)
  {
  }

  lemma SeenNonNegative(values0: map<Pos, int>, values: map<Pos, int>, act: set<Pos>, q: Pos)
    requires Grown(values0, values, act) && forall r :: r in values0 ==> values0[r] >= 0
    ensures Seen(values, act, q) >= 0
  {
    assert GrownCell(values0, values, act, q);
  }

  /**
   * In a repaired slice without negative values, a cell that is still uninitialised has either no active
   * neighbour with a value, or two that disagree.
   */
  lemma RepairedNonNegative(values0: map<Pos, int>, values: map<Pos, int>, act: set<Pos>, p: Pos)
    requires Repaired(values0, values, act) && Uninitialised(values, act, p)
    requires forall q :: q in values0 ==> values0[q] >= 0
    ensures
      var n1, n2 := Seen(values, act, Left(p)), Seen(values, act, Right(p));
      var n3, n4 := Seen(values, act, Down(p)), Seen(values, act, Up(p));
      n1 == n2 == n3 == n4 == 0 || TwoDisagree(n1, n2, n3, n4)
  {
    hide Seen, Grown, TwoDisagree, NewValue;
    SeenNonNegative(values0, values, act, Left(p));
    SeenNonNegative(values0, values, act, Right(p));
    SeenNonNegative(values0, values, act, Down(p));
    SeenNonNegative(values0, values, act, Up(p));
    assert NewValueAt(values, act, p) <= 0;
    NoNewValue(Seen(values, act, Left(p)), Seen(values, act, Right(p)), Seen(values, act, Down(p)),
               Seen(values, act, Up(p)));
  }
}

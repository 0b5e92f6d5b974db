/** Repairing a region keyword: uninitialised cells take over the value on which their neighbours agree. */
module RegionRepair {
  import opened Arithmetic
  import opened Cells
  import opened RepairRules
  import opened RepairOrder
  import opened SliceIndex

  /** The active cells of a slice. */
  ghost function ActiveCells(actnum: seq<int>, nx: nat, ny: nat, nz: nat, k: nat): set<Pos>
    requires |actnum| == GridSize(nx, ny, nz) && k < nz
  {
    set p | p in Box(nx, ny) && KwSlice(actnum, nx, ny, nz, k)[p] != 0
  }

  /** A work list of cell numbers. */
  ghost predicate Numbers(cells: seq<Pos>, work: seq<int>, nx: nat, ny: nat, k: nat) {
    && |work| == |cells|
    && forall c :: 0 <= c < |cells| ==>
         0 <= cells[c].i < nx && 0 <= cells[c].j < ny && work[c] == GlobalIndex(nx, ny, k, cells[c])
  }

  lemma OneMoreNumber(cells: seq<Pos>, work: seq<int>, nx: nat, ny: nat, k: nat, p: Pos)
    requires Numbers(cells, work, nx, ny, k) && 0 <= p.i < nx && 0 <= p.j < ny
    ensures Numbers(cells + [p], work + [GlobalIndex(nx, ny, k, p)], nx, ny, k)
  {
    hide GlobalIndex;
  }

  /** Row and column of a cell, computed from its number. */
  lemma RowAndColumn(nx: nat, ny: nat, k: nat, p: Pos)
    requires 0 <= p.i < nx && 0 <= p.j < ny
    ensures
      var g := GlobalIndex(nx, ny, k, p);
      (g - k * nx * ny) / nx == p.j && g - k * nx * ny - p.j * nx == p.i
  {
    DivMod(p.i, p.j, nx);
  }

  /** Reads a neighbour: zero if it is not active. */
  method ReadNeighbour(data: array<int>, actnum: seq<int>, nx: nat, ny: nat, nz: nat, k: nat, i: int, j: int)
    returns (n: int)
    requires data.Length == |actnum| == GridSize(nx, ny, nz) && k < nz
    ensures n == Seen(KwSlice(data[..], nx, ny, nz, k), ActiveCells(actnum, nx, ny, nz, k), Pos(i, j))
  {
    hide GlobalIndex, GridSize, KwSlice;
    n := 0;
    if 0 <= i < nx && 0 <= j < ny {
      var active := KwValue(actnum, nx, ny, nz, k, i, j);
      if active != 0 {
        n := KwValue(data[..], nx, ny, nz, k, i, j);
      }
    }
  }

  /** Looks at one cell of the work list: fills it if its neighbours agree, keeps it if they have no value yet. */
  method Inspect(data: array<int>, actnum: seq<int>, nx: nat, ny: nat, nz: nat, k: nat, g0: int, ghost p: Pos)
    returns (filled: bool, keep: bool)
    requires data.Length == |actnum| == GridSize(nx, ny, nz) && k < nz
    requires 0 <= p.i < nx && 0 <= p.j < ny && g0 == GlobalIndex(nx, ny, k, p)
    modifies data
    ensures
      var values, act := KwSlice(old(data[..]), nx, ny, nz, k), ActiveCells(actnum, nx, ny, nz, k);
      var later := KwSlice(data[..], nx, ny, nz, k);
      && filled == (Uninitialised(values, act, p) && NewValueAt(values, act, p) > 0)
      && later == (if filled then values[p := NewValueAt(values, act, p)] else values)
      && (Uninitialised(later, act, p) && !keep ==> Stuck(later, act, p))
    ensures forall k' :: 0 <= k' < nz && k' != k ==>
            KwSlice(data[..], nx, ny, nz, k') == KwSlice(old(data[..]), nx, ny, nz, k')
  {
    hide GlobalIndex, GridSize, KwSlice, Seen, NewValue, ActiveCells;
    ghost var values, act, was := KwSlice(data[..], nx, ny, nz, k), ActiveCells(actnum, nx, ny, nz, k), data[..];
    filled, keep := false, false;
    RowAndColumn(nx, ny, k, p);
    var j := (g0 - k * nx * ny) / nx;
    var i := g0 - k * nx * ny - j * nx;
    CellActive(actnum, nx, ny, nz, k, p);
    var value := KwValue(data[..], nx, ny, nz, k, i, j);
    var active := KwValue(actnum, nx, ny, nz, k, i, j);
    if value == 0 && active != 0 {
      var n1 := ReadNeighbour(data, actnum, nx, ny, nz, k, i - 1, j);
      var n2 := ReadNeighbour(data, actnum, nx, ny, nz, k, i + 1, j);
      var n3 := ReadNeighbour(data, actnum, nx, ny, nz, k, i, j - 1);
      var n4 := ReadNeighbour(data, actnum, nx, ny, nz, k, i, j + 1);
      var newValue := NewValue(n1, n2, n3, n4);
      if newValue > 0 {
        KwSliceUpdate(was, nx, ny, nz, k, p, newValue);
        data[g0] := newValue;
        assert data[..] == was[g0 := newValue];
        filled := true;
      }
      if n1 + n2 + n3 + n4 == 0 {
        keep := true;
      }
    }
  }

  lemma CellActive(actnum: seq<int>, nx: nat, ny: nat, nz: nat, k: nat, p: Pos)
    requires |actnum| == GridSize(nx, ny, nz) && k < nz && 0 <= p.i < nx && 0 <= p.j < ny
    ensures p in KwSlice(actnum, nx, ny, nz, k)
    ensures p in ActiveCells(actnum, nx, ny, nz, k) <==> KwSlice(actnum, nx, ny, nz, k)[p] != 0
  {
  }

  /** Every uninitialised cell is on the work list or stuck. */
  ghost predicate Pending(values: map<Pos, int>, act: set<Pos>, todo: seq<Pos>) {
    forall p :: Uninitialised(values, act, p) ==> p in todo || Stuck(values, act, p)
  }

  /** The cells of the list that were looked at cannot be filled. */
  ghost predicate Idle(values: map<Pos, int>, act: set<Pos>, cells: seq<Pos>, n: nat)
    requires n <= |cells|
  {
    forall c :: 0 <= c < n && Uninitialised(values, act, cells[c]) ==> NewValueAt(values, act, cells[c]) <= 0
  }

  ghost function Zeros(values: map<Pos, int>, act: set<Pos>): set<Pos> {
    set p | p in values && Uninitialised(values, act, p)
  }

  /**
   * The state of a round that has looked at the first `c` cells of the list: values have only grown, uninitialised
   * cells are still to be looked at, or on the next list, or stuck, and if nothing was filled nothing can be filled.
   */
  ghost predicate RoundState(values0: map<Pos, int>, start: map<Pos, int>, values: map<Pos, int>, act: set<Pos>,
                             cells: seq<Pos>, c: nat, next: seq<Pos>, finished: bool) {
    && c <= |cells| && Grown(values0, values, act)
    && Pending(values, act, next + cells[c..])
    && (forall q :: q in next ==> q in cells[..c])
    && (if finished then values == start && Idle(values, act, cells, c) else Zeros(values, act) < Zeros(start, act))
    && Zeros(values, act) <= Zeros(start, act)
  }

  lemma PendingAfter(values: map<Pos, int>, later: map<Pos, int>, act: set<Pos>, todo: seq<Pos>, p: Pos, rest: seq<Pos>)
    requires Pending(values, act, todo) && Extends(values, later, act)
    requires forall q :: q in todo ==> q == p || q in rest
    requires Uninitialised(later, act, p) ==> p in rest || Stuck(later, act, p)
    ensures Pending(later, act, rest)
  {
    hide NewValueAt, Stuck;
    forall q | Uninitialised(later, act, q) ensures q in rest || Stuck(later, act, q) {
      assert Uninitialised(values, act, q);
      if Stuck(values, act, q) { StuckStays(values, later, act, q); }
    }
  }

  lemma ZerosAfterFill(values: map<Pos, int>, act: set<Pos>, p: Pos, v: int)
    requires Uninitialised(values, act, p) && v > 0
    ensures Zeros(values[p := v], act) < Zeros(values, act)
  {
    assert p in Zeros(values, act) && p !in Zeros(values[p := v], act);
  }

  /** One cell of the list: it was filled, or stays as it is; it goes on the next list if it is kept. */
  lemma RoundStep(values0: map<Pos, int>, start: map<Pos, int>, values: map<Pos, int>, later: map<Pos, int>,
                  act: set<Pos>, cells: seq<Pos>, c: nat, next: seq<Pos>, finished: bool, filled: bool, keep: bool)
    requires RoundState(values0, start, values, act, cells, c, next, finished) && c < |cells|
    requires filled == (Uninitialised(values, act, cells[c]) && NewValueAt(values, act, cells[c]) > 0)
    requires later == if filled then values[cells[c] := NewValueAt(values, act, cells[c])] else values
    requires Uninitialised(later, act, cells[c]) && !keep ==> Stuck(later, act, cells[c])
    ensures RoundState(values0, start, later, act, cells, c + 1, if keep then next + [cells[c]] else next,
                       finished && !filled)
  {
    hide NewValueAt, Stuck, Grown, Uninitialised, Pending, Zeros;
    var p := cells[c];
    var more := if keep then next + [p] else next;
    assert cells[c..] == [p] + cells[c+1..] && cells[..c+1] == cells[..c] + [p];
    if filled {
      FillGrows(values0, values, act, p);
      ZerosAfterFill(values, act, p, NewValueAt(values, act, p));
    } else {
      ExtendsSelf(values, act);
    }
    PendingAfter(values, later, act, next + cells[c..], p, more + cells[c+1..]);
  }

  lemma ExtendsSelf(values: map<Pos, int>, act: set<Pos>)
    ensures Extends(values, values, act)
  {
  }

  lemma RoundStarts(values0: map<Pos, int>, values: map<Pos, int>, act: set<Pos>, cells: seq<Pos>)
    requires Grown(values0, values, act) && Pending(values, act, cells)
    ensures RoundState(values0, values, values, act, cells, 0, [], true)
  {
    assert [] + cells[0..] == cells;
  }

  /** A round that fills nothing, or leaves no cell to be looked at, settles the slice. */
  lemma RoundEnds(values0: map<Pos, int>, start: map<Pos, int>, values: map<Pos, int>, act: set<Pos>,
                  cells: seq<Pos>, next: seq<Pos>, finished: bool)
    requires RoundState(values0, start, values, act, cells, |cells|, next, finished)
    ensures Grown(values0, values, act) && Pending(values, act, next)
    ensures finished || next == [] ==> Repaired(values0, values, act)
    ensures !finished ==> Zeros(values, act) < Zeros(start, act)
  {
    hide NewValueAt, Grown, Uninitialised, Zeros;
    assert next + cells[|cells|..] == next && cells[..|cells|] == cells;
    if finished || next == [] {
      forall p | Uninitialised(values, act, p) ensures NewValueAt(values, act, p) <= 0 {
        if !Stuck(values, act, p) {
          var c :| 0 <= c < |cells| && cells[c] == p;
        }
      }
    }
  }

  /** Looks at all cells of the work list once, and makes the next list. */
  method Round(data: array<int>, actnum: seq<int>, nx: nat, ny: nat, nz: nat, k: nat, work: seq<int>,
               ghost cells: seq<Pos>, ghost values0: map<Pos, int>, ghost before: map<Pos, nat>, ghost r: nat)
    returns (finished: bool, next: seq<int>, ghost nextCells: seq<Pos>, ghost rounds: map<Pos, nat>)
    requires data.Length == |actnum| == GridSize(nx, ny, nz) && k < nz && Numbers(cells, work, nx, ny, k)
    requires Grown(values0, KwSlice(data[..], nx, ny, nz, k), ActiveCells(actnum, nx, ny, nz, k))
    requires Pending(KwSlice(data[..], nx, ny, nz, k), ActiveCells(actnum, nx, ny, nz, k), cells)
    requires RoundsOver(values0, KwSlice(data[..], nx, ny, nz, k), ActiveCells(actnum, nx, ny, nz, k), before, r, cells)
    modifies data
    ensures Numbers(nextCells, next, nx, ny, k)
    ensures RoundsOver(values0, KwSlice(data[..], nx, ny, nz, k), ActiveCells(actnum, nx, ny, nz, k), rounds, r + 1,
                       nextCells)
    ensures
      var act, start, values := ActiveCells(actnum, nx, ny, nz, k), KwSlice(old(data[..]), nx, ny, nz, k),
        KwSlice(data[..], nx, ny, nz, k);
      && Grown(values0, values, act) && Pending(values, act, nextCells)
      && (finished || next == [] ==> Repaired(values0, values, act))
      && (!finished ==> Zeros(values, act) < Zeros(start, act))
    ensures forall k' :: 0 <= k' < nz && k' != k ==>
            KwSlice(data[..], nx, ny, nz, k') == KwSlice(old(data[..]), nx, ny, nz, k')
  {
    hide GlobalIndex, GridSize, KwSlice, ActiveCells, RoundState, Grown, Pending, Repaired, Zeros, Uninitialised;
    hide NewValueAt, Stuck, Chronicle, Sweeping, Ascending;
    ghost var act, start := ActiveCells(actnum, nx, ny, nz, k), KwSlice(data[..], nx, ny, nz, k);
    finished, next, nextCells, rounds := true, [], [], before;
    RoundStarts(values0, start, act, cells);
    SweepStarts(values0, start, act, rounds, r, cells);
    NextStarts(cells);
    for index := 0 to |work|
      invariant Numbers(nextCells, next, nx, ny, k)
      invariant RoundState(values0, start, KwSlice(data[..], nx, ny, nz, k), act, cells, index, nextCells, finished)
      invariant Sweeping(values0, start, KwSlice(data[..], nx, ny, nz, k), act, rounds, r, cells, index)
      invariant Ascending(nextCells + cells[index..])
      invariant forall k' :: 0 <= k' < nz && k' != k ==>
                KwSlice(data[..], nx, ny, nz, k') == KwSlice(old(data[..]), nx, ny, nz, k')
    {
      ghost var values := KwSlice(data[..], nx, ny, nz, k);
      var filled, keep := Inspect(data, actnum, nx, ny, nz, k, work[index], cells[index]);
      RoundStep(values0, start, values, KwSlice(data[..], nx, ny, nz, k), act, cells, index, nextCells, finished,
                filled, keep);
      if filled {
        SweepFills(values0, start, values, act, rounds, r, cells, index);
        rounds := rounds[cells[index] := r];
        finished := false;
      } else {
        SweepSkips(values0, start, values, act, rounds, r, cells, index);
      }
      NextStaysAscending(nextCells, cells, index);
      if keep {
        OneMoreNumber(nextCells, next, nx, ny, k, cells[index]);
        next, nextCells := next + [work[index]], nextCells + [cells[index]];
      }
    }
    RoundEnds(values0, start, KwSlice(data[..], nx, ny, nz, k), act, cells, nextCells, finished);
    SweepIsOver(values0, start, KwSlice(data[..], nx, ny, nz, k), act, rounds, r, cells, nextCells);
  }

  /** The first `r` rounds are over, and the cells to be looked at next are listed row by row. */
  ghost predicate RoundsOver(values0: map<Pos, int>, values: map<Pos, int>, act: set<Pos>, rounds: map<Pos, nat>,
                             r: nat,
                             cells: seq<Pos>) {
    Chronicle(values0, values, act, rounds, r) && Ascending(cells) && forall p :: p in rounds ==> rounds[p] < r
  }

  lemma NextStarts(cells: seq<Pos>)
    requires Ascending(cells)
    ensures Ascending([] + cells[0..])
  {
    assert [] + cells[0..] == cells;
  }

  /** The next list stays in order, whether the cell is kept or not. */
  lemma NextStaysAscending(next: seq<Pos>, cells: seq<Pos>, c: nat)
    requires c < |cells| && Ascending(next + cells[c..])
    ensures Ascending(next + [cells[c]] + cells[c+1..]) && Ascending(next + cells[c+1..])
  {
    var all := next + cells[c..];
    assert next + [cells[c]] + cells[c+1..] == all;
    var less := next + cells[c+1..];
    forall a, b | 0 <= a < b < |less| ensures Before(less[a], less[b]) {
      assert less[a] == all[if a < |next| then a else a + 1] && less[b] == all[if b < |next| then b else b + 1];
    }
  }

  lemma SweepIsOver(values0: map<Pos, int>, start: map<Pos, int>, values: map<Pos, int>, act: set<Pos>,
                    rounds: map<Pos, nat>, r: nat, cells: seq<Pos>, next: seq<Pos>)
    requires Sweeping(values0, start, values, act, rounds, r, cells, |cells|) && Pending(start, act, cells)
    requires Ascending(next + cells[|cells|..])
    ensures RoundsOver(values0, values, act, rounds, r + 1, next)
  {
    hide Sweeping, Chronicle, Uninitialised, Stuck;
    assert next + cells[|cells|..] == next;
    SweepEnds(values0, start, values, act, rounds, r, cells);
  }

  lemma OrderIsDone(values0: map<Pos, int>, values: map<Pos, int>, act: set<Pos>, rounds: map<Pos, nat>, r: nat,
                    cells: seq<Pos>)
    requires RoundsOver(values0, values, act, rounds, r, cells) && Repaired(values0, values, act)
    ensures FilledInOrder(values0, values, act)
  {
    hide Chronicle, Grown, Uninitialised, NewValueAt;
    ChronicleEnds(values0, values, act, rounds, r);
  }

  /** The uninitialised cells before `end` are on the list. */
  ghost predicate Collected(values: map<Pos, int>, act: set<Pos>, cells: seq<Pos>, end: Pos) {
    forall p :: Uninitialised(values, act, p) && Before(p, end) ==> p in cells
  }

  lemma CollectStep(values: map<Pos, int>, act: set<Pos>, cells: seq<Pos>, p: Pos)
    requires Collected(values, act, cells, p)
    ensures Collected(values, act, if Uninitialised(values, act, p) then cells + [p] else cells, Pos(p.i + 1, p.j))
  {
    BeforeNext(p.i, p.j);
    hide Before;
  }

  lemma CollectNextRow(values: map<Pos, int>, act: set<Pos>, nx: nat, ny: nat, cells: seq<Pos>, j: int)
    requires values.Keys == Box(nx, ny) && Collected(values, act, cells, Pos(nx, j))
    ensures Collected(values, act, cells, Pos(0, j + 1))
  {
    BeforeNextRow(nx, ny, j);
    hide Before;
  }

  lemma CollectEnds(values: map<Pos, int>, act: set<Pos>, nx: nat, ny: nat, cells: seq<Pos>)
    requires values.Keys == Box(nx, ny) && Collected(values, act, cells, Pos(0, ny))
    ensures Pending(values, act, cells)
  {
    hide Stuck;
  }

  /** The listed cells come one after the other, row by row, and before `end`. */
  ghost predicate ListedBefore(cells: seq<Pos>, end: Pos) {
    Ascending(cells) && forall q :: q in cells ==> Before(q, end)
  }

  lemma ListedStep(cells: seq<Pos>, p: Pos)
    requires ListedBefore(cells, p)
    ensures ListedBefore(cells, Pos(p.i + 1, p.j)) && ListedBefore(cells + [p], Pos(p.i + 1, p.j))
  {
    BeforeNext(p.i, p.j);
    hide Before;
  }

  lemma ListedNextRow(cells: seq<Pos>, nx: nat, j: int)
    requires ListedBefore(cells, Pos(nx, j))
    ensures ListedBefore(cells, Pos(0, j + 1))
  {
  }

  lemma CollectStarts(values: map<Pos, int>, act: set<Pos>, nx: nat, ny: nat, k: nat)
    requires values.Keys == Box(nx, ny)
    ensures Collected(values, act, [], Pos(0, 0)) && Numbers([], [], nx, ny, k) && ListedBefore([], Pos(0, 0))
  {
  }

  /** Lists the uninitialised cells of a slice, row by row. */
  method Collect(data: array<int>, actnum: seq<int>, nx: nat, ny: nat, nz: nat, k: nat)
    returns (work: seq<int>, ghost cells: seq<Pos>)
    requires data.Length == |actnum| == GridSize(nx, ny, nz) && k < nz
    ensures Numbers(cells, work, nx, ny, k) && Ascending(cells)
    ensures Pending(KwSlice(data[..], nx, ny, nz, k), ActiveCells(actnum, nx, ny, nz, k), cells)
  {
    hide GlobalIndex, GridSize, KwSlice, ActiveCells, Collected, Pending, Numbers, Ascending, Before;
    ghost var values, act := KwSlice(data[..], nx, ny, nz, k), ActiveCells(actnum, nx, ny, nz, k);
    work, cells := [], [];
    CollectStarts(values, act, nx, ny, k);
    for j := 0 to ny
      invariant Numbers(cells, work, nx, ny, k) && Collected(values, act, cells, Pos(0, j))
      invariant ListedBefore(cells, Pos(0, j))
    {
      for i := 0 to nx
        invariant Numbers(cells, work, nx, ny, k) && Collected(values, act, cells, Pos(i, j))
        invariant ListedBefore(cells, Pos(i, j))
      {
        var value := KwValue(data[..], nx, ny, nz, k, i, j);
        var active := KwValue(actnum, nx, ny, nz, k, i, j);
        CellActive(actnum, nx, ny, nz, k, Pos(i, j));
        CollectStep(values, act, cells, Pos(i, j));
        ListedStep(cells, Pos(i, j));
        if value == 0 && active != 0 {
          OneMoreNumber(cells, work, nx, ny, k, Pos(i, j));
          work, cells := work + [GlobalIndex(nx, ny, k, Pos(i, j))], cells + [Pos(i, j)];
        }
      }
      CollectNextRow(values, act, nx, ny, cells, j);
      ListedNextRow(cells, nx, j);
    }
    CollectEnds(values, act, nx, ny, cells);
  }

  /** Goes round after round until nothing is filled or no cell is left to be looked at. */
  method FixSlice(data: array<int>, actnum: seq<int>, nx: nat, ny: nat, nz: nat, k: nat)
    requires data.Length == |actnum| == GridSize(nx, ny, nz) && k < nz
    modifies data
    ensures Repaired(KwSlice(old(data[..]), nx, ny, nz, k), KwSlice(data[..], nx, ny, nz, k),
                     ActiveCells(actnum, nx, ny, nz, k))
    ensures FilledInOrder(KwSlice(old(data[..]), nx, ny, nz, k), KwSlice(data[..], nx, ny, nz, k),
                          ActiveCells(actnum, nx, ny, nz, k))
    ensures forall k' :: 0 <= k' < nz && k' != k ==>
            KwSlice(data[..], nx, ny, nz, k') == KwSlice(old(data[..]), nx, ny, nz, k')
  {
    hide GlobalIndex, GridSize, KwSlice, ActiveCells, Grown, Pending, Numbers, Repaired, Zeros, RoundsOver;
    hide FilledInOrder;
    ghost var act, values0 := ActiveCells(actnum, nx, ny, nz, k), KwSlice(data[..], nx, ny, nz, k);
    ghost var cells;
    var undetermined;
    undetermined, cells := Collect(data, actnum, nx, ny, nz, k);
    GrownStarts(values0, act);
    ghost var rounds: map<Pos, nat>, r: nat := map[], 0;
    NoRoundsYet(values0, act, cells);
    while true
      invariant Numbers(cells, undetermined, nx, ny, k)
      invariant Grown(values0, KwSlice(data[..], nx, ny, nz, k), act) &&
                Pending(KwSlice(data[..], nx, ny, nz, k), act, cells)
      invariant RoundsOver(values0, KwSlice(data[..], nx, ny, nz, k), act, rounds, r, cells)
      invariant forall k' :: 0 <= k' < nz && k' != k ==>
                KwSlice(data[..], nx, ny, nz, k') == KwSlice(old(data[..]), nx, ny, nz, k')
      decreases Zeros(KwSlice(data[..], nx, ny, nz, k), act)
    {
      var finished;
      finished, undetermined, cells, rounds :=
        Round(data, actnum, nx, ny, nz, k, undetermined, cells, values0, rounds, r);
      r := r + 1;
      if finished || |undetermined| == 0 { break; }
    }
    OrderIsDone(values0, KwSlice(data[..], nx, ny, nz, k), act, rounds, r, cells);
  }

  lemma NoRoundsYet(values: map<Pos, int>, act: set<Pos>, cells: seq<Pos>)
    requires Ascending(cells)
    ensures RoundsOver(values, values, act, map[], 0, cells)
  {
    hide Chronicle, Ascending;
    ChronicleStarts(values, act);
  }

  /**
   * Repairs every slice of a region keyword. No value is ever changed once it is there, inactive cells keep theirs,
   * every filled cell is joined through active cells of its value to a cell that had that value from the start, and
   * in the end no cell is left whose neighbours agree on a positive value. The cells are filled in rounds, each of
   * them row by row, which leaves just one result.
   */
  method FixUninitialized(data: array<int>, nx: nat, ny: nat, nz: nat, actnum: seq<int>)
    requires data.Length == |actnum| == GridSize(nx, ny, nz)
    modifies data
    ensures forall k :: 0 <= k < nz ==>
              Repaired(KwSlice(old(data[..]), nx, ny, nz, k), KwSlice(data[..], nx, ny, nz, k),
                       ActiveCells(actnum, nx, ny, nz, k))
    ensures forall k :: 0 <= k < nz ==>
              FilledInOrder(KwSlice(old(data[..]), nx, ny, nz, k), KwSlice(data[..], nx, ny, nz, k),
                            ActiveCells(actnum, nx, ny, nz, k))
  {
    hide GridSize, KwSlice, ActiveCells, Repaired, FilledInOrder;
    for k := 0 to nz
      invariant forall k' :: k <= k' < nz ==>
                KwSlice(data[..], nx, ny, nz, k') == KwSlice(old(data[..]), nx, ny, nz, k')
      invariant forall k' :: 0 <= k' < k ==>
                  Repaired(KwSlice(old(data[..]), nx, ny, nz, k'), KwSlice(data[..], nx, ny, nz, k'),
                           ActiveCells(actnum, nx, ny, nz, k'))
      invariant forall k' :: 0 <= k' < k ==>
                  FilledInOrder(KwSlice(old(data[..]), nx, ny, nz, k'), KwSlice(data[..], nx, ny, nz, k'),
                                ActiveCells(actnum, nx, ny, nz, k'))
    {
      FixSlice(data, actnum, nx, ny, nz, k);
    }
  }
}

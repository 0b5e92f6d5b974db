/** In which order a repair fills the cells, and that this order leaves just one result. */
module RepairOrder {
  import opened Cells
  import opened RepairRules

  /** The work list looks at `q` in round `s` before it looks at `p` in round `r`. */
  predicate Earlier(s: nat, q: Pos, r: nat, p: Pos) {
    s < r || (s == r && Before(q, p))
  }

  /** The values when a cell is looked at in a round: those that are filled at that time or later are not there yet. */
  ghost function ViewAt(values: map<Pos, int>, rounds: map<Pos, nat>, r: nat, p: Pos): map<Pos, int> {
    map q | q in values :: if q in rounds && !Earlier(rounds[q], q, r, p) then 0 else values[q]
  }

  /** No active neighbour of the cell has a value. */
  ghost predicate Alone(values: map<Pos, int>, act: set<Pos>, p: Pos) {
    && Seen(values, act, Left(p)) == 0 && Seen(values, act, Right(p)) == 0
    && Seen(values, act, Down(p)) == 0 && Seen(values, act, Up(p)) == 0
  }

  ghost predicate AloneAt(values: map<Pos, int>, act: set<Pos>, rounds: map<Pos, nat>, r: nat, p: Pos) {
    Alone(ViewAt(values, rounds, r, p), act, p)
  }

  /** The cells that were filled. */
  ghost predicate FilledCells(values0: map<Pos, int>, values: map<Pos, int>, act: set<Pos>, rounds: map<Pos, nat>) {
    forall p :: p in rounds <==> Uninitialised(values0, act, p) && p in values && values[p] != 0
  }

  /**
   * A filled cell has the positive value on which all neighbours agree that had a value when it was looked at in its
   * round; in no earlier round had it such a neighbour.
   */
  ghost predicate FilledInTurn(values: map<Pos, int>, act: set<Pos>, rounds: map<Pos, nat>, p: Pos)
    requires p in values && p in rounds
  {
    && values[p] > 0 && NewValueAt(ViewAt(values, rounds, rounds[p], p), act, p) == values[p]
    && forall r: nat :: r < rounds[p] ==> AloneAt(values, act, rounds, r, p)
  }

  /** A cell whose neighbours did not agree on a positive value in a round. */
  ghost predicate PassedBy(values: map<Pos, int>, act: set<Pos>, rounds: map<Pos, nat>, r: nat, p: Pos) {
    NewValueAt(ViewAt(values, rounds, r, p), act, p) <= 0
  }

  /**
   * The result of filling cells in rounds, each of them row by row: every filled cell was filled in its turn, and a
   * cell that was not filled was passed by in every round.
   */
  ghost predicate InOrder(values0: map<Pos, int>, values: map<Pos, int>, act: set<Pos>, rounds: map<Pos, nat>) {
    && Extends(values0, values, act) && FilledCells(values0, values, act, rounds)
    && (forall p :: p in rounds ==> FilledInTurn(values, act, rounds, p))
    && (forall p, r: nat :: Uninitialised(values, act, p) ==> PassedBy(values, act, rounds, r, p))
  }

  /** What a repair makes of a slice, with some round for each cell that it fills. */
  ghost predicate FilledInOrder(values0: map<Pos, int>, values: map<Pos, int>, act: set<Pos>) {
    exists rounds: map<Pos, nat> :: InOrder(values0, values, act, rounds)
  }

  lemma NothingNew(values: map<Pos, int>, act: set<Pos>, p: Pos)
    ensures Alone(values, act, p) ==> NewValueAt(values, act, p) == 0
    ensures !Alone(values, act, p) && NewValueAt(values, act, p) <= 0 ==> Stuck(values, act, p)
  {
    hide Seen;
  }

  /** A neighbour that has the same value in two views. */
  lemma SameSeen(values0: map<Pos, int>, a: map<Pos, int>, b: map<Pos, int>, act: set<Pos>, s: map<Pos, nat>,
                 t: map<Pos, nat>, r: nat, p: Pos, q: Pos)
    requires InOrder(values0, a, act, s) && InOrder(values0, b, act, t)
    requires q in s && Earlier(s[q], q, r, p) ==> q in t && t[q] == s[q] && a[q] == b[q]
    requires q in t && Earlier(t[q], q, r, p) ==> q in s && t[q] == s[q] && a[q] == b[q]
    ensures Seen(ViewAt(a, s, r, p), act, q) == Seen(ViewAt(b, t, r, p), act, q)
  {
    hide FilledInTurn, PassedBy, Earlier;
    if q in values0 && q in act && values0[q] == 0 { assert Uninitialised(values0, act, q); }
  }

  /** Two results agree on which cells are filled in a round, and with what. */
  lemma {:induction false} SameFill(values0: map<Pos, int>, nx: nat, ny: nat, act: set<Pos>, a: map<Pos, int>,
                                    s: map<Pos, nat>, b: map<Pos, int>, t: map<Pos, nat>, r: nat, p: Pos)
    requires values0.Keys == Box(nx, ny) && p in values0
    requires InOrder(values0, a, act, s) && InOrder(values0, b, act, t)
    ensures p in s && s[p] == r <==> p in t && t[p] == r
    ensures p in s && s[p] == r ==> a[p] == b[p]
    decreases r, p.j, p.i
  {
    hide Seen, NewValue, Extends, FilledInTurn, PassedBy, ViewAt;
    assert InBox(nx, ny, p);
    var near := [Left(p), Right(p), Down(p), Up(p)];
    forall q | q in near ensures Seen(ViewAt(a, s, r, p), act, q) == Seen(ViewAt(b, t, r, p), act, q) {
      FilledIsCell(values0, a, act, s, q);
      FilledIsCell(values0, b, act, t, q);
      if q in s && Earlier(s[q], q, r, p) { SameFill(values0, nx, ny, act, a, s, b, t, s[q], q); }
      if q in t && Earlier(t[q], q, r, p) { SameFill(values0, nx, ny, act, a, s, b, t, t[q], q); }
      SameSeen(values0, a, b, act, s, t, r, p, q);
    }
    assert near[0] in near && near[1] in near && near[2] in near && near[3] in near;
    assert NewValueAt(ViewAt(a, s, r, p), act, p) == NewValueAt(ViewAt(b, t, r, p), act, p);
    if p in s && s[p] < r { SameFill(values0, nx, ny, act, a, s, b, t, s[p], p); }
    if p in t && t[p] < r { SameFill(values0, nx, ny, act, a, s, b, t, t[p], p); }
    if p in s && s[p] == r { FilledInBoth(values0, a, act, s, b, t, p); }
    if p in t && t[p] == r { FilledInBoth(values0, b, act, t, a, s, p); }
  }

  lemma FilledIsCell(values0: map<Pos, int>, values: map<Pos, int>, act: set<Pos>, rounds: map<Pos, nat>, q: Pos)
    requires InOrder(values0, values, act, rounds)
    ensures q in rounds ==> q in values0 && q in values
  {
    hide FilledInTurn, PassedBy;
  }

  /** A cell that is filled in one result is filled, not later and with the same value, in one that sees the same. */
  lemma FilledInBoth(values0: map<Pos, int>, a: map<Pos, int>, act: set<Pos>, s: map<Pos, nat>, b: map<Pos, int>,
                     t: map<Pos, nat>, p: Pos)
    requires InOrder(values0, a, act, s) && InOrder(values0, b, act, t) && p in s
    requires NewValueAt(ViewAt(a, s, s[p], p), act, p) == NewValueAt(ViewAt(b, t, s[p], p), act, p)
    ensures p in t && t[p] <= s[p] && (t[p] == s[p] ==> a[p] == b[p])
  {
    hide NewValueAt, ViewAt;
    assert FilledInTurn(a, act, s, p) && Uninitialised(values0, act, p);
    NothingNew(ViewAt(b, t, s[p], p), act, p);
    if p !in t {
      NotFilledIsPassedBy(values0, b, act, t, s[p], p);
    } else {
      AloneBefore(values0, b, act, t, s[p], p);
    }
  }

  lemma AloneBefore(values0: map<Pos, int>, values: map<Pos, int>, act: set<Pos>, rounds: map<Pos, nat>, r: nat, p: Pos)
    requires InOrder(values0, values, act, rounds) && p in rounds
    ensures FilledInTurn(values, act, rounds, p)
    ensures r < rounds[p] ==> Alone(ViewAt(values, rounds, r, p), act, p)
  {
    hide Alone, ViewAt, PassedBy;
    assert r < rounds[p] ==> AloneAt(values, act, rounds, r, p);
  }

  lemma NotFilledIsPassedBy(values0: map<Pos, int>, values: map<Pos, int>, act: set<Pos>, rounds: map<Pos, nat>,
                            r: nat, p: Pos)
    requires InOrder(values0, values, act, rounds) && Uninitialised(values0, act, p) && p !in rounds
    ensures PassedBy(values, act, rounds, r, p)
  {
    hide FilledInTurn, PassedBy;
    assert Uninitialised(values, act, p);
  }

  /** There is at most one result. */
  lemma OrderGivesOneResult(values0: map<Pos, int>, nx: nat, ny: nat, act: set<Pos>, a: map<Pos, int>, b: map<Pos, int>)
    requires values0.Keys == Box(nx, ny) && FilledInOrder(values0, a, act) && FilledInOrder(values0, b, act)
    ensures a == b
  {
    var s: map<Pos, nat> :| InOrder(values0, a, act, s);
    var t: map<Pos, nat> :| InOrder(values0, b, act, t);
    hide FilledInTurn, PassedBy, FilledCells;
    forall p | p in values0 ensures a[p] == b[p] {
      hide Extends;
      if p in s { SameFill(values0, nx, ny, act, a, s, b, t, s[p], p); }
      if p in t { SameFill(values0, nx, ny, act, a, s, b, t, t[p], p); }
      NotFilledKeeps(values0, a, act, s, p);
      NotFilledKeeps(values0, b, act, t, p);
    }
    assert a.Keys == b.Keys;
  }

  lemma NotFilledKeeps(values0: map<Pos, int>, values: map<Pos, int>, act: set<Pos>, rounds: map<Pos, nat>, p: Pos)
    requires InOrder(values0, values, act, rounds) && p in values0
    ensures p in values && (p !in rounds ==> values[p] == values0[p])
  {
    hide FilledInTurn, PassedBy;
  }

  /** Each cell comes before the next, row by row. */
  ghost predicate Ascending(cells: seq<Pos>) {
    forall a, b :: 0 <= a < b < |cells| ==> Before(cells[a], cells[b])
  }

  /** Every filled cell was filled in its turn, no later than in round `r`. */
  ghost predicate AllInTurn(values: map<Pos, int>, act: set<Pos>, rounds: map<Pos, nat>, r: nat) {
    forall q :: q in rounds ==> q in values && rounds[q] <= r && FilledInTurn(values, act, rounds, q)
  }

  /** Every cell that is not filled was passed by in the first `r` rounds. */
  ghost predicate AllPassedBy(values: map<Pos, int>, act: set<Pos>, rounds: map<Pos, nat>, r: nat) {
    forall q, s: nat :: Uninitialised(values, act, q) && s < r ==> PassedBy(values, act, rounds, s, q)
  }

  /** What is known when the first `r` rounds are over, and some cells may have been filled in the next one. */
  ghost predicate Chronicle(values0: map<Pos, int>, values: map<Pos, int>, act: set<Pos>, rounds: map<Pos, nat>,
                            r: nat) {
    && Extends(values0, values, act) && FilledCells(values0, values, act, rounds)
    && AllInTurn(values, act, rounds, r) && AllPassedBy(values, act, rounds, r)
  }

  /** In round `r`, which began with the values `start`, the first `c` cells of the list have been looked at. */
  ghost predicate Sweeping(values0: map<Pos, int>, start: map<Pos, int>, values: map<Pos, int>, act: set<Pos>,
                           rounds: map<Pos, nat>, r: nat, cells: seq<Pos>, c: nat) {
    && c <= |cells| && Ascending(cells) && Chronicle(values0, values, act, rounds, r) && Extends(start, values, act)
    && (forall q :: q in rounds && rounds[q] == r ==> q in cells[..c] && q in start && start[q] == 0)
    && (forall d :: 0 <= d < c && Uninitialised(values, act, cells[d]) ==> PassedBy(values, act, rounds, r, cells[d]))
  }

  lemma ChronicleStarts(values: map<Pos, int>, act: set<Pos>)
    ensures Chronicle(values, values, act, map[], 0)
  {
  }

  lemma SweepStarts(values0: map<Pos, int>, values: map<Pos, int>, act: set<Pos>, rounds: map<Pos, nat>, r: nat,
                    cells: seq<Pos>)
    requires Chronicle(values0, values, act, rounds, r) && Ascending(cells)
    requires forall p :: p in rounds ==> rounds[p] < r
    ensures Sweeping(values0, values, values, act, rounds, r, cells, 0)
  {
    hide FilledInTurn, PassedBy;
  }

  /** When everything so far was filled earlier, the view is what there is now. */
  lemma ViewNow(values: map<Pos, int>, rounds: map<Pos, nat>, r: nat, p: Pos)
    requires forall q :: q in rounds ==> Earlier(rounds[q], q, r, p)
    ensures ViewAt(values, rounds, r, p) == values
  {
  }

  /** A fill does not change what was seen before it. */
  lemma ViewStays(values: map<Pos, int>, rounds: map<Pos, nat>, p: Pos, v: int, r: nat, s: nat, q: Pos)
    requires p in values && values[p] == 0 && p !in rounds && !Earlier(r, p, s, q)
    ensures ViewAt(values[p := v], rounds[p := r], s, q) == ViewAt(values, rounds, s, q)
  {
  }

  lemma NowAtCursor(values0: map<Pos, int>, start: map<Pos, int>, values: map<Pos, int>, act: set<Pos>,
                    rounds: map<Pos, nat>, r: nat, cells: seq<Pos>, c: nat)
    requires Sweeping(values0, start, values, act, rounds, r, cells, c) && c < |cells|
    ensures ViewAt(values, rounds, r, cells[c]) == values
  {
    hide FilledInTurn, PassedBy, FilledCells, Extends;
    forall q | q in rounds ensures Earlier(rounds[q], q, r, cells[c]) {
      if rounds[q] == r {
        assert q in cells[..c];
        var d :| 0 <= d < c && cells[d] == q;
      }
    }
    ViewNow(values, rounds, r, cells[c]);
  }

  /** A cell that can be filled now has been alone in all rounds that are over. */
  lemma AloneSoFar(values0: map<Pos, int>, values: map<Pos, int>, act: set<Pos>, rounds: map<Pos, nat>, r: nat, p: Pos,
                   s: nat)
    requires Chronicle(values0, values, act, rounds, r) && s < r
    requires Uninitialised(values, act, p) && NewValueAt(values, act, p) > 0
    ensures Alone(ViewAt(values, rounds, s, p), act, p)
  {
    var view := ViewAt(values, rounds, s, p);
    assert PassedBy(values, act, rounds, s, p);
    NothingNew(view, act, p);
    ViewExtends(values0, values, act, rounds, r, s, p);
    hide NewValueAt, Alone, ViewAt;
    if Stuck(view, act, p) { StuckStays(view, values, act, p); }
  }

  lemma ViewExtends(values0: map<Pos, int>, values: map<Pos, int>, act: set<Pos>, rounds: map<Pos, nat>, r: nat, s: nat,
                    p: Pos)
    requires Chronicle(values0, values, act, rounds, r)
    ensures Extends(ViewAt(values, rounds, s, p), values, act)
  {
    hide FilledInTurn, PassedBy;
  }

  /** Filling a cell behind which nothing has been filled yet keeps the chronicle. */
  lemma FillIsChronicled(values0: map<Pos, int>, values: map<Pos, int>, act: set<Pos>, rounds: map<Pos, nat>, r: nat,
                         p: Pos)
    requires Chronicle(values0, values, act, rounds, r) && ViewAt(values, rounds, r, p) == values
    requires Uninitialised(values, act, p) && NewValueAt(values, act, p) > 0
    requires forall q :: q in rounds && rounds[q] == r ==> !Before(p, q)
    ensures Chronicle(values0, values[p := NewValueAt(values, act, p)], act, rounds[p := r], r)
  {
    hide AllInTurn, AllPassedBy, Extends, FilledCells, FilledInTurn, NewValueAt, ViewAt, Uninitialised, Before;
    var v := NewValueAt(values, act, p);
    var later, rounds' := values[p := v], rounds[p := r];
    FillKeepsFilled(values0, values, act, rounds, r, p);
    FillExtends(values, act, p, v);
    ExtendsTransitive(values0, values, later, act);
    FillInTurn(values0, values, act, rounds, r, p);
    OthersStayInTurn(values, act, rounds, p, v, r);
    OthersStayPassedBy(values, act, rounds, p, v, r);
  }

  lemma OthersStayInTurn(values: map<Pos, int>, act: set<Pos>, rounds: map<Pos, nat>, p: Pos, v: int, r: nat)
    requires AllInTurn(values, act, rounds, r) && Uninitialised(values, act, p) && p !in rounds
    requires forall q :: q in rounds && rounds[q] == r ==> !Before(p, q)
    requires FilledInTurn(values[p := v], act, rounds[p := r], p)
    ensures AllInTurn(values[p := v], act, rounds[p := r], r)
  {
    hide FilledInTurn;
    forall q | q in rounds ensures FilledInTurn(values[p := v], act, rounds[p := r], q) {
      if q != p { FilledStaysInTurn(values, act, rounds, p, v, r, q); }
    }
  }

  lemma OthersStayPassedBy(values: map<Pos, int>, act: set<Pos>, rounds: map<Pos, nat>, p: Pos, v: int, r: nat)
    requires AllPassedBy(values, act, rounds, r) && Uninitialised(values, act, p) && p !in rounds
    ensures AllPassedBy(values[p := v], act, rounds[p := r], r)
  {
    hide PassedBy;
    var later, rounds' := values[p := v], rounds[p := r];
    forall q, s: nat | Uninitialised(later, act, q) && s < r ensures PassedBy(later, act, rounds', s, q) {
      if q == p || Uninitialised(values, act, q) { PassedByStays(values, act, rounds, p, v, r, s, q); }
    }
  }

  lemma BehindCursor(values0: map<Pos, int>, start: map<Pos, int>, values: map<Pos, int>, act: set<Pos>,
                     rounds: map<Pos, nat>, r: nat, cells: seq<Pos>, c: nat)
    requires Sweeping(values0, start, values, act, rounds, r, cells, c) && c < |cells|
    ensures forall q :: q in rounds && rounds[q] == r ==> !Before(cells[c], q)
    ensures forall d :: 0 <= d < c ==> !Before(cells[c], cells[d])
  {
    hide Chronicle, PassedBy;
    forall q | q in cells[..c] ensures !Before(cells[c], q) { CursorBehind(cells, c, q); }
    forall d | 0 <= d < c ensures !Before(cells[c], cells[d]) { assert cells[d] in cells[..c]; }
  }

  /** The cell at the cursor is filled. */
  lemma SweepFills(values0: map<Pos, int>, start: map<Pos, int>, values: map<Pos, int>, act: set<Pos>,
                   rounds: map<Pos, nat>, r: nat, cells: seq<Pos>, c: nat)
    requires Sweeping(values0, start, values, act, rounds, r, cells, c) && c < |cells|
    requires Uninitialised(values, act, cells[c]) && NewValueAt(values, act, cells[c]) > 0
    ensures
      var p := cells[c];
      Sweeping(values0, start, values[p := NewValueAt(values, act, p)], act, rounds[p := r], r, cells, c + 1)
  {
    var p := cells[c];
    var v := NewValueAt(values, act, p);
    var later, rounds' := values[p := v], rounds[p := r];
    NowAtCursor(values0, start, values, act, rounds, r, cells, c);
    BehindCursor(values0, start, values, act, rounds, r, cells, c);
    FillIsChronicled(values0, values, act, rounds, r, p);
    NotFilledYet(values0, values, act, rounds, r, p);
    FillExtends(values, act, p, v);
    ExtendsTransitive(start, values, later, act);
    WasEmpty(start, values, act, p);
    hide NewValueAt, ViewAt, Extends, PassedBy, Chronicle;
    assert cells[..c + 1] == cells[..c] + [p];
    forall d | 0 <= d < c + 1 && Uninitialised(later, act, cells[d])
      ensures PassedBy(later, act, rounds', r, cells[d])
    {
      assert d < c && PassedBy(values, act, rounds, r, cells[d]);
      PassedByStays(values, act, rounds, p, v, r, r, cells[d]);
    }
  }

  lemma NotFilledYet(values0: map<Pos, int>, values: map<Pos, int>, act: set<Pos>, rounds: map<Pos, nat>, r: nat,
                     p: Pos)
    requires Chronicle(values0, values, act, rounds, r) && Uninitialised(values, act, p)
    ensures p !in rounds
  {
    hide FilledInTurn, PassedBy;
  }

  lemma WasEmpty(start: map<Pos, int>, values: map<Pos, int>, act: set<Pos>, p: Pos)
    requires Extends(start, values, act) && Uninitialised(values, act, p)
    ensures p in start && start[p] == 0
  {
  }

  lemma PassedByStays(values: map<Pos, int>, act: set<Pos>, rounds: map<Pos, nat>, p: Pos, v: int, r: nat, s: nat,
                      q: Pos)
    requires p in values && values[p] == 0 && p !in rounds && !Earlier(r, p, s, q)
    requires PassedBy(values, act, rounds, s, q)
    ensures PassedBy(values[p := v], act, rounds[p := r], s, q)
  {
    hide NewValueAt, ViewAt;
    ViewStays(values, rounds, p, v, r, s, q);
  }

  lemma CursorBehind(cells: seq<Pos>, c: nat, q: Pos)
    requires Ascending(cells) && c < |cells| && q in cells[..c]
    ensures Before(q, cells[c]) && !Before(cells[c], q)
  {
  }

  lemma FillKeepsFilled(values0: map<Pos, int>, values: map<Pos, int>, act: set<Pos>, rounds: map<Pos, nat>, r: nat,
                        p: Pos)
    requires Extends(values0, values, act) && FilledCells(values0, values, act, rounds)
    requires Uninitialised(values, act, p) && NewValueAt(values, act, p) > 0
    ensures p !in rounds && p in values0
    ensures FilledCells(values0, values[p := NewValueAt(values, act, p)], act, rounds[p := r])
  {
    hide NewValueAt;
  }

  /** The filled cell was filled in its turn. */
  lemma FillInTurn(values0: map<Pos, int>, values: map<Pos, int>, act: set<Pos>, rounds: map<Pos, nat>, r: nat, p: Pos)
    requires Chronicle(values0, values, act, rounds, r) && p !in rounds && ViewAt(values, rounds, r, p) == values
    requires Uninitialised(values, act, p) && NewValueAt(values, act, p) > 0
    ensures FilledInTurn(values[p := NewValueAt(values, act, p)], act, rounds[p := r], p)
  {
    hide NewValueAt, ViewAt, Chronicle, Alone;
    var v := NewValueAt(values, act, p);
    ViewStays(values, rounds, p, v, r, r, p);
    var later, rounds' := values[p := v], rounds[p := r];
    forall s: nat | s < r ensures AloneAt(later, act, rounds', s, p) {
      ViewStays(values, rounds, p, v, r, s, p);
      AloneSoFar(values0, values, act, rounds, r, p, s);
    }
  }

  /** A cell that was filled earlier stays filled in its turn. */
  lemma FilledStaysInTurn(values: map<Pos, int>, act: set<Pos>, rounds: map<Pos, nat>, p: Pos, v: int, r: nat, q: Pos)
    requires p in values && values[p] == 0 && p !in rounds && q in rounds && q in values && q != p
    requires rounds[q] <= r && (rounds[q] == r ==> !Before(p, q)) && FilledInTurn(values, act, rounds, q)
    ensures FilledInTurn(values[p := v], act, rounds[p := r], q)
  {
    hide NewValueAt, ViewAt, Alone;
    ViewStays(values, rounds, p, v, r, rounds[q], q);
    var later, rounds' := values[p := v], rounds[p := r];
    forall s: nat | s < rounds[q] ensures AloneAt(later, act, rounds', s, q) {
      assert AloneAt(values, act, rounds, s, q);
      ViewStays(values, rounds, p, v, r, s, q);
    }
  }

  /** The cell at the cursor is left as it is. */
  lemma SweepSkips(values0: map<Pos, int>, start: map<Pos, int>, values: map<Pos, int>, act: set<Pos>,
                   rounds: map<Pos, nat>, r: nat, cells: seq<Pos>, c: nat)
    requires Sweeping(values0, start, values, act, rounds, r, cells, c) && c < |cells|
    requires Uninitialised(values, act, cells[c]) ==> NewValueAt(values, act, cells[c]) <= 0
    ensures Sweeping(values0, start, values, act, rounds, r, cells, c + 1)
  {
    NowAtCursor(values0, start, values, act, rounds, r, cells, c);
    hide NewValueAt, ViewAt, Extends, FilledInTurn, Chronicle;
    assert cells[..c + 1] == cells[..c] + [cells[c]];
  }

  /** A cell that was not on the list was stuck when the round began, so it is passed by. */
  lemma StuckIsPassedBy(values0: map<Pos, int>, start: map<Pos, int>, values: map<Pos, int>, act: set<Pos>,
                        rounds: map<Pos, nat>, r: nat, cells: seq<Pos>, p: Pos)
    requires Sweeping(values0, start, values, act, rounds, r, cells, |cells|) && Stuck(start, act, p)
    ensures PassedBy(values, act, rounds, r, p)
  {
    hide NewValueAt, FilledInTurn, PassedBy;
    var view := ViewAt(values, rounds, r, p);
    assert Extends(start, view, act);
    StuckStays(start, view, act, p);
    StuckPasses(values, act, rounds, r, p);
  }

  lemma StuckPasses(values: map<Pos, int>, act: set<Pos>, rounds: map<Pos, nat>, r: nat, p: Pos)
    requires Stuck(ViewAt(values, rounds, r, p), act, p)
    ensures PassedBy(values, act, rounds, r, p)
  {
    hide NewValueAt, ViewAt;
  }

  /** The round is over. */
  lemma SweepEnds(values0: map<Pos, int>, start: map<Pos, int>, values: map<Pos, int>, act: set<Pos>,
                  rounds: map<Pos, nat>, r: nat, cells: seq<Pos>)
    requires Sweeping(values0, start, values, act, rounds, r, cells, |cells|)
    requires forall p :: Uninitialised(start, act, p) ==> p in cells || Stuck(start, act, p)
    ensures Chronicle(values0, values, act, rounds, r + 1) && forall p :: p in rounds ==> rounds[p] < r + 1
  {
    hide FilledInTurn, PassedBy, Stuck;
    forall p, s: nat | Uninitialised(values, act, p) && s < r + 1 ensures PassedBy(values, act, rounds, s, p) {
      if s == r {
        assert Uninitialised(start, act, p);
        if p in cells {
          var d :| 0 <= d < |cells| && cells[d] == p;
        } else {
          StuckIsPassedBy(values0, start, values, act, rounds, r, cells, p);
        }
      }
    }
  }

  /** When no cell is left whose neighbours agree on a positive value, the result is the one of this order. */
  lemma ChronicleEnds(values0: map<Pos, int>, values: map<Pos, int>, act: set<Pos>, rounds: map<Pos, nat>, r: nat)
    requires Chronicle(values0, values, act, rounds, r) && forall p :: p in rounds ==> rounds[p] < r
    requires forall p :: Uninitialised(values, act, p) ==> NewValueAt(values, act, p) <= 0
    ensures FilledInOrder(values0, values, act)
  {
    hide FilledInTurn, NewValueAt, ViewAt;
    forall p, s: nat | Uninitialised(values, act, p) ensures PassedBy(values, act, rounds, s, p) {
      if s >= r { ViewNow(values, rounds, s, p); }
    }
    assert InOrder(values0, values, act, rounds);
  }
}

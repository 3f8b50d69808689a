/**
  Value iteration: the synchronous sweep, the in-place ("turbo") sweep, the
  max-norm convergence test and the outer loop with its iteration cap and
  progress hook.

  The in-place sweep visits the cells column by column (`x` outer, `y`
  inner) and every backup reads the grid as already updated; it is modelled
  as a left fold of single-cell updates over that visiting order.
*/
module ValueIteration {
  import opened Wrappers
  import opened GridWorld
  import opened Bellman

  // ---------------------------------------------------------------------------
  // One sweep
  // ---------------------------------------------------------------------------

  /** The classic sweep: every cell is backed up from the previous grid. */
  function SyncSweep(w: World, u: Grid): (v: Grid)
    requires Valid(w) && Shaped(w, u)
    ensures Shaped(w, v)
  {
    seq(Rows(w), y requires 0 <= y < Rows(w) =>
      seq(Cols(w), x requires 0 <= x < Cols(w) => CellUtility(w, u, Pos(x, y))))
  }

  /** Each cell of the synchronous sweep is the backup of that cell from the previous grid. */
  lemma SyncSweepAt(w: World, u: Grid, p: Pos)
    requires Valid(w) && Shaped(w, u) && InGrid(w, p)
    ensures SyncSweep(w, u)[p.y][p.x] == CellUtility(w, u, p)
  {
  }

  function Set(g: Grid, p: Pos, v: real): (g': Grid)
    requires 0 <= p.y < |g| && 0 <= p.x < |g[p.y]|
    ensures SameShape(g, g')
  {
    g[p.y := g[p.y][p.x := v]]
  }

  /** One in-place backup: cell `p` is overwritten with its backup read from the current grid. */
  function UpdateCell(w: World, g: Grid, p: Pos): (g': Grid)
    requires Valid(w) && Shaped(w, g) && InGrid(w, p)
    ensures Shaped(w, g')
  {
    Set(g, p, CellUtility(w, g, p))
  }

  predicate AllInGrid(w: World, ps: seq<Pos>)
    requires Valid(w)
  {
    forall i :: 0 <= i < |ps| ==> InGrid(w, ps[i])
  }

  /** In-place backups of the cells `ps`, in order, each reading the grid left by the previous ones. */
  function Scan(w: World, g: Grid, ps: seq<Pos>): (g': Grid)
    requires Valid(w) && Shaped(w, g) && AllInGrid(w, ps)
    ensures Shaped(w, g')
    decreases |ps|
  {
    if |ps| == 0 then g else Scan(w, UpdateCell(w, g, ps[0]), ps[1..])
  }

  /** Scanning one more cell is one more in-place backup. */
  lemma {:induction false} ScanSnoc(w: World, g: Grid, ps: seq<Pos>, p: Pos)
    requires Valid(w) && Shaped(w, g) && AllInGrid(w, ps) && InGrid(w, p)
    ensures AllInGrid(w, ps + [p])
    ensures Scan(w, g, ps + [p]) == UpdateCell(w, Scan(w, g, ps), p)
    decreases |ps|
  {
    if |ps| == 0 {
      assert [p][1..] == [];
    } else {
      assert (ps + [p])[1..] == ps[1..] + [p];
      ScanSnoc(w, UpdateCell(w, g, ps[0]), ps[1..], p);
    }
  }

  /** A cell that is not scanned keeps its value. */
  lemma {:induction false} ScanFrame(w: World, g: Grid, ps: seq<Pos>, p: Pos)
    requires Valid(w) && Shaped(w, g) && AllInGrid(w, ps) && InGrid(w, p)
    requires p !in ps
    ensures Scan(w, g, ps)[p.y][p.x] == g[p.y][p.x]
    decreases |ps|
  {
    if |ps| > 0 {
      assert ps[0] != p;
      assert p !in ps[1..];
      ScanFrame(w, UpdateCell(w, g, ps[0]), ps[1..], p);
    }
  }

  /** Column `x` of a grid with `rows` rows, top to bottom. */
  function Column(x: int, rows: nat): (ps: seq<Pos>)
    ensures |ps| == rows
    ensures forall i :: 0 <= i < rows ==> ps[i] == Pos(x, i)
  {
    seq(rows, i => Pos(x, i))
  }

  /** The visiting order of the sweeps: columns `0 .. cols-1`, each top to bottom. */
  function ScanOrder(cols: nat, rows: nat): (ps: seq<Pos>)
    ensures |ps| == cols * rows
  {
    if cols == 0 then [] else ScanOrder(cols - 1, rows) + Column(cols - 1, rows)
  }

  /** The visiting order lists exactly the cells of the grid. */
  lemma {:induction false} ScanOrderCells(cols: nat, rows: nat, p: Pos)
    ensures p in ScanOrder(cols, rows) <==> 0 <= p.x < cols && 0 <= p.y < rows
  {
    if cols > 0 {
      ScanOrderCells(cols - 1, rows, p);
      var c := Column(cols - 1, rows);
      if p in c {
        var i :| 0 <= i < |c| && c[i] == p;
      }
      if p.x == cols - 1 && 0 <= p.y < rows {
        assert c[p.y] == p;
      }
    }
  }

  /** Every cell is visited once. */
  lemma {:induction false} ScanOrderDistinct(cols: nat, rows: nat)
    ensures forall i, j :: 0 <= i < j < |ScanOrder(cols, rows)| ==> ScanOrder(cols, rows)[i] != ScanOrder(cols, rows)[j]
  {
    if cols > 0 {
      ScanOrderDistinct(cols - 1, rows);
      var a, c := ScanOrder(cols - 1, rows), Column(cols - 1, rows);
      forall i | 0 <= i < |a| ensures a[i].x < cols - 1 {
        ScanOrderCells(cols - 1, rows, a[i]);
      }
    }
  }

  lemma ScanOrderInGrid(w: World)
    requires Valid(w)
    ensures AllInGrid(w, ScanOrder(Cols(w), Rows(w)))
  {
    var ps := ScanOrder(Cols(w), Rows(w));
    forall i | 0 <= i < |ps| ensures InGrid(w, ps[i]) {
      ScanOrderCells(Cols(w), Rows(w), ps[i]);
    }
  }

  /** The turbo sweep: in-place backups of every cell in visiting order. */
  function TurboSweep(w: World, u: Grid): (v: Grid)
    requires Valid(w) && Shaped(w, u)
    ensures Shaped(w, v)
  {
    ScanOrderInGrid(w);
    Scan(w, u, ScanOrder(Cols(w), Rows(w)))
  }

  function Sweep(w: World, u: Grid, turbo: bool): (v: Grid)
    requires Valid(w) && Shaped(w, u)
    ensures Shaped(w, v)
  {
    if turbo then TurboSweep(w, u) else SyncSweep(w, u)
  }

  // ---------------------------------------------------------------------------
  // Properties of the sweeps
  // ---------------------------------------------------------------------------

  /** A cell scanned at least once ends with a backup; for a cell without actions that is its reward. */
  lemma {:induction false} ScanTerminal(w: World, g: Grid, ps: seq<Pos>, p: Pos)
    requires Valid(w) && Shaped(w, g) && AllInGrid(w, ps) && InGrid(w, p)
    requires p in ps && CellAt(w, p) != Void
    ensures Scan(w, g, ps)[p.y][p.x] == RewardAt(w, p)
    decreases |ps|
  {
    var g1 := UpdateCell(w, g, ps[0]);
    if p in ps[1..] {
      ScanTerminal(w, g1, ps[1..], p);
    } else {
      ScanFrame(w, g1, ps[1..], p);
    }
  }

  /** After either sweep, Pit, Exit and Wall cells hold their rewards. */
  lemma SweepKeepsTerminalRewards(w: World, u: Grid, turbo: bool, p: Pos)
    requires Valid(w) && Shaped(w, u) && InGrid(w, p) && CellAt(w, p) != Void
    ensures Sweep(w, u, turbo)[p.y][p.x] == RewardAt(w, p)
  {
    if turbo {
      ScanOrderInGrid(w);
      ScanOrderCells(Cols(w), Rows(w), p);
      ScanTerminal(w, u, ScanOrder(Cols(w), Rows(w)), p);
    } else {
      SyncSweepAt(w, u, p);
    }
  }

  /** `u` is a fixed point of the Bellman backup at every cell of `ps`. */
  predicate FixedAt(w: World, u: Grid, ps: seq<Pos>)
    requires Valid(w) && Shaped(w, u) && AllInGrid(w, ps)
  {
    forall i :: 0 <= i < |ps| ==> CellUtility(w, u, ps[i]) == At(u, ps[i])
  }

  lemma SetSame(g: Grid, p: Pos)
    requires 0 <= p.y < |g| && 0 <= p.x < |g[p.y]|
    ensures Set(g, p, g[p.y][p.x]) == g
  {
    assert g[p.y][p.x := g[p.y][p.x]] == g[p.y];
  }

  /** Past a first cell that is already fixed, being fixed is decided by the rest. */
  lemma FixedAtCons(w: World, u: Grid, ps: seq<Pos>)
    requires Valid(w) && Shaped(w, u) && AllInGrid(w, ps) && |ps| > 0
    requires CellUtility(w, u, ps[0]) == At(u, ps[0])
    ensures FixedAt(w, u, ps) <==> FixedAt(w, u, ps[1..])
  {
    var rest := ps[1..];
    if FixedAt(w, u, rest) {
      forall i | 0 <= i < |ps| ensures CellUtility(w, u, ps[i]) == At(u, ps[i]) {
        if i > 0 { assert ps[i] == rest[i - 1]; }
      }
    }
    if FixedAt(w, u, ps) {
      forall i | 0 <= i < |rest| ensures CellUtility(w, u, rest[i]) == At(u, rest[i]) {
        assert rest[i] == ps[i + 1];
      }
    }
  }

  /**
    In-place backups over distinct cells leave a grid unchanged exactly when
    the grid is a fixed point of the backup at each of those cells.
  */
  lemma {:induction false} ScanFixedPoint(w: World, u: Grid, ps: seq<Pos>)
    requires Valid(w) && Shaped(w, u) && AllInGrid(w, ps)
    requires forall i, j :: 0 <= i < j < |ps| ==> ps[i] != ps[j]
    ensures Scan(w, u, ps) == u <==> FixedAt(w, u, ps)
    decreases |ps|
  {
    if |ps| > 0 {
      var p, rest := ps[0], ps[1..];
      var u1 := UpdateCell(w, u, p);
      assert AllInGrid(w, rest);
      assert forall i, j :: 0 <= i < j < |rest| ==> rest[i] != rest[j] by {
        forall i, j | 0 <= i < j < |rest| ensures rest[i] != rest[j] {
          assert rest[i] == ps[i + 1] && rest[j] == ps[j + 1];
        }
      }
      assert p !in rest by {
        forall i | 0 <= i < |rest| ensures rest[i] != p {
          assert rest[i] == ps[i + 1];
        }
      }
      if CellUtility(w, u, p) == At(u, p) {
        SetSame(u, p);
        assert u1 == u;
        ScanFixedPoint(w, u, rest);
        FixedAtCons(w, u, ps);
      } else {
        ScanFrame(w, u1, rest, p);
        assert Scan(w, u, ps)[p.y][p.x] != u[p.y][p.x];
        assert !FixedAt(w, u, ps) by {
          assert CellUtility(w, u, ps[0]) != At(u, ps[0]);
        }
      }
    }
  }

  /** Every cell's backup returns the cell's own value. */
  predicate IsFixedPoint(w: World, u: Grid)
    requires Valid(w) && Shaped(w, u)
  {
    forall y, x :: 0 <= y < Rows(w) && 0 <= x < Cols(w) ==> CellUtility(w, u, Pos(x, y)) == u[y][x]
  }

  lemma FixedAtScanOrder(w: World, u: Grid)
    requires Valid(w) && Shaped(w, u)
    ensures AllInGrid(w, ScanOrder(Cols(w), Rows(w)))
    ensures FixedAt(w, u, ScanOrder(Cols(w), Rows(w))) <==> IsFixedPoint(w, u)
  {
    var ps := ScanOrder(Cols(w), Rows(w));
    ScanOrderInGrid(w);
    if FixedAt(w, u, ps) {
      forall y, x | 0 <= y < Rows(w) && 0 <= x < Cols(w) ensures CellUtility(w, u, Pos(x, y)) == u[y][x] {
        ScanOrderCells(Cols(w), Rows(w), Pos(x, y));
        var i :| 0 <= i < |ps| && ps[i] == Pos(x, y);
      }
    }
  }

  /** The synchronous sweep leaves a grid unchanged exactly when it is a fixed point of the backup. */
  lemma SyncSweepFixedPoint(w: World, u: Grid)
    requires Valid(w) && Shaped(w, u)
    ensures SyncSweep(w, u) == u <==> IsFixedPoint(w, u)
  {
    var v := SyncSweep(w, u);
    if IsFixedPoint(w, u) {
      forall y | 0 <= y < Rows(w) ensures v[y] == u[y] {
        forall x | 0 <= x < Cols(w) ensures v[y][x] == u[y][x] {
          SyncSweepAt(w, u, Pos(x, y));
        }
      }
    }
    if v == u {
      forall y, x | 0 <= y < Rows(w) && 0 <= x < Cols(w) ensures CellUtility(w, u, Pos(x, y)) == u[y][x] {
        SyncSweepAt(w, u, Pos(x, y));
      }
    }
  }

  /** The turbo sweep leaves a grid unchanged exactly when it is a fixed point of the backup. */
  lemma TurboSweepFixedPoint(w: World, u: Grid)
    requires Valid(w) && Shaped(w, u)
    ensures TurboSweep(w, u) == u <==> IsFixedPoint(w, u)
  {
    FixedAtScanOrder(w, u);
    ScanOrderDistinct(Cols(w), Rows(w));
    ScanFixedPoint(w, u, ScanOrder(Cols(w), Rows(w)));
  }

  /** A grid is a fixed point of the synchronous sweep exactly when it is one of the turbo sweep. */
  lemma TurboFixedPointIff(w: World, u: Grid)
    requires Valid(w) && Shaped(w, u)
    ensures SyncSweep(w, u) == u <==> TurboSweep(w, u) == u
  {
    SyncSweepFixedPoint(w, u);
    TurboSweepFixedPoint(w, u);
  }

  // ---------------------------------------------------------------------------
  // The sweep as the source runs it, with its max-norm
  // ---------------------------------------------------------------------------

  /** `m` is the largest absolute change over the visited cells `done`, or 0 before any change. */
  predicate NormSoFar(u: Grid, g: Grid, done: seq<Pos>, m: real)
    requires SameShape(u, g)
    requires forall i :: 0 <= i < |done| ==> 0 <= done[i].y < |u| && 0 <= done[i].x < |u[done[i].y]|
  {
    && m >= 0.0
    && (forall i :: 0 <= i < |done| ==> Abs(At(u, done[i]) - At(g, done[i])) <= m)
    && (m == 0.0 || exists i :: 0 <= i < |done| && Abs(At(u, done[i]) - At(g, done[i])) == m)
  }

  /** `g` and `v` agree on the cells `done`. */
  predicate AgreeOn(g: Grid, v: Grid, done: seq<Pos>)
    requires SameShape(g, v)
    requires forall i :: 0 <= i < |done| ==> 0 <= done[i].y < |g| && 0 <= done[i].x < |g[done[i].y]|
  {
    forall i :: 0 <= i < |done| ==> At(g, done[i]) == At(v, done[i])
  }

  /**
    The state of a sweep after visiting the cells `done`: in turbo mode the
    grid is the in-place scan of those cells, otherwise the visited cells
    hold their synchronous backups; `m` is the max-norm so far.
  */
  predicate Swept(w: World, u: Grid, turbo: bool, g: Grid, done: seq<Pos>, m: real)
    requires Valid(w) && Shaped(w, u)
  {
    && AllInGrid(w, done) && Shaped(w, g)
    && (turbo ==> g == Scan(w, u, done))
    && (!turbo ==> AgreeOn(g, SyncSweep(w, u), done))
    && NormSoFar(u, g, done, m)
  }

  /**
    One step of the sweep loop: back up cell `p` from the previous grid, or
    in turbo mode from the grid being updated, fold the change against the
    value just before the write into the max-norm, and write the cell.
  */
  method Visit(w: World, u: Grid, turbo: bool, g: Grid, ghost done: seq<Pos>, m: real, p: Pos)
    returns (g': Grid, m': real)
    requires Valid(w) && Shaped(w, u) && InGrid(w, p) && p !in done
    requires Swept(w, u, turbo, g, done, m)
    ensures Swept(w, u, turbo, g', done + [p], m')
  {
    var src := if turbo then g else u;
    var v := CellUtility(w, src, p);
    var change := Abs(src[p.y][p.x] - v);
    g' := Set(g, p, v);
    m' := if change > m then change else m;
    if turbo {
      assert change == Abs(At(g, p) - v);
      TurboVisit(w, u, g, done, m, p, v);
    } else {
      assert change == Abs(At(u, p) - v);
      SyncVisit(w, u, g, done, m, p, v);
    }
  }

  lemma TurboVisit(w: World, u: Grid, g: Grid, done: seq<Pos>, m: real, p: Pos, v: real)
    requires Valid(w) && Shaped(w, u) && InGrid(w, p) && p !in done
    requires Swept(w, u, true, g, done, m) && v == CellUtility(w, g, p)
    ensures var change := Abs(At(g, p) - v);
            Swept(w, u, true, Set(g, p, v), done + [p], if change > m then change else m)
  {
    ScanFrame(w, u, done, p);
    ScanSnoc(w, u, done, p);
    NormStep(u, g, done, m, p, v);
  }

  lemma SyncVisit(w: World, u: Grid, g: Grid, done: seq<Pos>, m: real, p: Pos, v: real)
    requires Valid(w) && Shaped(w, u) && InGrid(w, p) && p !in done
    requires Swept(w, u, false, g, done, m) && v == CellUtility(w, u, p)
    ensures var change := Abs(At(u, p) - v);
            Swept(w, u, false, Set(g, p, v), done + [p], if change > m then change else m)
  {
    SyncSweepAt(w, u, p);
    AgreeStep(g, SyncSweep(w, u), done, p, v);
    NormStep(u, g, done, m, p, v);
  }

  /** Writing a fresh cell with the reference value extends the agreement to that cell. */
  lemma AgreeStep(g: Grid, ref: Grid, done: seq<Pos>, p: Pos, v: real)
    requires SameShape(g, ref) && 0 <= p.y < |g| && 0 <= p.x < |g[p.y]|
    requires forall i :: 0 <= i < |done| ==> 0 <= done[i].y < |g| && 0 <= done[i].x < |g[done[i].y]|
    requires p !in done && AgreeOn(g, ref, done) && v == At(ref, p)
    ensures AgreeOn(Set(g, p, v), ref, done + [p])
  {
    var done' := done + [p];
    forall i | 0 <= i < |done'| ensures At(Set(g, p, v), done'[i]) == At(ref, done'[i]) {
      if i < |done| {
        assert done'[i] == done[i] && done[i] != p;
      }
    }
  }

  /**
    Writing `v` into a fresh cell whose value was `At(u, p)` extends the
    max-norm bookkeeping by that cell's change.
  */
  lemma NormStep(u: Grid, g: Grid, done: seq<Pos>, m: real, p: Pos, v: real)
    requires SameShape(u, g) && 0 <= p.y < |u| && 0 <= p.x < |u[p.y]|
    requires forall i :: 0 <= i < |done| ==> 0 <= done[i].y < |u| && 0 <= done[i].x < |u[done[i].y]|
    requires p !in done && NormSoFar(u, g, done, m)
    ensures var change := Abs(At(u, p) - v);
            NormSoFar(u, Set(g, p, v), done + [p], if change > m then change else m)
  {
    var g' := Set(g, p, v);
    var change := Abs(At(u, p) - v);
    var m' := if change > m then change else m;
    var done' := done + [p];
    assert forall i :: 0 <= i < |done| ==> At(g', done[i]) == At(g, done[i]) by {
      forall i | 0 <= i < |done| ensures At(g', done[i]) == At(g, done[i]) {
        assert done[i] != p;
      }
    }
    assert At(g', p) == v;
    forall i | 0 <= i < |done'| ensures Abs(At(u, done'[i]) - At(g', done'[i])) <= m' {
      if i < |done| { assert done'[i] == done[i]; }
    }
    if change > m {
      assert done'[|done|] == p;
      assert Abs(At(u, done'[|done|]) - At(g', done'[|done|])) == m';
    } else if m != 0.0 {
      var i :| 0 <= i < |done| && Abs(At(u, done[i]) - At(g, done[i])) == m;
      assert done'[i] == done[i];
      assert Abs(At(u, done'[i]) - At(g', done'[i])) == m';
    }
  }

  /** The column loop of the sweep: visits `(x, 0) .. (x, rows - 1)`. */
  method SweepColumn(w: World, u: Grid, turbo: bool, g: Grid, ghost done: seq<Pos>, m: real, x: int)
    returns (g': Grid, ghost done': seq<Pos>, m': real)
    requires Valid(w) && Shaped(w, u) && 0 <= x < Cols(w)
    requires done == ScanOrder(x, Rows(w))
    requires Swept(w, u, turbo, g, done, m)
    ensures done' == ScanOrder(x + 1, Rows(w))
    ensures Swept(w, u, turbo, g', done', m')
  {
    g', done', m' := g, done, m;
    var y := 0;
    while y < Rows(w)
      invariant 0 <= y <= Rows(w)
      invariant done' == ScanOrder(x, Rows(w)) + Column(x, y)
      invariant Swept(w, u, turbo, g', done', m')
    {
      VisitFresh(w, x, y, done');
      g', m' := Visit(w, u, turbo, g', done', m', Pos(x, y));
      done' := done' + [Pos(x, y)];
      y := y + 1;
    }
    assert Column(x, Rows(w)) == Column(x, y);
  }

  /**
    The sweep loop of `valueIteration`: it yields the sweep's grid and the
    max-norm of the change, each cell compared against its value just before
    it is overwritten.
  */
  method SweepInPlace(w: World, u: Grid, turbo: bool) returns (next: Grid, maxNorm: real)
    requires Valid(w) && Shaped(w, u)
    ensures next == Sweep(w, u, turbo)
    ensures maxNorm == GridNorm(u, next)
  {
    next := if turbo then u else EmptyUtilities(w);
    maxNorm := 0.0;
    ghost var done: seq<Pos> := [];
    var x := 0;
    while x < Cols(w)
      invariant 0 <= x <= Cols(w)
      invariant done == ScanOrder(x, Rows(w))
      invariant Swept(w, u, turbo, next, done, maxNorm)
    {
      next, done, maxNorm := SweepColumn(w, u, turbo, next, done, maxNorm, x);
      x := x + 1;
    }
    AllVisited(w, u, next, done, maxNorm);
    if !turbo {
      SyncFromVisited(w, u, next, done);
    }
  }

  /** Agreement with the synchronous sweep on every cell is equality. */
  lemma SyncFromVisited(w: World, u: Grid, g: Grid, done: seq<Pos>)
    requires Valid(w) && Shaped(w, u) && Shaped(w, g)
    requires done == ScanOrder(Cols(w), Rows(w)) && AllInGrid(w, done)
    requires AgreeOn(g, SyncSweep(w, u), done)
    ensures g == SyncSweep(w, u)
  {
    var v := SyncSweep(w, u);
    forall y | 0 <= y < Rows(w) ensures g[y] == v[y] {
      forall x | 0 <= x < Cols(w) ensures g[y][x] == v[y][x] {
        ScanOrderCells(Cols(w), Rows(w), Pos(x, y));
        var i :| 0 <= i < |done| && done[i] == Pos(x, y);
      }
    }
  }

  /** The cell about to be visited has not been visited yet. */
  lemma VisitFresh(w: World, x: int, y: int, done: seq<Pos>)
    requires Valid(w) && 0 <= x < Cols(w) && 0 <= y < Rows(w)
    requires done == ScanOrder(x, Rows(w)) + Column(x, y)
    ensures Pos(x, y) !in done
    ensures done + [Pos(x, y)] == ScanOrder(x, Rows(w)) + Column(x, y + 1)
  {
    ScanOrderCells(x, Rows(w), Pos(x, y));
    assert Column(x, y + 1) == Column(x, y) + [Pos(x, y)];
  }

  lemma AllVisited(w: World, u: Grid, g: Grid, done: seq<Pos>, m: real)
    requires Valid(w) && Shaped(w, u) && Shaped(w, g)
    requires done == ScanOrder(Cols(w), Rows(w)) && AllInGrid(w, done)
    requires NormSoFar(u, g, done, m)
    ensures m == GridNorm(u, g)
  {
    forall y, x | 0 <= y < |u| && 0 <= x < |u[y]| ensures Abs(u[y][x] - g[y][x]) <= m {
      ScanOrderCells(Cols(w), Rows(w), Pos(x, y));
      var i :| 0 <= i < |done| && done[i] == Pos(x, y);
    }
    if m != 0.0 {
      var i :| 0 <= i < |done| && Abs(At(u, done[i]) - At(g, done[i])) == m;
      var y, x := done[i].y, done[i].x;
      assert Abs(u[y][x] - g[y][x]) == m;
    }
    GridNormUnique(u, g, m);
  }

  // ---------------------------------------------------------------------------
  // The outer loop
  // ---------------------------------------------------------------------------

  /** What a solve leaves: the utility grid, the cumulative iteration counter and how it ended. */
  datatype Run = Run(utilities: Grid, iterations: nat, status: Status)

  /**
    The progress hook's answer to sweep `i` (0-based) of this call: `false`
    stops the loop; a missing answer, as when there is no hook, continues.
  */
  function Reply(hook: seq<bool>, i: nat): bool {
    if i < |hook| then hook[i] else true
  }

  /** `n` sweeps from `u`. */
  function Iterate(w: World, u: Grid, turbo: bool, n: nat): (v: Grid)
    requires Valid(w) && Shaped(w, u)
    ensures Shaped(w, v)
  {
    if n == 0 then u else Sweep(w, Iterate(w, u, turbo, n - 1), turbo)
  }

  /**
    `valueIteration` started on `u` with counter `count0`, once `k` sweeps
    are done: count and sweep once more; a discount of 0 then ends the call
    with a division by zero; otherwise the loop stops when the hook's answer
    to this sweep is `false`, when the max-norm of the change is within
    `eps * (1 - d) / d`, or when the counter reaches the cap.
  */
  function SolveFrom(w: World, u: Grid, count0: nat, k: nat, cap: nat, hook: seq<bool>, turbo: bool): (r: Run)
    requires Valid(w) && Shaped(w, u)
    ensures Shaped(w, r.utilities)
    ensures r.iterations > count0 + k
    ensures count0 + k < cap ==> r.iterations <= cap
    ensures r.status == DivisionByZero <==> w.discount == 0.0
    decreases if count0 + k < cap then cap - (count0 + k) else 0
  {
    var next := Iterate(w, u, turbo, k + 1);
    var count := count0 + k + 1;
    if w.discount == 0.0 then Run(next, count, DivisionByZero)
    else if !Reply(hook, k) || GridNorm(Iterate(w, u, turbo, k), next) <= Threshold(w.discount) || count >= cap then
      Run(next, count, Done)
    else
      SolveFrom(w, u, count0, k + 1, cap, hook, turbo)
  }

  /** `valueIteration` from the solver's state. */
  function Solve(w: World, s: SolverState, cap: nat, hook: seq<bool>, turbo: bool): (r: Run)
    requires Valid(w) && Shaped(w, s.utilities)
    ensures Shaped(w, r.utilities)
    ensures r.iterations > s.iterations
    ensures s.iterations < cap ==> r.iterations <= cap
    ensures r.status == DivisionByZero <==> w.discount == 0.0
  {
    SolveFrom(w, s.utilities, s.iterations, 0, cap, hook, turbo)
  }

  /** A zero discount ends the call with a division by zero right after the first sweep. */
  lemma SolveDivides(w: World, s: SolverState, cap: nat, hook: seq<bool>, turbo: bool)
    requires Valid(w) && Shaped(w, s.utilities) && w.discount == 0.0
    ensures Solve(w, s, cap, hook, turbo) == Run(Sweep(w, s.utilities, turbo), s.iterations + 1, DivisionByZero)
  {
    assert Iterate(w, s.utilities, turbo, 1) == Sweep(w, s.utilities, turbo);
  }

  lemma SolveDividesAt(w: World, u: Grid, count0: nat, k: nat, cap: nat, hook: seq<bool>, turbo: bool)
    requires Valid(w) && Shaped(w, u) && w.discount == 0.0
    ensures SolveFrom(w, u, count0, k, cap, hook, turbo) == Run(Iterate(w, u, turbo, k + 1), count0 + k + 1, DivisionByZero)
  {
  }

  /**
    After sweep `i` (0-based) of a call that started from `u` with counter
    `count0`, the loop goes on: the hook continued, the max-norm of that
    sweep's change is above the threshold and the counter is below the cap.
  */
  predicate GoesOn(w: World, u: Grid, turbo: bool, hook: seq<bool>, count0: nat, cap: nat, i: nat)
    requires Valid(w) && Shaped(w, u) && w.discount != 0.0
  {
    && Reply(hook, i)
    && GridNorm(Iterate(w, u, turbo, i), Iterate(w, u, turbo, i + 1)) > Threshold(w.discount)
    && count0 + i + 1 < cap
  }

  lemma SolveStops(w: World, u: Grid, count0: nat, k: nat, cap: nat, hook: seq<bool>, turbo: bool)
    requires Valid(w) && Shaped(w, u) && w.discount != 0.0
    requires !GoesOn(w, u, turbo, hook, count0, cap, k)
    ensures SolveFrom(w, u, count0, k, cap, hook, turbo) == Run(Iterate(w, u, turbo, k + 1), count0 + k + 1, Done)
  {
  }

  lemma SolveGoesOn(w: World, u: Grid, count0: nat, k: nat, cap: nat, hook: seq<bool>, turbo: bool)
    requires Valid(w) && Shaped(w, u) && w.discount != 0.0
    requires GoesOn(w, u, turbo, hook, count0, cap, k)
    ensures SolveFrom(w, u, count0, k, cap, hook, turbo) == SolveFrom(w, u, count0, k + 1, cap, hook, turbo)
  {
  }

  /** The number of sweeps a call performs in all. */
  function Sweeps(w: World, u: Grid, count0: nat, k: nat, cap: nat, hook: seq<bool>, turbo: bool): nat
    requires Valid(w) && Shaped(w, u)
  {
    SolveFrom(w, u, count0, k, cap, hook, turbo).iterations - count0
  }

  /** With a non-zero discount the call ends normally with the grid its sweeps produce. */
  lemma {:induction false} SolveResult(w: World, u: Grid, count0: nat, k: nat, cap: nat, hook: seq<bool>, turbo: bool)
    requires Valid(w) && Shaped(w, u) && w.discount != 0.0
    ensures SolveFrom(w, u, count0, k, cap, hook, turbo).status == Done
    ensures SolveFrom(w, u, count0, k, cap, hook, turbo).utilities == Iterate(w, u, turbo, Sweeps(w, u, count0, k, cap, hook, turbo))
    decreases if count0 + k < cap then cap - (count0 + k) else 0
  {
    if GoesOn(w, u, turbo, hook, count0, cap, k) {
      SolveGoesOn(w, u, count0, k, cap, hook, turbo);
      SolveResult(w, u, count0, k + 1, cap, hook, turbo);
      assert Sweeps(w, u, count0, k, cap, hook, turbo) == Sweeps(w, u, count0, k + 1, cap, hook, turbo);
    } else {
      SolveStops(w, u, count0, k, cap, hook, turbo);
      var n := Sweeps(w, u, count0, k, cap, hook, turbo);
      assert n == k + 1;
      IterateSame(w, u, turbo, n, k + 1);
    }
  }

  /** `Iterate` at two equal counts; keeps the solver from merging the counts itself. */
  lemma IterateSame(w: World, u: Grid, turbo: bool, i: nat, j: nat)
    requires Valid(w) && Shaped(w, u) && i == j
    ensures Iterate(w, u, turbo, i) == Iterate(w, u, turbo, j)
  {
  }

  /** The loop went on after every sweep but the last. */
  lemma {:induction false} SolveWentOn(w: World, u: Grid, count0: nat, k: nat, cap: nat, hook: seq<bool>, turbo: bool, i: nat)
    requires Valid(w) && Shaped(w, u) && w.discount != 0.0
    requires k <= i && count0 + i + 1 < SolveFrom(w, u, count0, k, cap, hook, turbo).iterations
    ensures GoesOn(w, u, turbo, hook, count0, cap, i)
    decreases if count0 + k < cap then cap - (count0 + k) else 0
  {
    if !GoesOn(w, u, turbo, hook, count0, cap, k) {
      SolveStops(w, u, count0, k, cap, hook, turbo);
    } else if i > k {
      SolveGoesOn(w, u, count0, k, cap, hook, turbo);
      SolveWentOn(w, u, count0, k + 1, cap, hook, turbo, i);
    }
  }

  /** The index (0-based) of the last sweep. */
  function LastSweep(w: World, u: Grid, count0: nat, k: nat, cap: nat, hook: seq<bool>, turbo: bool): nat
    requires Valid(w) && Shaped(w, u)
  {
    SolveFrom(w, u, count0, k, cap, hook, turbo).iterations - count0 - 1
  }

  /** The loop stopped after the last sweep. */
  lemma {:induction false} SolveStopped(w: World, u: Grid, count0: nat, k: nat, cap: nat, hook: seq<bool>, turbo: bool)
    requires Valid(w) && Shaped(w, u) && w.discount != 0.0
    ensures !GoesOn(w, u, turbo, hook, count0, cap, LastSweep(w, u, count0, k, cap, hook, turbo))
    decreases if count0 + k < cap then cap - (count0 + k) else 0
  {
    if GoesOn(w, u, turbo, hook, count0, cap, k) {
      SolveGoesOn(w, u, count0, k, cap, hook, turbo);
      SolveStopped(w, u, count0, k + 1, cap, hook, turbo);
      assert LastSweep(w, u, count0, k, cap, hook, turbo) == LastSweep(w, u, count0, k + 1, cap, hook, turbo);
    } else {
      SolveStops(w, u, count0, k, cap, hook, turbo);
      assert LastSweep(w, u, count0, k, cap, hook, turbo) == k;
    }
  }

  /**
    With a non-zero discount the solve performs `n >= 1` sweeps: the loop
    went on after each of the first `n - 1` and stopped after the last, and
    the result is the grid `n` sweeps produce.
  */
  lemma SolveTrace(w: World, s: SolverState, cap: nat, hook: seq<bool>, turbo: bool)
    requires Valid(w) && Shaped(w, s.utilities) && w.discount != 0.0
    ensures Solve(w, s, cap, hook, turbo).iterations == s.iterations + Sweeps(w, s.utilities, s.iterations, 0, cap, hook, turbo)
    ensures Sweeps(w, s.utilities, s.iterations, 0, cap, hook, turbo) >= 1
    ensures Solve(w, s, cap, hook, turbo).utilities
            == Iterate(w, s.utilities, turbo, Sweeps(w, s.utilities, s.iterations, 0, cap, hook, turbo))
    ensures Solve(w, s, cap, hook, turbo).status == Done
    ensures forall i: nat :: i < Sweeps(w, s.utilities, s.iterations, 0, cap, hook, turbo) - 1
              ==> GoesOn(w, s.utilities, turbo, hook, s.iterations, cap, i)
    ensures LastSweep(w, s.utilities, s.iterations, 0, cap, hook, turbo) == Sweeps(w, s.utilities, s.iterations, 0, cap, hook, turbo) - 1
    ensures !GoesOn(w, s.utilities, turbo, hook, s.iterations, cap, LastSweep(w, s.utilities, s.iterations, 0, cap, hook, turbo))
  {
    var u, c := s.utilities, s.iterations;
    SolveResult(w, u, c, 0, cap, hook, turbo);
    SolveStopped(w, u, c, 0, cap, hook, turbo);
    assert LastSweep(w, u, c, 0, cap, hook, turbo) == Sweeps(w, u, c, 0, cap, hook, turbo) - 1;
    forall i: nat | i < Sweeps(w, u, c, 0, cap, hook, turbo) - 1 ensures GoesOn(w, u, turbo, hook, c, cap, i) {
      SolveWentOn(w, u, c, 0, cap, hook, turbo, i);
    }
  }

  /**
    A grid that is a fixed point of the backup is returned unchanged after a
    single sweep, with either sweep, when the discount is in `(0, 1]`.
  */
  lemma SolveAtFixedPoint(w: World, s: SolverState, cap: nat, hook: seq<bool>, turbo: bool)
    requires Valid(w) && Shaped(w, s.utilities) && IsFixedPoint(w, s.utilities)
    requires 0.0 < w.discount <= 1.0
    ensures Solve(w, s, cap, hook, turbo) == Run(s.utilities, s.iterations + 1, Done)
  {
    var u := s.utilities;
    SyncSweepFixedPoint(w, u);
    TurboSweepFixedPoint(w, u);
    assert Iterate(w, u, turbo, 1) == u;
    GridNormSelf(u);
    assert Threshold(w.discount) >= 0.0 by {
      assert 1.0 - w.discount >= 0.0;
      assert Epsilon * (1.0 - w.discount) >= 0.0;
    }
    assert !GoesOn(w, u, turbo, hook, s.iterations, cap, 0);
    SolveStops(w, u, s.iterations, 0, cap, hook, turbo);
  }

  /** The two tests after the hook: a change within the threshold, and the counter at the cap, each stop the loop. */
  method StopTests(w: World, reiterate: bool, maxNorm: real, count: nat, cap: nat) returns (goOn: bool)
    requires w.discount != 0.0
    ensures goOn <==> reiterate && maxNorm > Threshold(w.discount) && count < cap
  {
    goOn := reiterate;
    if maxNorm <= Threshold(w.discount) {
      goOn := false;
    }
    if count >= cap {
      goOn := false;
    }
  }

  /**
    The loop body after the counter is bumped: sweep, ask the hook, and,
    where the threshold can be computed, run the two stop tests.
  */
  method Pass(w: World, u: Grid, count0: nat, k: nat, cap: nat, hook: seq<bool>, turbo: bool, utilities: Grid, count: nat)
    returns (next: Grid, goOn: bool)
    requires Valid(w) && Shaped(w, u) && utilities == Iterate(w, u, turbo, k) && count == count0 + k + 1
    ensures next == Iterate(w, u, turbo, k + 1)
    ensures w.discount != 0.0 ==> (goOn <==> GoesOn(w, u, turbo, hook, count0, cap, k))
    ensures w.discount != 0.0 && goOn ==> count < cap
  {
    var maxNorm;
    next, maxNorm := SweepInPlace(w, utilities, turbo);
    goOn := Reply(hook, k);
    if w.discount != 0.0 {
      goOn := StopTests(w, goOn, maxNorm, count, cap);
    }
  }

  /**
    The loop of `valueIteration` as the source writes it, on a local grid:
    count, sweep, ask the hook, test the max-norm, test the cap.
  */
  method RunValueIteration(w: World, s: SolverState, cap: nat, hook: seq<bool>, turbo: bool) returns (r: Run)
    requires Valid(w) && Shaped(w, s.utilities)
    ensures r == Solve(w, s, cap, hook, turbo)
  {
    var utilities, count := s.utilities, s.iterations;
    var k: nat := 0;
    var reiterate := true;
    ghost var goal := Solve(w, s, cap, hook, turbo);
    r := Run(utilities, count, Done);
    while reiterate
      invariant count == s.iterations + k && utilities == Iterate(w, s.utilities, turbo, k)
      invariant reiterate ==> SolveFrom(w, s.utilities, s.iterations, k, cap, hook, turbo) == goal
      invariant !reiterate ==> r == goal
      decreases reiterate, if count < cap then cap - count else 0
    {
      count := count + 1;
      utilities, reiterate := Pass(w, s.utilities, s.iterations, k, cap, hook, turbo, utilities, count);
      if w.discount == 0.0 {
        SolveDividesAt(w, s.utilities, s.iterations, k, cap, hook, turbo);
        return Run(utilities, count, DivisionByZero);
      }
      if !reiterate {
        SolveStops(w, s.utilities, s.iterations, k, cap, hook, turbo);
        r := Run(utilities, count, Done);
      } else {
        SolveGoesOn(w, s.utilities, s.iterations, k, cap, hook, turbo);
      }
      k := k + 1;
    }
  }
}

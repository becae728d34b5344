/** Specification of one successive-over-relaxation sweep: an in-place,
    row-major, Gauss-Seidel pass over the interior points that also tracks the
    largest change and where it first occurred. */
module Relaxation {
  import opened Points
  import opened Meshes

  function Abs(x: real): (r: real)
    ensures r >= 0.0 && (r == x || r == -x)
  {
    if x < 0.0 then -x else x
  }

  /** The running state of a sweep: the mesh as updated so far, the largest
      change seen in this sweep and the (row, col) where it was recorded. */
  datatype SweepState = SweepState(mesh: Mesh, maxChange: real, maxRow: int, maxCol: int)

  /** The five-point over-relaxation update of point `p` from the voltages
      of its four neighbours, written through the guarded setter. */
  function Stencil(p: PotentialPoint, up: real, left: real, down: real, right: real, acceleration: real): (q: PotentialPoint)
    ensures q.fixed == p.fixed
    ensures p.fixed ==> q == p
  {
    p.SetVoltage(p.voltage + 0.25 * acceleration * (up + left + down + right - 4.0 * p.voltage))
  }

  /** With acceleration factor 1 the update of a free point is the plain
      average of its four neighbours. */
  lemma StencilUnitAcceleration(p: PotentialPoint, up: real, left: real, down: real, right: real)
    requires !p.fixed
    ensures Stencil(p, up, left, down, right, 1.0).voltage == (up + left + down + right) / 4.0
  {
  }

  /** A point that already equals the average of its neighbours is left as it
      is, whatever the acceleration factor. */
  lemma StencilBalancedPoint(p: PotentialPoint, up: real, left: real, down: real, right: real, acceleration: real)
    requires 4.0 * p.voltage == up + left + down + right
    ensures Stencil(p, up, left, down, right, acceleration) == p
  {
  }

  /** The stencil at interior point (r, c) of `m`. */
  function Relax(m: Mesh, acceleration: real, r: int, c: int): (p: PotentialPoint)
    requires IsMesh(m) && Interior(m, r, c)
  {
    Stencil(m[r][c], m[r-1][c].voltage, m[r][c-1].voltage, m[r+1][c].voltage, m[r][c+1].voltage, acceleration)
  }

  /** Visiting interior point (r, c): write the relaxed point back in place,
      and record its change if it is strictly larger than the largest so far. */
  function Step(s: SweepState, acceleration: real, r: int, c: int): (t: SweepState)
    requires IsMesh(s.mesh) && Interior(s.mesh, r, c)
    ensures SameShape(s.mesh, t.mesh)
  {
    var p := Relax(s.mesh, acceleration, r, c);
    var change := Abs(p.voltage - s.mesh[r][c].voltage);
    var m' := s.mesh[r := s.mesh[r][c := p]];
    if change > s.maxChange then SweepState(m', change, r, c)
    else s.(mesh := m')
  }

  /** A step writes the relaxed point at (r, c) and no other point; the
      tracker moves to (r, c) exactly when the change there beats it. */
  lemma StepWrites(s: SweepState, acceleration: real, r: int, c: int)
    requires IsMesh(s.mesh) && Interior(s.mesh, r, c)
    ensures var t := Step(s, acceleration, r, c);
            var change := Abs(t.mesh[r][c].voltage - s.mesh[r][c].voltage);
            t.mesh[r][c] == Relax(s.mesh, acceleration, r, c) &&
            (forall i, j :: InMesh(s.mesh, i, j) && (i != r || j != c) ==> t.mesh[i][j] == s.mesh[i][j]) &&
            (if change > s.maxChange then t.maxChange == change && t.maxRow == r && t.maxCol == c
             else t.maxChange == s.maxChange && t.maxRow == s.maxRow && t.maxCol == s.maxCol)
  {
  }

  /** The row counter's value when the row loop ends (it starts at 1). */
  function EndRow(m: Mesh): int
  {
    if |m| >= 2 then |m| - 1 else 1
  }

  /** The column counter's value when the column loop ends (it starts at 1). */
  function EndCol(m: Mesh): int
  {
    if Cols(m) >= 2 then Cols(m) - 1 else 1
  }

  /** The loop positions the sweep passes through: (r, c) with column c > 1
      only inside an interior row. */
  predicate ValidPos(m: Mesh, r: int, c: int)
  {
    1 <= r <= EndRow(m) && 1 <= c <= EndCol(m) && (c == 1 || r < |m| - 1)
  }

  /** The state of the sweep started in `s0` just before it visits (r, c). */
  function Pre(s0: SweepState, acceleration: real, r: int, c: int): (s: SweepState)
    requires IsMesh(s0.mesh) && ValidPos(s0.mesh, r, c)
    ensures SameShape(s0.mesh, s.mesh)
    decreases r, c
  {
    if c > 1 then Step(Pre(s0, acceleration, r, c - 1), acceleration, r, c - 1)
    else if r > 1 then Pre(s0, acceleration, r - 1, EndCol(s0.mesh))
    else s0
  }

  /** One whole sweep over `m`: the change tracker starts at 0 and the
      recorded location starts at the one left by the previous sweep. */
  function Sweep(m: Mesh, acceleration: real, prevRow: int, prevCol: int): (s: SweepState)
    requires IsMesh(m)
    ensures SameShape(m, s.mesh)
  {
    Pre(SweepState(m, 0.0, prevRow, prevCol), acceleration, EndRow(m), 1)
  }

  /** Row-major order: (i, j) is visited before (r, c). */
  predicate Before(i: int, j: int, r: int, c: int)
  {
    i < r || (i == r && j < c)
  }

  /** (i, j) is an interior point that the sweep has already visited when it
      reaches (r, c). */
  predicate Done(m: Mesh, i: int, j: int, r: int, c: int)
  {
    Interior(m, i, j) && Before(i, j, r, c)
  }

  /** Between two positions of one sweep only the points visited in between
      can change. */
  lemma {:induction false} PreFrame(s0: SweepState, acceleration: real, r1: int, c1: int, r2: int, c2: int, i: int, j: int)
    requires IsMesh(s0.mesh) && ValidPos(s0.mesh, r1, c1) && ValidPos(s0.mesh, r2, c2)
    requires r1 < r2 || (r1 == r2 && c1 <= c2)
    requires InMesh(s0.mesh, i, j)
    requires Done(s0.mesh, i, j, r2, c2) ==> Done(s0.mesh, i, j, r1, c1)
    ensures Pre(s0, acceleration, r2, c2).mesh[i][j] == Pre(s0, acceleration, r1, c1).mesh[i][j]
    decreases r2, c2
  {
    if r1 == r2 && c1 == c2 {
    } else if c2 > 1 {
      PreFrame(s0, acceleration, r1, c1, r2, c2 - 1, i, j);
      PreStepFrame(s0, acceleration, r2, c2, i, j);
    } else {
      PreFrame(s0, acceleration, r1, c1, r2 - 1, EndCol(s0.mesh), i, j);
      PreRowWrap(s0, acceleration, r2);
    }
  }

  /** Moving the column counter from c to c + 1 inside an interior row is
      one step at (r, c). */
  lemma PreNext(s0: SweepState, acceleration: real, r: int, c: int)
    requires IsMesh(s0.mesh) && Interior(s0.mesh, r, c)
    ensures ValidPos(s0.mesh, r, c) && ValidPos(s0.mesh, r, c + 1)
    ensures Pre(s0, acceleration, r, c + 1) == Step(Pre(s0, acceleration, r, c), acceleration, r, c)
  {
  }

  /** Moving from the end of row r - 1 to the start of row r writes nothing. */
  lemma PreRowWrap(s0: SweepState, acceleration: real, r: int)
    requires IsMesh(s0.mesh) && ValidPos(s0.mesh, r, 1) && r > 1
    ensures Pre(s0, acceleration, r, 1) == Pre(s0, acceleration, r - 1, EndCol(s0.mesh))
  {
  }

  /** Moving the column counter from c - 1 to c writes only (r, c - 1). */
  lemma PreStepFrame(s0: SweepState, acceleration: real, r: int, c: int, i: int, j: int)
    requires IsMesh(s0.mesh) && ValidPos(s0.mesh, r, c) && c > 1
    requires InMesh(s0.mesh, i, j) && (i != r || j != c - 1)
    ensures Pre(s0, acceleration, r, c).mesh[i][j] == Pre(s0, acceleration, r, c - 1).mesh[i][j]
  {
    var s := Pre(s0, acceleration, r, c - 1);
    assert InMesh(s.mesh, i, j);
  }

  /** A point the sweep has not yet visited when it reaches (r, c) still
      holds its value from before the sweep. */
  lemma PreUnvisited(s0: SweepState, acceleration: real, r: int, c: int, i: int, j: int)
    requires IsMesh(s0.mesh) && ValidPos(s0.mesh, r, c)
    requires InMesh(s0.mesh, i, j) && !Done(s0.mesh, i, j, r, c)
    ensures Pre(s0, acceleration, r, c).mesh[i][j] == s0.mesh[i][j]
  {
    PreFrame(s0, acceleration, 1, 1, r, c, i, j);
  }

  /** A point already visited when the sweep reaches (r, c) holds its final
      value for the sweep: nothing writes it again. */
  lemma PreVisited(s0: SweepState, acceleration: real, r: int, c: int, i: int, j: int)
    requires IsMesh(s0.mesh) && ValidPos(s0.mesh, r, c)
    requires InMesh(s0.mesh, i, j) && Done(s0.mesh, i, j, r, c)
    ensures Pre(s0, acceleration, r, c).mesh[i][j] == Pre(s0, acceleration, EndRow(s0.mesh), 1).mesh[i][j]
  {
    PreFrame(s0, acceleration, r, c, EndRow(s0.mesh), 1, i, j);
  }

  /** Gauss-Seidel data dependency: when interior point (r, c) is updated,
      its up and left neighbours already hold their values from this sweep,
      while the point itself and its down and right neighbours still hold
      their values from before it. */
  lemma NeighboursAtUpdate(m: Mesh, acceleration: real, prevRow: int, prevCol: int, r: int, c: int)
    requires IsMesh(m) && Interior(m, r, c)
    ensures var s0 := SweepState(m, 0.0, prevRow, prevCol);
            var seen := Pre(s0, acceleration, r, c).mesh;
            var after := Sweep(m, acceleration, prevRow, prevCol).mesh;
            seen[r-1][c] == after[r-1][c] && seen[r][c-1] == after[r][c-1] &&
            seen[r][c] == m[r][c] && seen[r+1][c] == m[r+1][c] && seen[r][c+1] == m[r][c+1]
  {
    var s0 := SweepState(m, 0.0, prevRow, prevCol);
    var end := EndRow(m);
    // a neighbour on the outer frame is never visited: before and after agree
    if r - 1 >= 1 {
      PreVisited(s0, acceleration, r, c, r - 1, c);
    } else {
      PreUnvisited(s0, acceleration, r, c, r - 1, c);
      PreUnvisited(s0, acceleration, end, 1, r - 1, c);
    }
    if c - 1 >= 1 {
      PreVisited(s0, acceleration, r, c, r, c - 1);
    } else {
      PreUnvisited(s0, acceleration, r, c, r, c - 1);
      PreUnvisited(s0, acceleration, end, 1, r, c - 1);
    }
    PreUnvisited(s0, acceleration, r, c, r, c);
    PreUnvisited(s0, acceleration, r, c, r + 1, c);
    PreUnvisited(s0, acceleration, r, c, r, c + 1);
  }

  /** The closed form of one sweep at an interior point: the stencil applied to
      the new up and left values and the old down, right and own values. */
  lemma SweepGaussSeidel(m: Mesh, acceleration: real, prevRow: int, prevCol: int, r: int, c: int)
    requires IsMesh(m) && Interior(m, r, c)
    ensures var f := Sweep(m, acceleration, prevRow, prevCol).mesh;
            f[r][c] == Stencil(m[r][c], f[r-1][c].voltage, f[r][c-1].voltage, m[r+1][c].voltage, m[r][c+1].voltage,
                               acceleration)
  {
    NeighboursAtUpdate(m, acceleration, prevRow, prevCol, r, c);
    SweepWritesOnce(m, acceleration, prevRow, prevCol, r, c);
  }

  /** The final value of interior point (r, c) is the one relaxed from the
      mesh the sweep holds when it reaches (r, c). */
  lemma SweepWritesOnce(m: Mesh, acceleration: real, prevRow: int, prevCol: int, r: int, c: int)
    requires IsMesh(m) && Interior(m, r, c)
    ensures var s0 := SweepState(m, 0.0, prevRow, prevCol);
            var seen := Pre(s0, acceleration, r, c).mesh;
            SameShape(m, seen) &&
            Sweep(m, acceleration, prevRow, prevCol).mesh[r][c] == Relax(seen, acceleration, r, c)
  {
    var s0 := SweepState(m, 0.0, prevRow, prevCol);
    // the point is written when the column counter moves from c to c + 1
    PreVisited(s0, acceleration, r, c + 1, r, c);
    PreNext(s0, acceleration, r, c);
    StepWrites(Pre(s0, acceleration, r, c), acceleration, r, c);
  }

  /** A sweep never writes the outer frame: row 0, the last row, column 0 and
      the last column keep their points. */
  lemma SweepKeepsBorder(m: Mesh, acceleration: real, prevRow: int, prevCol: int)
    requires IsMesh(m)
    ensures var f := Sweep(m, acceleration, prevRow, prevCol).mesh;
            forall i, j :: InMesh(m, i, j) && !Interior(m, i, j) ==> f[i][j] == m[i][j]
  {
    var s0 := SweepState(m, 0.0, prevRow, prevCol);
    forall i, j | InMesh(m, i, j) && !Interior(m, i, j)
      ensures Sweep(m, acceleration, prevRow, prevCol).mesh[i][j] == m[i][j]
    {
      PreUnvisited(s0, acceleration, EndRow(m), 1, i, j);
    }
  }

  /** A sweep never changes a fixed point, whatever its neighbours hold. */
  lemma SweepKeepsFixedPoints(m: Mesh, acceleration: real, prevRow: int, prevCol: int)
    requires IsMesh(m)
    ensures var f := Sweep(m, acceleration, prevRow, prevCol).mesh;
            forall i, j :: InMesh(m, i, j) && m[i][j].fixed ==> f[i][j] == m[i][j]
  {
    forall i, j | InMesh(m, i, j) && m[i][j].fixed
      ensures Sweep(m, acceleration, prevRow, prevCol).mesh[i][j] == m[i][j]
    {
      if Interior(m, i, j) {
        SweepGaussSeidel(m, acceleration, prevRow, prevCol, i, j);
      } else {
        SweepKeepsBorder(m, acceleration, prevRow, prevCol);
      }
    }
  }

  /** A sweep never changes any lock flag. */
  lemma SweepKeepsFlags(m: Mesh, acceleration: real, prevRow: int, prevCol: int)
    requires IsMesh(m)
    ensures var f := Sweep(m, acceleration, prevRow, prevCol).mesh;
            forall i, j :: InMesh(m, i, j) ==> f[i][j].fixed == m[i][j].fixed
  {
    forall i, j | InMesh(m, i, j)
      ensures Sweep(m, acceleration, prevRow, prevCol).mesh[i][j].fixed == m[i][j].fixed
    {
      if Interior(m, i, j) {
        SweepGaussSeidel(m, acceleration, prevRow, prevCol, i, j);
      } else {
        SweepKeepsBorder(m, acceleration, prevRow, prevCol);
      }
    }
  }

  /** Absolute change of point (i, j) between two meshes of the same shape. */
  function Change(before: Mesh, after: Mesh, i: int, j: int): real
    requires SameShape(before, after) && InMesh(before, i, j)
  {
    Abs(after[i][j].voltage - before[i][j].voltage)
  }

  /** What the change tracker knows when the sweep started from `m0` (tracker
      at 0, location (prevRow, prevCol)) reaches (r, c) in state `s`: the
      recorded maximum bounds every change so far, and when it is positive it
      is the change at the recorded location, which is the first visited
      point to reach it. */
  ghost predicate TrackerInv(m0: Mesh, prevRow: int, prevCol: int, s: SweepState, r: int, c: int)
  {
    SameShape(m0, s.mesh) &&
    s.maxChange >= 0.0 &&
    (forall i, j :: Done(m0, i, j, r, c) ==> Change(m0, s.mesh, i, j) <= s.maxChange) &&
    (s.maxChange == 0.0 ==> s.maxRow == prevRow && s.maxCol == prevCol) &&
    (s.maxChange > 0.0 ==>
       Done(m0, s.maxRow, s.maxCol, r, c) &&
       Change(m0, s.mesh, s.maxRow, s.maxCol) == s.maxChange &&
       forall i, j :: Done(m0, i, j, s.maxRow, s.maxCol) ==> Change(m0, s.mesh, i, j) < s.maxChange)
  }

  lemma {:induction false} PreTracker(s0: SweepState, acceleration: real, r: int, c: int)
    requires IsMesh(s0.mesh) && ValidPos(s0.mesh, r, c) && s0.maxChange == 0.0
    ensures TrackerInv(s0.mesh, s0.maxRow, s0.maxCol, Pre(s0, acceleration, r, c), r, c)
    decreases r, c
  {
    var m0 := s0.mesh;
    if c > 1 {
      PreTracker(s0, acceleration, r, c - 1);
      var s := Pre(s0, acceleration, r, c - 1);
      var t := Pre(s0, acceleration, r, c);
      assert t == Step(s, acceleration, r, c - 1);
      PreUnvisited(s0, acceleration, r, c - 1, r, c - 1);
      assert Change(m0, t.mesh, r, c - 1) == Abs(t.mesh[r][c-1].voltage - s.mesh[r][c-1].voltage);
      forall i, j | Done(m0, i, j, r, c - 1)
        ensures Change(m0, t.mesh, i, j) == Change(m0, s.mesh, i, j)
      {
        assert t.mesh[i][j] == s.mesh[i][j];
      }
    } else if r > 1 {
      PreTracker(s0, acceleration, r - 1, EndCol(m0));
      forall i, j ensures Done(m0, i, j, r, 1) == Done(m0, i, j, r - 1, EndCol(m0)) {
      }
    }
  }

  /** The tracker after a whole sweep: `maxChange` is the largest absolute
      change of any point and is never negative; when it is positive the
      recorded location is an interior point whose change equals it, and every
      interior point before it in row-major order changed strictly less (ties
      keep the earliest location); when it is 0 the location is the one the
      sweep started with. */
  lemma SweepMaxChange(m: Mesh, acceleration: real, prevRow: int, prevCol: int)
    requires IsMesh(m)
    ensures var s := Sweep(m, acceleration, prevRow, prevCol);
            s.maxChange >= 0.0 &&
            (forall i, j :: InMesh(m, i, j) ==> Change(m, s.mesh, i, j) <= s.maxChange) &&
            (s.maxChange == 0.0 ==> s.maxRow == prevRow && s.maxCol == prevCol) &&
            (s.maxChange > 0.0 ==>
               Interior(m, s.maxRow, s.maxCol) &&
               Change(m, s.mesh, s.maxRow, s.maxCol) == s.maxChange &&
               forall i, j :: Interior(m, i, j) && Before(i, j, s.maxRow, s.maxCol) ==>
                              Change(m, s.mesh, i, j) < s.maxChange)
  {
    var s0 := SweepState(m, 0.0, prevRow, prevCol);
    var s := Sweep(m, acceleration, prevRow, prevCol);
    PreTracker(s0, acceleration, EndRow(m), 1);
    SweepKeepsBorder(m, acceleration, prevRow, prevCol);
    forall i, j | InMesh(m, i, j)
      ensures Change(m, s.mesh, i, j) <= s.maxChange
    {
      if !Interior(m, i, j) {
        assert s.mesh[i][j] == m[i][j];
      } else {
        assert Done(m, i, j, EndRow(m), 1);
      }
    }
    if s.maxChange > 0.0 {
      forall i, j | Interior(m, i, j) && Before(i, j, s.maxRow, s.maxCol)
        ensures Change(m, s.mesh, i, j) < s.maxChange
      {
        assert Done(m, i, j, s.maxRow, s.maxCol);
      }
    }
  }

  /** Every free interior point already equals the average of its four
      neighbours: the discrete Laplace equation holds. */
  ghost predicate Harmonic(m: Mesh)
    requires IsMesh(m)
  {
    forall i, j :: Interior(m, i, j) ==> Balanced(m, i, j)
  }

  /** A free interior point equal to the average of its four neighbours. */
  ghost predicate Balanced(m: Mesh, i: int, j: int)
    requires IsMesh(m) && Interior(m, i, j)
  {
    !m[i][j].fixed ==>
      4.0 * m[i][j].voltage == m[i-1][j].voltage + m[i][j-1].voltage + m[i+1][j].voltage + m[i][j+1].voltage
  }

  lemma {:induction false} PreHarmonic(s0: SweepState, acceleration: real, r: int, c: int)
    requires IsMesh(s0.mesh) && ValidPos(s0.mesh, r, c) && s0.maxChange == 0.0 && Harmonic(s0.mesh)
    ensures Pre(s0, acceleration, r, c) == s0
    decreases r, c
  {
    if c > 1 {
      PreHarmonic(s0, acceleration, r, c - 1);
      var m := s0.mesh;
      assert Balanced(m, r, c - 1);
      if !m[r][c-1].fixed {
        StencilBalancedPoint(m[r][c-1], m[r-1][c-1].voltage, m[r][c-2].voltage, m[r+1][c-1].voltage,
                             m[r][c].voltage, acceleration);
      }
      assert m[r][c - 1 := m[r][c-1]] == m[r];
      assert m[r := m[r]] == m;
    } else if r > 1 {
      PreHarmonic(s0, acceleration, r - 1, EndCol(s0.mesh));
    }
  }

  /** On a mesh that already solves the discrete Laplace equation a sweep,
      with any acceleration factor, changes nothing and reports a maximum
      change of 0. */
  lemma SweepLeavesHarmonicMeshUnchanged(m: Mesh, acceleration: real, prevRow: int, prevCol: int)
    requires IsMesh(m) && Harmonic(m)
    ensures Sweep(m, acceleration, prevRow, prevCol) == SweepState(m, 0.0, prevRow, prevCol)
  {
    PreHarmonic(SweepState(m, 0.0, prevRow, prevCol), acceleration, EndRow(m), 1);
  }

  /** The state after `n` sweeps of the solver loop: before the first sweep
      the maximum change holds the entry sentinel 1 and the location (0, 0);
      each sweep starts from the location the previous one left. */
  function Relaxations(m: Mesh, acceleration: real, n: nat): (s: SweepState)
    requires IsMesh(m)
    ensures SameShape(m, s.mesh)
  {
    if n == 0 then SweepState(m, 1.0, 0, 0)
    else
      var s := Relaxations(m, acceleration, n - 1);
      Sweep(s.mesh, acceleration, s.maxRow, s.maxCol)
  }

  /** However many sweeps run, fixed points keep their voltage and no lock
      flag changes: boundary conditions never drift under relaxation. */
  lemma {:induction false} RelaxationsKeepFixedPoints(m: Mesh, acceleration: real, n: nat)
    requires IsMesh(m)
    ensures var f := Relaxations(m, acceleration, n).mesh;
            forall i, j :: InMesh(m, i, j) ==> f[i][j].fixed == m[i][j].fixed && (m[i][j].fixed ==> f[i][j] == m[i][j])
  {
    if n > 0 {
      RelaxationsKeepFixedPoints(m, acceleration, n - 1);
      var s := Relaxations(m, acceleration, n - 1);
      SweepKeepsFlags(s.mesh, acceleration, s.maxRow, s.maxCol);
      SweepKeepsFixedPoints(s.mesh, acceleration, s.maxRow, s.maxCol);
    }
  }

  /** The number of sweeps the solver runs on `m` when `from` have run
      already: the first count from `from` on whose largest change is at most
      `epsilon`, or `limit` when none up to it is. */
  function SweepsRun(m: Mesh, acceleration: real, epsilon: real, from: nat, limit: nat): (n: nat)
    requires IsMesh(m) && from <= limit
    ensures from <= n <= limit
    decreases limit - from
  {
    if Relaxations(m, acceleration, from).maxChange <= epsilon || from == limit then from
    else SweepsRun(m, acceleration, epsilon, from + 1, limit)
  }

  /** The solver stops at the first sweep count whose largest change is at
      most `epsilon`: every earlier count is above it, and it stops short of
      the limit only there. */
  lemma {:induction false} SweepsRunIsFirst(m: Mesh, acceleration: real, epsilon: real, from: nat, limit: nat)
    requires IsMesh(m) && from <= limit
    ensures var n := SweepsRun(m, acceleration, epsilon, from, limit);
            (forall k :: from <= k < n ==> Relaxations(m, acceleration, k).maxChange > epsilon) &&
            (Relaxations(m, acceleration, n).maxChange <= epsilon || n == limit)
    decreases limit - from
  {
    if Relaxations(m, acceleration, from).maxChange > epsilon && from < limit {
      SweepsRunIsFirst(m, acceleration, epsilon, from + 1, limit);
    }
  }

  /** On a mesh that already solves the discrete Laplace equation, the solver
      loop with a threshold in [0, 1) enters once and stops after exactly one
      sweep, with the mesh unchanged. */
  lemma HarmonicMeshStopsAfterOneSweep(m: Mesh, acceleration: real, epsilon: real, limit: nat)
    requires IsMesh(m) && Harmonic(m) && 0.0 <= epsilon < 1.0 && limit >= 1
    ensures SweepsRun(m, acceleration, epsilon, 0, limit) == 1
    ensures Relaxations(m, acceleration, 1).mesh == m
  {
    SweepLeavesHarmonicMeshUnchanged(m, acceleration, 0, 0);
  }
}

/** The potential grid: a mesh of points owned by one object, the geometry
    operations that fix lines and rectangles, the initial guess, the
    successive-over-relaxation solver and its diagnostics log. */
module Grid {
  import opened Points
  import opened Meshes
  import opened Relaxation

  /** Line orientations accepted by `SetFixedLine`. */
  const OrientationVertical: bool := true
  const OrientationHorizontal: bool := false

  /** One record of the diagnostics log. The text rendering of each record is
      not modelled; its fields are. */
  datatype LogEntry =
    | Created(widthMM: int, heightMM: int, granularity: int)
    | Started(acceleration: real, epsilon: real)
    | IterationResult(iteration: nat, maxChange: real, row: int, col: int, xMM: real, yMM: real)
    | Finished(iterations: nat, finalEpsilon: real)

  /** The record a sweep leaves: its number, the largest change and where it
      was recorded, as a mesh index and in millimetres. */
  function IterationRecord(iteration: nat, s: SweepState, granularity: int): LogEntry
    requires granularity >= 1
  {
    IterationResult(iteration, s.maxChange, s.maxRow, s.maxCol,
                    s.maxCol as real / granularity as real, s.maxRow as real / granularity as real)
  }

  /** The records of the first `n` sweeps of a solver run started on `m`. */
  function IterationLog(m: Mesh, acceleration: real, granularity: int, n: nat): (r: seq<LogEntry>)
    requires IsMesh(m) && granularity >= 1
    ensures |r| == n
  {
    if n == 0 then []
    else IterationLog(m, acceleration, granularity, n - 1)
         + [IterationRecord(n, Relaxations(m, acceleration, n), granularity)]
  }

  /** Record k of the iteration log describes sweep k + 1. */
  lemma {:induction false} IterationLogRecords(m: Mesh, acceleration: real, granularity: int, n: nat)
    requires IsMesh(m) && granularity >= 1
    ensures forall k :: 0 <= k < n ==>
              IterationLog(m, acceleration, granularity, n)[k]
              == IterationRecord(k + 1, Relaxations(m, acceleration, k + 1), granularity)
  {
    if n > 0 {
      var r := IterationLog(m, acceleration, granularity, n);
      var prefix := IterationLog(m, acceleration, granularity, n - 1);
      IterationLogRecords(m, acceleration, granularity, n - 1);
      assert r == prefix + [IterationRecord(n, Relaxations(m, acceleration, n), granularity)];
      forall k | 0 <= k < n
        ensures r[k] == IterationRecord(k + 1, Relaxations(m, acceleration, k + 1), granularity)
      {
        if k < n - 1 {
          assert r[k] == prefix[k];
          assert prefix[k] == IterationRecord(k + 1, Relaxations(m, acceleration, k + 1), granularity);
        } else {
          assert r[k] == IterationRecord(n, Relaxations(m, acceleration, n), granularity);
        }
      }
    }
  }

  /** One more sweep extends the solver's history by one state and its log by
      one record. */
  lemma NextIteration(m: Mesh, acceleration: real, granularity: int, n: nat)
    requires IsMesh(m) && granularity >= 1
    ensures var s := Relaxations(m, acceleration, n);
            Relaxations(m, acceleration, n + 1) == Sweep(s.mesh, acceleration, s.maxRow, s.maxCol)
    ensures IterationLog(m, acceleration, granularity, n + 1)
            == IterationLog(m, acceleration, granularity, n)
               + [IterationRecord(n + 1, Relaxations(m, acceleration, n + 1), granularity)]
  {
  }

  class PotentialGrid {
    var grid: array2<PotentialPoint>
    var granularity: int
    var log: seq<LogEntry>
    // the physical size the grid was built for
    ghost var widthMM: int
    ghost var heightMM: int

    /** The grid's shape follows from its physical size and granularity, and
        neither changes after construction. */
    ghost predicate Valid()
      reads this
    {
      granularity >= 1 && widthMM >= 0 && heightMM >= 0 &&
      grid.Length0 == MeshSize(heightMM, granularity) &&
      grid.Length1 == MeshSize(widthMM, granularity)
    }

    /** `m` holds exactly the points of the array. */
    ghost predicate Represents(m: Mesh)
      reads this, grid
    {
      |m| == grid.Length0 &&
      (forall i :: 0 <= i < |m| ==> |m[i]| == grid.Length1) &&
      forall i, j :: 0 <= i < grid.Length0 && 0 <= j < grid.Length1 ==> m[i][j] == grid[i, j]
    }

    /** The array's points as a mesh value. */
    ghost function Cells(): (m: Mesh)
      reads this, grid
      ensures Represents(m)
    {
      var a := grid;
      seq(a.Length0, i requires 0 <= i < a.Length0 reads a =>
        seq(a.Length1, j requires 0 <= j < a.Length1 reads a => a[i, j]))
    }

    /** The stencil computed from the array's points is the one `Relax`
        computes from the mesh the array represents. */
    lemma RelaxReadsGrid(m: Mesh, acceleration: real, r: int, c: int)
      requires Represents(m) && IsMesh(m) && Interior(m, r, c)
      ensures Relax(m, acceleration, r, c)
              == Stencil(grid[r, c], grid[r - 1, c].voltage, grid[r, c - 1].voltage,
                         grid[r + 1, c].voltage, grid[r, c + 1].voltage, acceleration)
    {
      assert m[r][c] == grid[r, c] && m[r - 1][c] == grid[r - 1, c] && m[r][c - 1] == grid[r, c - 1];
      assert m[r + 1][c] == grid[r + 1, c] && m[r][c + 1] == grid[r, c + 1];
    }

    /** The point the sweep computes from the array at interior (r, c), and
        the tracker update it makes, are those of `Step` on the mesh the
        array represents. */
    lemma StencilIsStep(s: SweepState, acceleration: real, r: int, c: int, vold: real, p: PotentialPoint)
      requires IsMesh(s.mesh) && Interior(s.mesh, r, c) && Represents(s.mesh)
      requires vold == grid[r, c].voltage
      requires p == Stencil(grid[r, c], grid[r - 1, c].voltage, grid[r, c - 1].voltage,
                            grid[r + 1, c].voltage, grid[r, c + 1].voltage, acceleration)
      ensures var t := Step(s, acceleration, r, c);
              var change := Abs(p.voltage - vold);
              p == t.mesh[r][c] &&
              (forall i, j :: InMesh(s.mesh, i, j) && (i != r || j != c) ==> t.mesh[i][j] == s.mesh[i][j]) &&
              (if change > s.maxChange then t.maxChange == change && t.maxRow == r && t.maxCol == c
               else t.maxChange == s.maxChange && t.maxRow == s.maxRow && t.maxCol == s.maxCol)
    {
      StepWrites(s, acceleration, r, c);
      RelaxReadsGrid(s.mesh, acceleration, r, c);
    }

    /** A grid `dimX` by `dimY` millimetres at `granularity` divisions per
        millimetre: `dimY * granularity + 1` rows, `dimX * granularity + 1`
        columns, every point at 0 V and free. */
    constructor (dimX: int, dimY: int, granularity: int)
      requires dimX >= 0 && dimY >= 0 && granularity >= 1
      ensures Valid() && fresh(grid)
      ensures this.granularity == granularity && widthMM == dimX && heightMM == dimY
      ensures grid.Length0 == dimY * granularity + 1 && grid.Length1 == dimX * granularity + 1
      ensures forall i, j :: 0 <= i < grid.Length0 && 0 <= j < grid.Length1 ==> grid[i, j] == FreshPoint
      ensures log == [Created(dimX, dimY, granularity)]
    {
      log := [Created(dimX, dimY, granularity)];
      var points := new PotentialPoint[MeshSize(dimY, granularity), MeshSize(dimX, granularity)];
      for row := 0 to points.Length0
        invariant forall i, j :: 0 <= i < row && 0 <= j < points.Length1 ==> points[i, j] == FreshPoint
      {
        for col := 0 to points.Length1
          invariant forall i, j :: 0 <= i < row && 0 <= j < points.Length1 ==> points[i, j] == FreshPoint
          invariant forall j :: 0 <= j < col ==> points[row, j] == FreshPoint
        {
          points[row, col] := FreshPoint;
        }
      }
      grid := points;
      this.granularity := granularity;
      widthMM, heightMM := dimX, dimY;
    }

    /** The number of mesh rows, `heightMM * granularity + 1`. */
    function NumberOfRows(): (n: int)
      reads this
      requires Valid()
      ensures n == heightMM * granularity + 1
    {
      grid.Length0
    }

    /** The number of mesh columns, the length shared by every row,
        `widthMM * granularity + 1`. */
    function NumberOfColumns(): (n: int)
      reads this
      requires Valid()
      ensures n == widthMM * granularity + 1
    {
      grid.Length1
    }

    /** Fixes `size` consecutive mesh points to `voltage`, upwards from the
        start (given in millimetres) when vertical, rightwards when
        horizontal. Points that were fixed already are overwritten; every
        other point is left as it was. */
    method SetFixedLine(size: int, orientation: bool, startX: int, startY: int, voltage: real)
      requires Valid()
      requires LineFits(grid.Length0, grid.Length1, size, orientation,
                        ToMesh(startX, granularity), ToMesh(startY, granularity))
      modifies grid
      ensures forall i, j :: 0 <= i < grid.Length0 && 0 <= j < grid.Length1 ==>
                grid[i, j] == if OnLine(i, j, size, orientation, ToMesh(startX, granularity), ToMesh(startY, granularity))
                              then PotentialPoint(voltage, true) else old(grid[i, j])
    {
      var x0 := ToMesh(startX, granularity);
      var y0 := ToMesh(startY, granularity);
      var lineStart := 0;
      if orientation == OrientationVertical {
        lineStart := y0;
      } else {
        lineStart := x0;
      }
      var pos := lineStart;
      while pos < size + lineStart
        invariant lineStart <= pos <= lineStart + (if size > 0 then size else 0)
        invariant forall i, j :: 0 <= i < grid.Length0 && 0 <= j < grid.Length1 ==>
                    grid[i, j] == if OnLine(i, j, pos - lineStart, orientation, x0, y0)
                                  then PotentialPoint(voltage, true) else old(grid[i, j])
      {
        if orientation == OrientationVertical {
          grid[pos, x0] := grid[pos, x0].Fix(voltage);
        } else {
          grid[y0, pos] := grid[y0, pos].Fix(voltage);
        }
        pos := pos + 1;
      }
    }

    /** Fixes to `voltage` every mesh point whose row lies in the span of
        `height + 1` millimetres from `startY` and whose column lies in the
        span of `width + 1` millimetres from `startX`. The last call wins
        where regions overlap; points outside are left as they were. */
    method SetFixedRectangle(width: int, height: int, startX: int, startY: int, voltage: real)
      requires Valid()
      requires RectangleFits(grid.Length0, grid.Length1, width, height, startX, startY, granularity)
      modifies grid
      ensures forall i, j :: 0 <= i < grid.Length0 && 0 <= j < grid.Length1 ==>
                grid[i, j] == if InRectangle(i, j, width, height, startX, startY, granularity)
                              then PotentialPoint(voltage, true) else old(grid[i, j])
    {
      var w := (width + 1) * granularity;
      var h := (height + 1) * granularity;
      var x0 := ToMesh(startX, granularity);
      var y0 := ToMesh(startY, granularity);
      var row := y0;
      while row < y0 + h
        invariant y0 <= row <= y0 + (if h > 0 then h else 0)
        invariant forall i, j :: 0 <= i < grid.Length0 && 0 <= j < grid.Length1 ==>
                    grid[i, j] == if y0 <= i < row && x0 <= j < x0 + w
                                  then PotentialPoint(voltage, true) else old(grid[i, j])
      {
        var col := x0;
        while col < x0 + w
          invariant x0 <= col <= x0 + (if w > 0 then w else 0)
          invariant forall i, j :: 0 <= i < grid.Length0 && 0 <= j < grid.Length1 ==>
                      grid[i, j] == if (y0 <= i < row && x0 <= j < x0 + w) || (i == row && x0 <= j < col)
                                    then PotentialPoint(voltage, true) else old(grid[i, j])
        {
          grid[row, col] := grid[row, col].Fix(voltage);
          col := col + 1;
        }
        row := row + 1;
      }
    }

    /** Writes `guess` to every point through the guarded setter: free points
        take the guess, fixed points keep their voltage, no flag changes. */
    method SetGuess(guess: real)
      modifies grid
      ensures forall i, j :: 0 <= i < grid.Length0 && 0 <= j < grid.Length1 ==>
                grid[i, j].fixed == old(grid[i, j].fixed) &&
                grid[i, j].voltage == if old(grid[i, j].fixed) then old(grid[i, j].voltage) else guess
    {
      for row := 0 to grid.Length0
        invariant forall i, j :: 0 <= i < grid.Length0 && 0 <= j < grid.Length1 ==>
                    grid[i, j] == if i < row then old(grid[i, j]).SetVoltage(guess) else old(grid[i, j])
      {
        for col := 0 to grid.Length1
          invariant forall i, j :: 0 <= i < grid.Length0 && 0 <= j < grid.Length1 ==>
                      grid[i, j] == if i < row || (i == row && j < col) then old(grid[i, j]).SetVoltage(guess)
                                    else old(grid[i, j])
        {
          grid[row, col] := grid[row, col].SetVoltage(guess);
        }
      }
    }

    /** One relaxation sweep over the interior points, in place, row by row
        from row 1 and column by column from column 1, through the guarded
        setter. Returns the largest change and where it was recorded; the
        location passed in is kept when nothing changes. The new points and
        the tracker are those of `Sweep`, whose lemmas give the properties. */
    method RelaxationSweep(acceleration: real, prevRow: int, prevCol: int, ghost m0: Mesh)
      returns (maxChange: real, maxRow: int, maxCol: int)
      requires Valid() && Represents(m0)
      modifies grid
      ensures var s := Sweep(m0, acceleration, prevRow, prevCol);
              Represents(s.mesh) && maxChange == s.maxChange && maxRow == s.maxRow && maxCol == s.maxCol
    {
      ghost var s0 := SweepState(m0, 0.0, prevRow, prevCol);
      maxChange, maxRow, maxCol := 0.0, prevRow, prevCol;
      var row := 1;
      while row < grid.Length0 - 1
        invariant IsMesh(m0) && |m0| == grid.Length0 && Cols(m0) == grid.Length1
        invariant ValidPos(m0, row, 1)
        invariant var s := Pre(s0, acceleration, row, 1);
                  Represents(s.mesh) && maxChange == s.maxChange && maxRow == s.maxRow && maxCol == s.maxCol
      {
        maxChange, maxRow, maxCol := RelaxRow(acceleration, row, s0, maxChange, maxRow, maxCol);
        row := row + 1;
      }
    }

    /** The column loop of `RelaxationSweep` for interior row `row`: carries
        the sweep started in `s0` from the start of this row to the start of
        the next one. */
    method RelaxRow(acceleration: real, row: int, ghost s0: SweepState, maxChange0: real, maxRow0: int, maxCol0: int)
      returns (maxChange: real, maxRow: int, maxCol: int)
      requires Valid() && IsMesh(s0.mesh) && |s0.mesh| == grid.Length0 && Cols(s0.mesh) == grid.Length1
      requires 1 <= row < grid.Length0 - 1
      requires var s := Pre(s0, acceleration, row, 1);
               Represents(s.mesh) && maxChange0 == s.maxChange && maxRow0 == s.maxRow && maxCol0 == s.maxCol
      modifies grid
      ensures var s := Pre(s0, acceleration, row + 1, 1);
              Represents(s.mesh) && maxChange == s.maxChange && maxRow == s.maxRow && maxCol == s.maxCol
    {
      maxChange, maxRow, maxCol := maxChange0, maxRow0, maxCol0;
      ghost var cur := Pre(s0, acceleration, row, 1);
      var col := 1;
      while col < grid.Length1 - 1
        invariant ValidPos(s0.mesh, row, col)
        invariant cur == Pre(s0, acceleration, row, col)
        invariant SameShape(s0.mesh, cur.mesh)
        invariant Represents(cur.mesh) && maxChange == cur.maxChange && maxRow == cur.maxRow && maxCol == cur.maxCol
      {
        var vold := grid[row, col].voltage;
        // a fixed point silently rejects the write
        var p := Stencil(grid[row, col], grid[row - 1, col].voltage, grid[row, col - 1].voltage,
                         grid[row + 1, col].voltage, grid[row, col + 1].voltage, acceleration);
        StencilIsStep(cur, acceleration, row, col, vold, p);
        grid[row, col] := p;
        var pointEpsilon := Abs(grid[row, col].voltage - vold);
        if pointEpsilon > maxChange {
          maxChange := pointEpsilon;
          maxCol := col;
          maxRow := row;
        }
        PreNext(s0, acceleration, row, col);
        cur := Step(cur, acceleration, row, col);
        assert Represents(cur.mesh);
        col := col + 1;
      }
      assert col == EndCol(s0.mesh);
      PreRowWrap(s0, acceleration, row + 1);
    }

    /** The solver: sweeps until the largest change of a sweep is at most
        `epsilon`. The change starts at the sentinel 1, so a threshold of 1 or
        more runs no sweep. At most `maxSweeps` sweeps run; `converged` says
        whether the threshold was reached and `iterations` is the number of
        sweeps performed. The log gains the run's parameters, one record per
        sweep and, on convergence, the summary. */
    method CalculateSolution(acceleration: real, epsilon: real, maxSweeps: nat, ghost m0: Mesh)
      returns (converged: bool, iterations: nat)
      requires Valid() && Represents(m0)
      modifies this`log, grid
      ensures iterations == SweepsRun(m0, acceleration, epsilon, 0, maxSweeps)
      ensures var r := Relaxations(m0, acceleration, iterations);
              Represents(r.mesh) &&
              (converged <==> r.maxChange <= epsilon) &&
              log == old(log) + [Started(acceleration, epsilon)]
                     + IterationLog(m0, acceleration, granularity, iterations)
                     + (if converged then [Finished(iterations, r.maxChange)] else [])
    {
      var currentEpsilon := 1.0;
      var currentIteration := 1;
      var eMaxCoordinateX := 0;
      var eMaxCoordinateY := 0;
      ghost var cur := Relaxations(m0, acceleration, 0);
      log := log + [Started(acceleration, epsilon)];
      while currentEpsilon > epsilon && currentIteration <= maxSweeps
        invariant Valid() && IsMesh(m0)
        invariant 1 <= currentIteration <= maxSweeps + 1
        invariant cur == Relaxations(m0, acceleration, currentIteration - 1)
        invariant Represents(cur.mesh) && currentEpsilon == cur.maxChange &&
                  eMaxCoordinateY == cur.maxRow && eMaxCoordinateX == cur.maxCol
        invariant SweepsRun(m0, acceleration, epsilon, 0, maxSweeps)
                  == SweepsRun(m0, acceleration, epsilon, currentIteration - 1, maxSweeps)
        invariant log == old(log) + [Started(acceleration, epsilon)]
                         + IterationLog(m0, acceleration, granularity, currentIteration - 1)
        decreases maxSweeps + 1 - currentIteration
      {
        currentEpsilon, eMaxCoordinateY, eMaxCoordinateX := RelaxationSweep(acceleration, eMaxCoordinateY, eMaxCoordinateX, cur.mesh);
        log := log + [IterationResult(currentIteration, currentEpsilon, eMaxCoordinateY, eMaxCoordinateX,
                                      eMaxCoordinateX as real / granularity as real,
                                      eMaxCoordinateY as real / granularity as real)];
        ghost var next := Relaxations(m0, acceleration, currentIteration);
        NextIteration(m0, acceleration, granularity, currentIteration - 1);
        cur := next;
        currentIteration := currentIteration + 1;
      }
      currentIteration := currentIteration - 1;
      iterations := currentIteration;
      converged := currentEpsilon <= epsilon;
      if converged {
        log := log + [Finished(iterations, currentEpsilon)];
      }
    }

    /** The text export's row order: the last stored row first (row 0 is the
        bottom of the geometry), each row's voltages in column order. */
    method Snapshot() returns (lines: seq<seq<real>>)
      requires Valid()
      ensures |lines| == grid.Length0
      ensures forall k :: 0 <= k < |lines| ==> |lines[k]| == grid.Length1
      ensures forall k, j :: 0 <= k < |lines| && 0 <= j < grid.Length1 ==>
                lines[k][j] == grid[grid.Length0 - 1 - k, j].voltage
    {
      lines := [];
      var row := grid.Length0 - 1;
      while row > -1
        invariant -1 <= row < grid.Length0
        invariant |lines| == grid.Length0 - 1 - row
        invariant forall k :: 0 <= k < |lines| ==> |lines[k]| == grid.Length1
        invariant forall k, j :: 0 <= k < |lines| && 0 <= j < grid.Length1 ==>
                    lines[k][j] == grid[grid.Length0 - 1 - k, j].voltage
      {
        var line := [grid[row, 0].voltage];
        var col := 1;
        while col < grid.Length1
          invariant 1 <= col <= grid.Length1
          invariant |line| == col
          invariant forall j :: 0 <= j < col ==> line[j] == grid[row, j].voltage
        {
          line := line + [grid[row, col].voltage];
          col := col + 1;
        }
        lines := lines + [line];
        row := row - 1;
      }
    }
  }
}

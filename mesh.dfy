/** Mesh geometry: the shape of the point grid, the millimetre-to-index
    conversion and the regions that the fixing operations address. */
module Meshes {
  import opened Points

  /** A snapshot of the grid, indexed `[row][col]`; row 0 is the bottom of
      the physical geometry. */
  type Mesh = seq<seq<PotentialPoint>>

  /** At least one row and one column, every row the same length. */
  predicate IsMesh(m: Mesh)
  {
    |m| >= 1 && |m[0]| >= 1 && forall i :: 0 <= i < |m| ==> |m[i]| == |m[0]|
  }

  function Cols(m: Mesh): nat
  {
    if |m| == 0 then 0 else |m[0]|
  }

  predicate SameShape(a: Mesh, b: Mesh)
  {
    IsMesh(a) && IsMesh(b) && |a| == |b| && Cols(a) == Cols(b)
  }

  predicate InMesh(m: Mesh, i: int, j: int)
  {
    0 <= i < |m| && 0 <= j < Cols(m)
  }

  /** The points the relaxation visits: every point off the outer frame. */
  predicate Interior(m: Mesh, i: int, j: int)
  {
    1 <= i < |m| - 1 && 1 <= j < Cols(m) - 1
  }

  /** Number of mesh points along an axis `dimMM` millimetres long at
      `granularity` divisions per millimetre, as the constructor computes it:
      the axis is split into `dimMM * granularity` intervals and both end
      points are on the mesh. */
  function MeshSize(dimMM: int, granularity: int): (n: int)
    ensures n == dimMM * granularity + 1
    ensures dimMM >= 0 && granularity >= 0 ==> n >= 1
  {
    (dimMM + 1) * granularity - granularity + 1
  }

  /** The single unit conversion of the grid: millimetres to mesh index. */
  function ToMesh(mm: int, granularity: int): int
  {
    mm * granularity
  }

  /** A mesh index produced by `ToMesh` is a whole multiple of the
      granularity, and integer division by the granularity gives back the
      millimetre value that was converted. */
  lemma ToMeshRoundTrip(mm: int, granularity: int)
    requires granularity >= 1
    ensures ToMesh(mm, granularity) / granularity == mm
    ensures ToMesh(mm, granularity) % granularity == 0
  {
    DivisionOfMultiple(mm, granularity, 0);
  }

  /** Mesh index `k` lies in the span that `setFixedRectangle` walks for an
      extent of `extentMM` millimetres from `startMM`: `extentMM + 1` whole
      millimetres of mesh, each `granularity` indices long. */
  predicate InSpan(k: int, startMM: int, extentMM: int, granularity: int)
  {
    ToMesh(startMM, granularity) <= k < ToMesh(startMM, granularity) + (extentMM + 1) * granularity
  }

  /** The rectangle's span holds exactly the mesh indices whose whole
      millimetre (`k / granularity`, rounded down) is one of
      `startMM .. startMM + extentMM`. At granularity above 1 this reaches
      `granularity - 1` indices past the mesh index of `startMM + extentMM`. */
  lemma {:induction false} SpanIsWholeMillimetres(k: int, startMM: int, extentMM: int, granularity: int)
    requires granularity >= 1
    ensures InSpan(k, startMM, extentMM, granularity)
            <==> startMM <= k / granularity <= startMM + extentMM
  {
    var q, r := k / granularity, k % granularity;
    assert k == q * granularity + r && 0 <= r < granularity;
    if q >= startMM {
      MulMonotone(startMM, q, granularity);
    } else {
      MulMonotone(q + 1, startMM, granularity);
    }
    if q <= startMM + extentMM {
      MulMonotone(q + 1, startMM + extentMM + 1, granularity);
    } else {
      MulMonotone(startMM + extentMM + 1, q, granularity);
    }
    assert (extentMM + 1) * granularity + startMM * granularity
        == (startMM + extentMM + 1) * granularity;
  }

  lemma MulMonotone(a: int, b: int, g: int)
    requires a <= b && g >= 0
    ensures a * g <= b * g
  {
    assert b * g - a * g == (b - a) * g;
  }

  lemma DivisionOfMultiple(q: int, g: int, r: int)
    requires g >= 1 && 0 <= r < g
    ensures (q * g + r) / g == q && (q * g + r) % g == r
  {
    var k := q * g + r;
    var q', r' := k / g, k % g;
    assert q' * g + r' == q * g + r;
    if q' < q {
      MulMonotone(q' + 1, q, g);
    } else if q' > q {
      MulMonotone(q + 1, q', g);
    }
  }

  /** The cells `setFixedLine` visits, given its start already converted to
      mesh indices `(x0, y0)`: `size` consecutive rows of column `x0` when
      vertical, `size` consecutive columns of row `y0` when horizontal. */
  predicate OnLine(i: int, j: int, size: int, vertical: bool, x0: int, y0: int)
  {
    if vertical then j == x0 && y0 <= i < y0 + size
    else i == y0 && x0 <= j < x0 + size
  }

  /** The caller's obligation for `setFixedLine`: a line that visits any cell
      stays inside a `rows` by `cols` mesh. */
  predicate LineFits(rows: int, cols: int, size: int, vertical: bool, x0: int, y0: int)
  {
    size <= 0 ||
    (if vertical then 0 <= x0 < cols && 0 <= y0 && y0 + size <= rows
     else 0 <= y0 < rows && 0 <= x0 && x0 + size <= cols)
  }

  /** The cells `setFixedRectangle` visits. */
  predicate InRectangle(i: int, j: int, widthMM: int, heightMM: int, startX: int, startY: int, granularity: int)
  {
    InSpan(i, startY, heightMM, granularity) && InSpan(j, startX, widthMM, granularity)
  }

  /** The caller's obligation for `setFixedRectangle`: when both loops run,
      the rectangle stays inside a `rows` by `cols` mesh. */
  predicate RectangleFits(rows: int, cols: int, widthMM: int, heightMM: int, startX: int, startY: int, granularity: int)
  {
    var y0, x0 := ToMesh(startY, granularity), ToMesh(startX, granularity);
    var h, w := (heightMM + 1) * granularity, (widthMM + 1) * granularity;
    h <= 0 || w <= 0 || (0 <= y0 && y0 + h <= rows && 0 <= x0 && x0 + w <= cols)
  }
}

// What the vertex and index buffers of loadHeightMap (hwA/A.6/src/main.cpp) hold:
// vertex (row, col) at number row·width + col with the sample of that pixel, the two
// triangles of each cell at their place in the index buffer, every index naming a
// vertex of the image, and the OBJ records matching both buffers, faces 1-based.
module HeightMapFacts {
  import opened HeightMap

  // ---------------------------------------------------------------------------
  // Positions in the buffers

  lemma {:induction false} RowPointsAt(width: nat, height: nat, raw: seq<Byte>, row: nat, n: nat, col: nat, j: nat)
    requires row < height && col < n <= width && |raw| == width * height && j < 3
    ensures RowPoints(width, height, raw, row, n)[3 * col + j] == Point(width, height, raw, row, col)[j]
    decreases n
  {
    if col < n - 1 {
      RowPointsAt(width, height, raw, row, n - 1, col, j);
    }
  }

  lemma PrefixOfLonger<T>(a: seq<T>, b: seq<T>, rest: seq<T>)
    requires a <= b
    ensures a <= b + rest
  {
    assert (b + rest)[..|a|] == b[..|a|];
  }

  /** The vertices of the first k rows are a prefix of those of the first `rows`. */
  lemma {:induction false} GridPointsPrefix(width: nat, height: nat, raw: seq<Byte>, k: nat, rows: nat)
    requires k <= rows <= height && |raw| == width * height
    ensures GridPoints(width, height, raw, k) <= GridPoints(width, height, raw, rows)
    decreases rows
  {
    if k < rows {
      GridPointsPrefix(width, height, raw, k, rows - 1);
      var b := GridPoints(width, height, raw, rows - 1);
      var last := RowPoints(width, height, raw, rows - 1, width);
      assert GridPoints(width, height, raw, rows) == b + last;
      PrefixOfLonger(GridPoints(width, height, raw, k), b, last);
    }
  }

  /** The last row of the first row + 1 rows holds vertex (row, col) at number
      row·width + col. */
  lemma LastRowAt(width: nat, height: nat, raw: seq<Byte>, row: nat, col: nat, j: nat)
    requires row < height && col < width && |raw| == width * height && j < 3
    ensures 3 * (row * width + col) + j < |GridPoints(width, height, raw, row + 1)|
    ensures GridPoints(width, height, raw, row + 1)[3 * (row * width + col) + j] == Point(width, height, raw, row, col)[j]
  {
    NextRow(row, width);
    assert GridPoints(width, height, raw, row + 1) ==
      GridPoints(width, height, raw, row) + RowPoints(width, height, raw, row, width);
    RowPointsAt(width, height, raw, row, width, col, j);
  }

  /** Vertex (row, col) of the image sits at number row·width + col. */
  lemma GridPointsAt(width: nat, height: nat, raw: seq<Byte>, row: nat, col: nat, j: nat)
    requires row < height && col < width && |raw| == width * height && j < 3
    ensures 3 * (row * width + col) + j < |GridPoints(width, height, raw, height)|
    ensures GridPoints(width, height, raw, height)[3 * (row * width + col) + j] == Point(width, height, raw, row, col)[j]
  {
    LastRowAt(width, height, raw, row, col, j);
    GridPointsPrefix(width, height, raw, row + 1, height);
  }

  lemma NextRow(row: nat, width: nat)
    ensures (row + 1) * width == row * width + width
  {
  }

  lemma {:induction false} RowCellsAt(width: nat, row: nat, n: nat, col: nat, j: nat)
    requires col < n && j < 6
    ensures RowCells(width, row, n)[6 * col + j] == Cell(width, row, col)[j]
    decreases n
  {
    if col < n - 1 {
      RowCellsAt(width, row, n - 1, col, j);
    }
  }

  /** The cells of the first k rows are a prefix of those of the first `rows`. */
  lemma {:induction false} GridCellsPrefix(width: nat, k: nat, rows: nat)
    requires k <= rows
    ensures GridCells(width, k) <= GridCells(width, rows)
    decreases rows
  {
    if k < rows {
      GridCellsPrefix(width, k, rows - 1);
      var b := GridCells(width, rows - 1);
      var last := RowCells(width, rows - 1, Steps(width));
      assert GridCells(width, rows) == b + last;
      PrefixOfLonger(GridCells(width, k), b, last);
    }
  }

  /** The last row of the first row + 1 rows of cells holds cell (row, col). */
  lemma LastCellRowAt(width: nat, row: nat, col: nat, j: nat)
    requires col < Steps(width) && j < 6
    ensures 6 * (row * Steps(width) + col) + j < |GridCells(width, row + 1)|
    ensures GridCells(width, row + 1)[6 * (row * Steps(width) + col) + j] == Cell(width, row, col)[j]
  {
    NextRow(row, Steps(width));
    assert GridCells(width, row + 1) == GridCells(width, row) + RowCells(width, row, Steps(width));
    RowCellsAt(width, row, Steps(width), col, j);
  }

  /** Cell (row, col) sits at cell number row·(width−1) + col. */
  lemma GridCellsAt(width: nat, rows: nat, row: nat, col: nat, j: nat)
    requires row < rows && col < Steps(width) && j < 6
    ensures 6 * (row * Steps(width) + col) + j < |GridCells(width, rows)|
    ensures GridCells(width, rows)[6 * (row * Steps(width) + col) + j] == Cell(width, row, col)[j]
  {
    LastCellRowAt(width, row, col, j);
    GridCellsPrefix(width, row + 1, rows);
  }

  // ---------------------------------------------------------------------------
  // Indices name vertices of the image

  /** The six indices of an inner cell name four distinct vertices of the image. */
  lemma CellInImage(width: nat, height: nat, row: nat, col: nat)
    requires row < Steps(height) && col < Steps(width)
    ensures forall i :: 0 <= i < 6 ==> 0 <= Cell(width, row, col)[i] < width * height
  {
    VertexNumberInImage(width, height, row, col);
    VertexNumberInImage(width, height, row + 1, col + 1);
    assert (row + 1) * width == row * width + width;
  }

  lemma {:induction false} RowCellsInImage(width: nat, height: nat, row: nat, n: nat)
    requires row < Steps(height) && n <= Steps(width)
    ensures forall i :: 0 <= i < |RowCells(width, row, n)| ==> 0 <= RowCells(width, row, n)[i] < width * height
    decreases n
  {
    if n > 0 {
      RowCellsInImage(width, height, row, n - 1);
      CellInImage(width, height, row, n - 1);
    }
  }

  /** Every index the triangle loops push is below width·height, the number of
      vertices. */
  lemma {:induction false} GridCellsInImage(width: nat, height: nat, rows: nat)
    requires rows <= Steps(height)
    ensures forall i :: 0 <= i < |GridCells(width, rows)| ==> 0 <= GridCells(width, rows)[i] < width * height
    decreases rows
  {
    if rows > 0 {
      GridCellsInImage(width, height, rows - 1);
      RowCellsInImage(width, height, rows - 1, Steps(width));
    }
  }

  // ---------------------------------------------------------------------------
  // The two triangles of a cell

  /** The two triangles of a cell share the diagonal from (row, col) to (row+1,
      col+1), walk it in opposite directions (so both face the same way), and
      between them use exactly the cell's four corners, all distinct. */
  lemma CellSplitsAlongDiagonal(width: nat, row: nat, col: nat)
    requires col + 1 < width
    ensures var lower := LowerTriangle(width, row, col);
      var upper := UpperTriangle(width, row, col);
      && lower[2] == upper[0] && lower[0] == upper[2]
      && lower[1] != upper[1]
      && (forall i, k :: 0 <= i < k < 3 ==> lower[i] != lower[k] && upper[i] != upper[k])
      && {lower[0], lower[1], lower[2], upper[1]} ==
         {row * width + col, row * width + col + 1, (row + 1) * width + col, (row + 1) * width + col + 1}
  {
    assert (row + 1) * width == row * width + width;
  }

  // ---------------------------------------------------------------------------
  // The written records

  lemma {:induction false} VRecordsAt(ps: seq<real>, n: nat, k: nat)
    requires |ps| == 3 * n && k < n
    ensures VRecords(ps, n)[k] == VRecord(ps[3 * k], ps[3 * k + 1], ps[3 * k + 2])
    decreases n
  {
    if k < n - 1 {
      VRecordsAt(ps[..3 * n - 3], n - 1, k);
    }
  }

  lemma {:induction false} FRecordsAt(ix: seq<int>, n: nat, k: nat)
    requires |ix| == 3 * n && k < n
    ensures FRecords(ix, n)[k] == FRecord(ix[3 * k] + 1, ix[3 * k + 1] + 1, ix[3 * k + 2] + 1)
    decreases n
  {
    if k < n - 1 {
      FRecordsAt(ix[..3 * n - 3], n - 1, k);
    }
  }

  /** The `v` record of vertex row·width + col holds row / height, the pixel's sample
      over 255, and col / width. */
  lemma VertexRecord(width: nat, height: nat, raw: seq<Byte>, row: nat, col: nat)
    requires row < height && col < width && |raw| == width * height
    ensures var k := row * width + col;
      && k < height * width
      && VRecords(GridPoints(width, height, raw, height), height * width)[k] ==
         VRecord(row as real / height as real, raw[k] as real / MAX_HEIGHT, col as real / width as real)
  {
    var k := row * width + col;
    VertexNumberInImage(width, height, row, col);
    var ps := GridPoints(width, height, raw, height);
    GridPointsAt(width, height, raw, row, col, 0);
    GridPointsAt(width, height, raw, row, col, 1);
    GridPointsAt(width, height, raw, row, col, 2);
    VRecordsAt(ps, height * width, k);
  }

  /** Cell number m takes `f` records 2·m and 2·m + 1, one per triangle. */
  lemma CellFaceRecords(ix: seq<int>, n: nat, m: nat, c: seq<int>)
    requires |ix| == 3 * n && 2 * m + 1 < n && |c| == 6
    requires forall j :: 0 <= j < 6 ==> ix[6 * m + j] == c[j]
    ensures FRecords(ix, n)[2 * m] == FRecord(c[0] + 1, c[1] + 1, c[2] + 1)
    ensures FRecords(ix, n)[2 * m + 1] == FRecord(c[3] + 1, c[4] + 1, c[5] + 1)
  {
    FRecordsAt(ix, n, 2 * m);
    FRecordsAt(ix, n, 2 * m + 1);
    assert 3 * (2 * m) == 6 * m + 0;
    assert 3 * (2 * m + 1) == 6 * m + 3;
  }

  lemma CellNumberInGrid(rows: nat, s: nat, row: nat, col: nat)
    requires row < rows && col < s
    ensures 0 <= row * s + col < rows * s
  {
    MulMono(row + 1, rows, s);
    assert (row + 1) * s == row * s + s;
  }

  /** Cell (row, col) is written as `f` records number 2·(row·(width−1) + col) and
      the one after: its two triangles, each index plus one. */
  lemma CellRecords(width: nat, height: nat, row: nat, col: nat)
    requires row < Steps(height) && col < Steps(width)
    ensures var k := 2 * (row * Steps(width) + col);
      var n := 2 * (Steps(height) * Steps(width));
      var f := FRecords(GridCells(width, Steps(height)), n);
      var a := row * width + col + 1;
      var d := (row + 1) * width + col + 2;
      && k + 1 < n
      && f[k] == FRecord(a, a + 1, d) && f[k + 1] == FRecord(d, d - 1, a)
  {
    var s := Steps(width);
    var ix := GridCells(width, Steps(height));
    var n := 2 * (Steps(height) * s);
    var m := row * s + col;
    var f := FRecords(ix, n);
    var c := Cell(width, row, col);
    CellNumberInGrid(Steps(height), s, row, col);
    assert f[2 * m] == FRecord(c[0] + 1, c[1] + 1, c[2] + 1)
        && f[2 * m + 1] == FRecord(c[3] + 1, c[4] + 1, c[5] + 1) by {
      forall j | 0 <= j < 6
        ensures ix[6 * m + j] == c[j]
      {
        GridCellsAt(width, Steps(height), row, col, j);
      }
      CellFaceRecords(ix, n, m, c);
    }
    var a := row * width + col;
    var d := (row + 1) * width + col + 1;
    assert c == [a, a + 1, d, d, d - 1, a];
  }

  /** Every `f` record names vertices 1 .. width·height: 1-based and never 0. */
  lemma FaceRecordsOneBased(width: nat, height: nat)
    ensures var n := 2 * (Steps(height) * Steps(width));
      var f := FRecords(GridCells(width, Steps(height)), n);
      forall k :: 0 <= k < n ==>
        (f[k].FRecord? && 1 <= f[k].a <= width * height
         && 1 <= f[k].b <= width * height && 1 <= f[k].c <= width * height)
  {
    var ix := GridCells(width, Steps(height));
    var n := 2 * (Steps(height) * Steps(width));
    GridCellsInImage(width, height, Steps(height));
    forall k | 0 <= k < n
      ensures var f := FRecords(ix, n);
        (f[k].FRecord? && 1 <= f[k].a <= width * height
         && 1 <= f[k].b <= width * height && 1 <= f[k].c <= width * height)
    {
      FRecordsAt(ix, n, k);
    }
  }
}

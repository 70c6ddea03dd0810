// The terrain mesh that TerrainEngine::loadHeightMap (hwA/A.6/src/main.cpp) builds from
// a single-channel height map: one vertex per pixel, numbered row by row, and two
// triangles per grid cell, all written out as the records of an OBJ file. Image
// loading and the formatting of the records are not modelled: the image comes in as
// its width, height and bytes, and the file as a sequence of records. Coordinates
// are exact reals, without float rounding.
module HeightMap {

  /** One pixel of the single-channel image. */
  newtype Byte = x: int | 0 <= x < 256

  /** `max_height`: a sample of 255 is height 1. */
  const MAX_HEIGHT: real := 255.0

  /** A line of the written OBJ file: a vertex with its three coordinates, or a face
      with its three 1-based vertex numbers. */
  datatype ObjRecord = VRecord(x: real, y: real, z: real) | FRecord(a: int, b: int, c: int)

  /** The number of steps between `n` grid lines: n - 1, and none for an empty image. */
  function Steps(n: nat): nat
  {
    if n == 0 then 0 else n - 1
  }

  /** Vertex (row, col) of a `width`-wide grid is numbered `row * width + col`, and
      every pixel of the image gets a different number below `width * height`. */
  lemma VertexNumberInImage(width: nat, height: nat, row: nat, col: nat)
    requires row < height && col < width
    ensures 0 <= row * width + col < width * height
  {
    assert (row + 1) * width == row * width + width;
    assert row + 1 <= height;
    MulMono(row + 1, height, width);
  }

  lemma MulMono(x: nat, y: nat, w: nat)
    requires x <= y
    ensures x * w <= y * w
  {
    assert y * w == x * w + (y - x) * w;
  }

  // ---------------------------------------------------------------------------
  // The vertex loop

  /** The coordinates written for grid vertex (row, col): row over height, the sample
      at `row * width + col` over 255, column over width. */
  function Point(width: nat, height: nat, raw: seq<Byte>, row: nat, col: nat): (r: seq<real>)
    requires row < height && col < width && |raw| == width * height
    ensures |r| == 3
  {
    VertexNumberInImage(width, height, row, col);
    [row as real / height as real, raw[row * width + col] as real / MAX_HEIGHT, col as real / width as real]
  }

  /** The coordinates of the first `n` vertices of row `row`. */
  function RowPoints(width: nat, height: nat, raw: seq<Byte>, row: nat, n: nat): (r: seq<real>)
    requires row < height && n <= width && |raw| == width * height
    ensures |r| == 3 * n
  {
    if n == 0 then [] else RowPoints(width, height, raw, row, n - 1) + Point(width, height, raw, row, n - 1)
  }

  /** The coordinates of the vertices of the first `rows` rows. */
  function GridPoints(width: nat, height: nat, raw: seq<Byte>, rows: nat): (r: seq<real>)
    requires rows <= height && |raw| == width * height
    ensures |r| == 3 * (rows * width)
  {
    if rows == 0 then []
    else
      assert rows * width == (rows - 1) * width + width;
      GridPoints(width, height, raw, rows - 1) + RowPoints(width, height, raw, rows - 1, width)
  }

  // ---------------------------------------------------------------------------
  // The triangle loop

  /** The first triangle of cell (row, col): (r·w+c, r·w+c+1, (r+1)·w+c+1). */
  function LowerTriangle(width: nat, row: nat, col: nat): (r: seq<int>)
    ensures |r| == 3
  {
    [row * width + col, row * width + col + 1, (row + 1) * width + col + 1]
  }

  /** The second triangle of cell (row, col): ((r+1)·w+c+1, (r+1)·w+c, r·w+c). */
  function UpperTriangle(width: nat, row: nat, col: nat): (r: seq<int>)
    ensures |r| == 3
  {
    [(row + 1) * width + col + 1, (row + 1) * width + col, row * width + col]
  }

  /** The six indices pushed for cell (row, col). */
  function Cell(width: nat, row: nat, col: nat): (r: seq<int>)
    ensures |r| == 6
  {
    LowerTriangle(width, row, col) + UpperTriangle(width, row, col)
  }

  /** The indices of the first `n` cells of row `row`. */
  function RowCells(width: nat, row: nat, n: nat): (r: seq<int>)
    ensures |r| == 6 * n
  {
    if n == 0 then [] else RowCells(width, row, n - 1) + Cell(width, row, n - 1)
  }

  /** The indices of the cells of the first `rows` rows, `Steps(width)` cells to a row. */
  function GridCells(width: nat, rows: nat): (r: seq<int>)
    ensures |r| == 6 * (rows * Steps(width))
  {
    if rows == 0 then []
    else
      assert rows * Steps(width) == (rows - 1) * Steps(width) + Steps(width);
      GridCells(width, rows - 1) + RowCells(width, rows - 1, Steps(width))
  }

  // ---------------------------------------------------------------------------
  // The written file

  /** One `v` record for each of the `n` coordinate triples of `ps`, in order. */
  function VRecords(ps: seq<real>, n: nat): (r: seq<ObjRecord>)
    requires |ps| == 3 * n
    ensures |r| == n
  {
    if n == 0 then []
    else VRecords(ps[..3 * n - 3], n - 1) + [VRecord(ps[3 * n - 3], ps[3 * n - 2], ps[3 * n - 1])]
  }

  /** One `f` record for each of the `n` index triples of `ix`, in order, each index
      plus one. */
  function FRecords(ix: seq<int>, n: nat): (r: seq<ObjRecord>)
    requires |ix| == 3 * n
    ensures |r| == n
  {
    if n == 0 then []
    else FRecords(ix[..3 * n - 3], n - 1) + [FRecord(ix[3 * n - 3] + 1, ix[3 * n - 2] + 1, ix[3 * n - 1] + 1)]
  }

  // ---------------------------------------------------------------------------
  // loadHeightMap

  /** The file holds one `v` record per coordinate triple pushed, `triCnt` of them. */
  ghost predicate VertexFile(landPos: seq<real>, file: seq<ObjRecord>, triCnt: nat)
  {
    |landPos| == 3 * triCnt && file == VRecords(landPos, triCnt)
  }

  /** After the `v` records `before`, the file holds one `f` record per index triple
      pushed, `triCnt` of them. */
  ghost predicate FaceFile(before: seq<ObjRecord>, landIndices: seq<int>, file: seq<ObjRecord>, triCnt: nat)
  {
    |landIndices| == 3 * triCnt && file == before + FRecords(landIndices, triCnt)
  }

  /** The two loops of loadHeightMap over an image of `width` by `height` bytes: one
      vertex per pixel, row by row, each also written as a `v` record; then for each
      cell two triangles, each written as an `f` record of the triple just pushed. */
  method LoadHeightMap(width: nat, height: nat, raw: seq<Byte>) returns (landPos: seq<real>, landIndices: seq<int>, file: seq<ObjRecord>)
    requires |raw| == width * height
    ensures landPos == GridPoints(width, height, raw, height)
    ensures landIndices == GridCells(width, Steps(height))
    ensures file == VRecords(landPos, height * width) + FRecords(landIndices, 2 * (Steps(height) * Steps(width)))
  {
    landPos, file := EmitVertices(width, height, raw);
    landIndices, file := EmitTriangles(width, height, file);
  }

  /** The vertex loops: row by row, each pixel's coordinates pushed and written as a
      `v` record; `tri_cnt` counts the vertices. */
  method EmitVertices(width: nat, height: nat, raw: seq<Byte>) returns (landPos: seq<real>, file: seq<ObjRecord>)
    requires |raw| == width * height
    ensures landPos == GridPoints(width, height, raw, height)
    ensures file == VRecords(landPos, height * width)
  {
    landPos := [];
    file := [];
    var triCnt: nat := 0;
    var row := 0;
    while row < height
      invariant 0 <= row <= height
      invariant landPos == GridPoints(width, height, raw, row)
      invariant VertexFile(landPos, file, triCnt)
    {
      landPos, file, triCnt := EmitVertexRow(width, height, raw, row, landPos, file, triCnt);
      row := row + 1;
    }
    ghost var n := height * width;
    assert |landPos| == 3 * n == 3 * triCnt;
  }

  /** The triangle loops, after `tri_cnt` is reset: cell by cell, two triangles
      pushed and each written as an `f` record after the records already written. */
  method EmitTriangles(width: nat, height: nat, vertexRecords: seq<ObjRecord>) returns (landIndices: seq<int>, file: seq<ObjRecord>)
    ensures landIndices == GridCells(width, Steps(height))
    ensures file == vertexRecords + FRecords(landIndices, 2 * (Steps(height) * Steps(width)))
  {
    file := vertexRecords;
    var triCnt: nat := 0;
    landIndices := [];
    var row := 0;
    while row < height - 1
      invariant 0 <= row <= Steps(height)
      invariant landIndices == GridCells(width, row)
      invariant FaceFile(vertexRecords, landIndices, file, triCnt)
    {
      landIndices, file, triCnt := EmitCellRow(width, row, landIndices, file, triCnt, vertexRecords);
      row := row + 1;
    }
    assert row == Steps(height);
    ghost var cells := Steps(height) * Steps(width);
    assert |landIndices| == 6 * cells == 3 * triCnt;
  }

  /** The inner vertex loop for row `row`: each pixel's coordinates pushed, then
      written as a `v` record read back at `3 * triCnt`, the counter stepped. */
  method EmitVertexRow(width: nat, height: nat, raw: seq<Byte>, row: nat, landPos0: seq<real>, file0: seq<ObjRecord>, triCnt0: nat)
    returns (landPos: seq<real>, file: seq<ObjRecord>, triCnt: nat)
    requires row < height && |raw| == width * height
    requires VertexFile(landPos0, file0, triCnt0)
    ensures landPos == landPos0 + RowPoints(width, height, raw, row, width)
    ensures VertexFile(landPos, file, triCnt)
  {
    landPos, file, triCnt := landPos0, file0, triCnt0;
    var col := 0;
    while col < width
      invariant 0 <= col <= width
      invariant landPos == landPos0 + RowPoints(width, height, raw, row, col)
      invariant VertexFile(landPos, file, triCnt)
    {
      landPos, file, triCnt := EmitVertex(width, height, raw, row, col, landPos, file, triCnt);
      col := col + 1;
    }
  }

  /** The body of the inner vertex loop: pixel (row, col)'s coordinates pushed and
      written, with `max_x` and `max_y` the width and height as reals. */
  method EmitVertex(width: nat, height: nat, raw: seq<Byte>, row: nat, col: nat, landPos0: seq<real>, file0: seq<ObjRecord>, triCnt0: nat)
    returns (landPos: seq<real>, file: seq<ObjRecord>, triCnt: nat)
    requires row < height && col < width && |raw| == width * height
    requires VertexFile(landPos0, file0, triCnt0)
    ensures landPos == landPos0 + Point(width, height, raw, row, col)
    ensures VertexFile(landPos, file, triCnt)
  {
    var maxX := width as real;
    var maxY := height as real;
    VertexNumberInImage(width, height, row, col);
    landPos, file, triCnt := PushVertex(landPos0, file0, triCnt0,
      row as real / maxY, raw[row * width + col] as real / MAX_HEIGHT, col as real / maxX);
  }

  /** Three coordinates pushed, then written as a `v` record of the values read back
      at `3 * triCnt`, and the counter stepped. */
  method PushVertex(landPos0: seq<real>, file0: seq<ObjRecord>, triCnt0: nat, x: real, y: real, z: real)
    returns (landPos: seq<real>, file: seq<ObjRecord>, triCnt: nat)
    requires VertexFile(landPos0, file0, triCnt0)
    ensures landPos == landPos0 + [x, y, z] && triCnt == triCnt0 + 1
    ensures file == VRecords(landPos, triCnt) && file == file0 + [VRecord(x, y, z)]
  {
    landPos := landPos0 + [x, y, z];
    file := file0 + [VRecord(landPos[3 * triCnt0], landPos[3 * triCnt0 + 1], landPos[3 * triCnt0 + 2])];
    triCnt := triCnt0 + 1;
    assert landPos[..3 * triCnt - 3] == landPos0;
  }

  /** The inner triangle loop for row `row`: each cell's two triangles pushed and
      written. */
  method EmitCellRow(width: nat, row: nat, landIndices0: seq<int>, file0: seq<ObjRecord>, triCnt0: nat, ghost before: seq<ObjRecord>)
    returns (landIndices: seq<int>, file: seq<ObjRecord>, triCnt: nat)
    requires FaceFile(before, landIndices0, file0, triCnt0)
    ensures landIndices == landIndices0 + RowCells(width, row, Steps(width))
    ensures FaceFile(before, landIndices, file, triCnt)
  {
    landIndices, file, triCnt := landIndices0, file0, triCnt0;
    var col := 0;
    while col < width - 1
      invariant 0 <= col <= Steps(width)
      invariant landIndices == landIndices0 + RowCells(width, row, col)
      invariant FaceFile(before, landIndices, file, triCnt)
    {
      landIndices, file, triCnt := EmitCell(width, row, col, landIndices, file, triCnt, before);
      col := col + 1;
    }
  }

  /** The body of the inner triangle loop: cell (row, col)'s two triangles, each
      pushed and written. */
  method EmitCell(width: nat, row: nat, col: nat, landIndices0: seq<int>, file0: seq<ObjRecord>, triCnt0: nat, ghost before: seq<ObjRecord>)
    returns (landIndices: seq<int>, file: seq<ObjRecord>, triCnt: nat)
    requires FaceFile(before, landIndices0, file0, triCnt0)
    ensures landIndices == landIndices0 + Cell(width, row, col)
    ensures FaceFile(before, landIndices, file, triCnt)
  {
    landIndices, file, triCnt := PushTriangle(landIndices0, file0, triCnt0,
      [row * width + col, row * width + col + 1, (row + 1) * width + col + 1], before);
    landIndices, file, triCnt := PushTriangle(landIndices, file, triCnt,
      [(row + 1) * width + col + 1, (row + 1) * width + col, row * width + col], before);
    assert landIndices == landIndices0 + LowerTriangle(width, row, col) + UpperTriangle(width, row, col);
  }

  /** The three indices of `t` pushed, then written as an `f` record of the values
      read back at `3 * triCnt`, each plus one, and the counter stepped. */
  method PushTriangle(landIndices0: seq<int>, file0: seq<ObjRecord>, triCnt0: nat, t: seq<int>, ghost before: seq<ObjRecord>)
    returns (landIndices: seq<int>, file: seq<ObjRecord>, triCnt: nat)
    requires |t| == 3 && FaceFile(before, landIndices0, file0, triCnt0)
    ensures landIndices == landIndices0 + t && triCnt == triCnt0 + 1
    ensures file == before + FRecords(landIndices, triCnt) && file == file0 + [FRecord(t[0] + 1, t[1] + 1, t[2] + 1)]
  {
    landIndices := landIndices0 + t;
    file := file0 + [FRecord(landIndices[3 * triCnt0] + 1, landIndices[3 * triCnt0 + 1] + 1, landIndices[3 * triCnt0 + 2] + 1)];
    triCnt := triCnt0 + 1;
    assert landIndices[..3 * triCnt - 3] == landIndices0;
  }
}

/** The integer set-up of the all-pairs shortest path benchmark,
    src/caf/savina/savina_25_apsp.cpp: tabulating a matrix, generating
    the random weighted graph and cutting out one worker's block. The
    random engine is passed in as the stream of values it yields. */
module Apsp {
  import opened Arithmetic

  /** A matrix of `rows` rows, each `columns` long. */
  ghost predicate IsMatrix(m: seq<seq<int>>, rows: nat, columns: nat)
  {
    |m| == rows && forall i :: 0 <= i < rows ==> |m[i]| == columns
  }

  /** `array_tabulate`: y rows of x copies of the initial value. */
  method ArrayTabulate(ySize: nat, xSize: nat, initValue: int) returns (result: seq<seq<int>>)
    ensures IsMatrix(result, ySize, xSize)
    ensures forall i, j :: 0 <= i < ySize && 0 <= j < xSize ==> result[i][j] == initValue
  {
    result := [];
    var y := 0;
    while y < ySize
      invariant 0 <= y <= ySize && IsMatrix(result, y, xSize)
      invariant forall i, j :: 0 <= i < y && 0 <= j < xSize ==> result[i][j] == initValue
    {
      result := result + [seq(xSize, _ => initValue)];
      y := y + 1;
    }
  }

  /** How many edges of an n-node graph are drawn before row i. */
  function RowStart(n: nat, i: nat): (r: nat)
    requires i <= n
  {
    if i == 0 then 0 else RowStart(n, i - 1) + (n - i)
  }

  /** The position, in the engine's stream, of the draw for edge (i, j). */
  function Slot(n: nat, i: nat, j: nat): (r: nat)
    requires i < j <= n
  {
    RowStart(n, i) + (j - i - 1)
  }

  /** Different edges are drawn at different positions of the stream. */
  lemma {:induction false} SlotsDistinct(n: nat, i: nat, j: nat, i': nat, j': nat)
    requires i < j < n && i' < j' < n && (i, j) != (i', j')
    ensures Slot(n, i, j) != Slot(n, i', j')
  {
    if i < i' {
      RowStartGrows(n, i + 1, i');
    } else if i' < i {
      RowStartGrows(n, i' + 1, i);
    }
  }

  lemma {:induction false} RowStartGrows(n: nat, i: nat, k: nat)
    requires 0 < i <= k <= n
    ensures RowStart(n, k) >= RowStart(n, i - 1) + (n - i)
    decreases k - i
  {
    if k > i {
      RowStartGrows(n, i, k - 1);
    }
  }

  /** The edge weight made of an engine value: `next_int(random, w) + 1`. */
  function Weight(draw: nat, w: nat): (r: int)
    requires w > 0
    ensures 1 <= r <= w
  {
    draw % w + 1
  }

  /** A symmetric graph with a zero diagonal and weights in [1, w]
      elsewhere. */
  ghost predicate IsGraph(g: seq<seq<int>>, n: nat, w: nat)
  {
    && IsMatrix(g, n, n)
    && (forall i :: 0 <= i < n ==> g[i][i] == 0)
    && (forall i, j :: 0 <= i < n && 0 <= j < n ==> g[i][j] == g[j][i])
    && (forall i, j :: 0 <= i < n && 0 <= j < n && i != j ==> 1 <= g[i][j] <= w)
  }

  class ApspUtils {
    var graphData: seq<seq<int>>

    constructor ()
      ensures graphData == []
    {
      graphData := [];
    }

    /** `generate_graph`: every pair i < j, visited row by row, gets the
        next engine value turned into a weight, in both directions. */
    method GenerateGraph(n: nat, w: nat, engine: nat -> nat)
      requires w > 0
      modifies this
      ensures IsGraph(graphData, n, w)
      ensures forall i, j :: 0 <= i < j < n ==> graphData[i][j] == Weight(engine(Slot(n, i, j)), w)
    {
      var localData := ArrayTabulate(n, n, 0);
      var i := 0;
      while i < n
        invariant 0 <= i <= n && IsMatrix(localData, n, n)
        invariant Filled(localData, n, w, engine, i)
      {
        localData := FillRow(localData, n, w, engine, i);
        i := i + 1;
      }
      graphData := localData;
      forall a, b | 0 <= a < n && 0 <= b < n && a != b
        ensures 1 <= graphData[a][b] <= w
      {
        if a < b {
          assert graphData[a][b] == Weight(engine(Slot(n, a, b)), w);
        } else {
          assert graphData[b][a] == Weight(engine(Slot(n, b, a)), w);
        }
      }
    }
  }

  /** The graph after its first `rows` rows have been drawn: the entries of
      those rows above the diagonal and their mirror images hold their
      weights, every other entry is still zero. */
  ghost predicate Filled(g: seq<seq<int>>, n: nat, w: nat, engine: nat -> nat, rows: nat)
    requires IsMatrix(g, n, n) && w > 0
  {
    forall a, b :: 0 <= a < n && 0 <= b < n ==>
      g[a][b] == if a < b && a < rows then Weight(engine(Slot(n, a, b)), w)
                 else if b < a && b < rows then Weight(engine(Slot(n, b, a)), w)
                 else 0
  }

  /** The inner loop of `generate_graph` for row i. */
  method FillRow(g: seq<seq<int>>, n: nat, w: nat, engine: nat -> nat, i: nat) returns (r: seq<seq<int>>)
    requires i < n && w > 0 && IsMatrix(g, n, n) && Filled(g, n, w, engine, i)
    ensures IsMatrix(r, n, n) && Filled(r, n, w, engine, i + 1)
  {
    r := g;
    var j := i + 1;
    while j < n
      invariant i + 1 <= j <= n && IsMatrix(r, n, n)
      invariant forall a, b :: 0 <= a < n && 0 <= b < n ==>
        r[a][b] == if a < b && (a < i || (a == i && b < j)) then Weight(engine(Slot(n, a, b)), w)
                   else if b < a && (b < i || (b == i && a < j)) then Weight(engine(Slot(n, b, a)), w)
                   else 0
    {
      var weight := Weight(engine(Slot(n, i, j)), w);
      r := r[i := r[i][j := weight]];
      r := r[j := r[j][i := weight]];
      j := j + 1;
    }
  }

  /** The first row and the first column of the block of worker id: the
      blocks are numbered row by row, n / b of them per row. */
  function BlockRow(n: int, b: int, id: int): int
    requires 0 < b <= n
  {
    (id / (n / b)) * b
  }

  function BlockColumn(n: int, b: int, id: int): int
    requires 0 < b <= n
  {
    (id % (n / b)) * b
  }

  /** The arguments under which `get_block` reads only inside the source
      matrix. */
  ghost predicate BlockInBounds(src: seq<seq<int>>, n: int, b: int, id: int)
  {
    && 0 < b <= n && 0 <= id
    && 0 <= BlockRow(n, b, id) && BlockRow(n, b, id) + b <= |src|
    && 0 <= BlockColumn(n, b, id)
    && forall r :: 0 <= r < |src| ==> BlockColumn(n, b, id) + b <= |src[r]|
  }

  /** `get_block`: the b x b block of worker id. */
  method GetBlock(src: seq<seq<int>>, n: int, b: int, id: int) returns (local: seq<seq<int>>)
    requires BlockInBounds(src, n, b, id)
    ensures IsMatrix(local, b, b)
    ensures forall i, j :: 0 <= i < b && 0 <= j < b ==>
      local[i][j] == src[BlockRow(n, b, id) + i][BlockColumn(n, b, id) + j]
  {
    local := ArrayTabulate(b, b, 0);
    var numBlocksPerDim := n / b;
    var globalStartRow := (id / numBlocksPerDim) * b;
    var globalStartCol := (id % numBlocksPerDim) * b;
    assert globalStartRow == BlockRow(n, b, id) && globalStartCol == BlockColumn(n, b, id);
    var i := 0;
    while i < b
      invariant 0 <= i <= b && IsMatrix(local, b, b)
      invariant forall p, q :: 0 <= p < i && 0 <= q < b ==>
        local[p][q] == src[globalStartRow + p][globalStartCol + q]
    {
      local := CopyBlockRow(local, src, b, i, globalStartRow, globalStartCol);
      i := i + 1;
    }
  }

  /** The inner loop of `get_block` for row i of the block. */
  method CopyBlockRow(local: seq<seq<int>>, src: seq<seq<int>>, b: nat, i: nat, row: nat, column: nat)
    returns (r: seq<seq<int>>)
    requires i < b && IsMatrix(local, b, b) && row + b <= |src|
    requires forall k :: 0 <= k < |src| ==> column + b <= |src[k]|
    ensures IsMatrix(r, b, b)
    ensures forall q :: 0 <= q < b ==> r[i][q] == src[row + i][column + q]
    ensures forall p :: 0 <= p < b && p != i ==> r[p] == local[p]
  {
    r := local;
    var j := 0;
    while j < b
      invariant 0 <= j <= b && IsMatrix(r, b, b)
      invariant forall q :: 0 <= q < j ==> r[i][q] == src[row + i][column + q]
      invariant forall p :: 0 <= p < b && p != i ==> r[p] == local[p]
    {
      r := r[i := r[i][j := src[i + row][j + column]]];
      j := j + 1;
    }
  }

  /** A non-negative number below k * b has a quotient by b below k. */
  lemma QuotientBelow(x: int, b: int, k: int)
    requires b > 0 && 0 <= x < k * b
    ensures x / b < k
  {
    if x / b >= k {
      MulMonotone(k, x / b, b);
    }
  }

  /** When b divides n, the blocks of the (n / b)^2 workers of an n x n
      matrix are in bounds. */
  lemma BlocksInBounds(src: seq<seq<int>>, n: int, b: int, id: int)
    requires 0 < b <= n && n % b == 0 && IsMatrix(src, n, n)
    requires 0 <= id < (n / b) * (n / b)
    ensures BlockInBounds(src, n, b, id)
  {
    var k := n / b;
    DivModUnique(n, b, k, 0);
    QuotientBelow(id, k, k);
    MulMonotone(id / k + 1, k, b);
    MulMonotone(id % k + 1, k, b);
  }

  /** Numbering the cells of a (k b) x (k b) grid by their b x b tile, row
      of tiles by row of tiles, gives each tile a number below k^2 whose
      quotient and remainder by k are the tile's row and column. */
  lemma TileNumber(k: int, b: int, r: int, c: int)
    requires k > 0 && b > 0 && 0 <= r < k * b && 0 <= c < k * b
    ensures var id := (r / b) * k + c / b;
      && 0 <= id < k * k && id / k == r / b && id % k == c / b
  {
    QuotientBelow(r, b, k);
    QuotientBelow(c, b, k);
    var id := (r / b) * k + c / b;
    DivModUnique(id, k, r / b, c / b);
    MulMonotone(r / b + 1, k, k);
    assert (r / b + 1) * k == (r / b) * k + k;
  }

  /** The blocks tile the matrix: cell (r, c) of an n x n matrix, b dividing
      n, is cell (r % b, c % b) of the block of worker
      (r / b) * (n / b) + c / b. */
  lemma BlockHoldsCell(n: int, b: int, r: int, c: int)
    requires 0 < b <= n && n % b == 0
    requires 0 <= r < n && 0 <= c < n
    ensures var id := (r / b) * (n / b) + c / b;
      && 0 <= id < (n / b) * (n / b)
      && BlockRow(n, b, id) + r % b == r
      && BlockColumn(n, b, id) + c % b == c
  {
    var k := n / b;
    assert n == k * b;
    assert k > 0 by {
      DivModUnique(n, b, k, 0);
    }
    TileNumber(k, b, r, c);
  }
}

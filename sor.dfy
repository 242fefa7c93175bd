/** The integer part of the successive over-relaxation actor of
    src/caf/savina/savina_26_sor.cpp: grid positions, neighbour lists, the
    buffering of values that arrive before the start message, and the
    iteration counters. The relaxation arithmetic itself is not modelled:
    value messages carry their payload through unchanged and the values an
    actor sends to its neighbours are left abstract. */
module Sor {
  import opened Arithmetic

  /** `cal_pos`: the row-major position of cell (x, y) in a grid ny wide. */
  function CalPos(x: int, y: int, ny: int): int
  {
    x * ny + y
  }

  /** The actor's constructor splits its position into row and column. */
  function Split(pos: nat, ny: int): (r: (int, int))
    requires ny > 0
  {
    (pos / ny, pos % ny)
  }

  /** Splitting and `cal_pos` are inverse. */
  lemma CalPosSplit(pos: nat, ny: int)
    requires ny > 0
    ensures 0 <= Split(pos, ny).0 && 0 <= Split(pos, ny).1 < ny
    ensures CalPos(Split(pos, ny).0, Split(pos, ny).1, ny) == pos
  {}

  lemma SplitCalPos(x: int, y: int, ny: int)
    requires ny > 0 && 0 <= x && 0 <= y < ny
    ensures CalPos(x, y, ny) >= 0
    ensures Split(CalPos(x, y, ny), ny) == (x, y)
  {
    MulMonotone(0, x, ny);
    DivModUnique(CalPos(x, y, ny), ny, x, y);
  }

  /** A cell inside an nx-by-ny grid lies below nx * ny. */
  lemma CalPosInGrid(x: int, y: int, nx: int, ny: int)
    requires ny > 0 && 0 <= x < nx && 0 <= y < ny
    ensures 0 <= CalPos(x, y, ny) < nx * ny
  {
    MulMonotone(0, x, ny);
    MulMonotone(x, nx - 1, ny);
    assert (nx - 1) * ny == nx * ny - ny;
  }

  /** `neighbors_tmp_fun`; the empty list of the last branch is only reached
      from outside the grid. */
  function Neighbors(x: int, y: int, nx: int, ny: int): (r: seq<int>)
    ensures 0 <= x < nx && 0 <= y < ny ==> |r| > 0
    ensures 0 < x < nx - 1 && 0 < y < ny - 1 ==> |r| == 4
    ensures (x == 0 || x == nx - 1) && (y == 0 || y == ny - 1) ==> |r| == 2
    ensures (0 <= x < nx && 0 <= y < ny && !(0 < x < nx - 1 && 0 < y < ny - 1) &&
             !((x == 0 || x == nx - 1) && (y == 0 || y == ny - 1))) ==> |r| == 3
  {
    if x > 0 && x < nx - 1 && y > 0 && y < ny - 1 then
      [CalPos(x, y + 1, ny), CalPos(x + 1, y, ny), CalPos(x, y - 1, ny), CalPos(x - 1, y, ny)]
    else if (x == 0 || x == nx - 1) && (y == 0 || y == ny - 1) then
      [ if x == 0 then CalPos(x + 1, y, ny) else CalPos(x - 1, y, ny),
        if y == 0 then CalPos(x, y + 1, ny) else CalPos(x, y - 1, ny) ]
    else if (x == 0 || x == nx - 1) || (y == 0 || y == ny - 1) then
      if x == 0 || x == nx - 1 then
        [ if x == 0 then CalPos(x + 1, y, ny) else CalPos(x - 1, y, ny),
          CalPos(x, y + 1, ny), CalPos(x, y - 1, ny) ]
      else
        [ if y == 0 then CalPos(x, y + 1, ny) else CalPos(x, y - 1, ny),
          CalPos(x + 1, y, ny), CalPos(x - 1, y, ny) ]
    else
      []
  }

  ghost predicate Adjacent(x: int, y: int, x': int, y': int)
  {
    (x' == x && (y' == y + 1 || y' == y - 1)) || (y' == y && (x' == x + 1 || x' == x - 1))
  }

  ghost predicate InGrid(x: int, y: int, nx: int, ny: int)
  {
    0 <= x < nx && 0 <= y < ny
  }

  /** An in-grid cell's position lies in the grid and splits back into it. */
  lemma CellFacts(x: int, y: int, nx: int, ny: int)
    requires ny > 0 && InGrid(x, y, nx, ny)
    ensures 0 <= CalPos(x, y, ny) < nx * ny
    ensures CalPos(x, y, ny) / ny == x && CalPos(x, y, ny) % ny == y
  {
    CalPosInGrid(x, y, nx, ny);
    SplitCalPos(x, y, ny);
  }

  /** The position of (x, y) is in the grid and splits back into (x, y). */
  ghost predicate PositionOk(x: int, y: int, nx: int, ny: int)
    requires ny > 0
  {
    0 <= CalPos(x, y, ny) < nx * ny && CalPos(x, y, ny) / ny == x && CalPos(x, y, ny) % ny == y
  }

  lemma AdjacentCellFacts(x: int, y: int, nx: int, ny: int)
    requires ny > 0
    ensures InGrid(x, y + 1, nx, ny) ==> PositionOk(x, y + 1, nx, ny)
    ensures InGrid(x, y - 1, nx, ny) ==> PositionOk(x, y - 1, nx, ny)
    ensures InGrid(x + 1, y, nx, ny) ==> PositionOk(x + 1, y, nx, ny)
    ensures InGrid(x - 1, y, nx, ny) ==> PositionOk(x - 1, y, nx, ny)
  {
    if InGrid(x, y + 1, nx, ny) { CellFacts(x, y + 1, nx, ny); }
    if InGrid(x, y - 1, nx, ny) { CellFacts(x, y - 1, nx, ny); }
    if InGrid(x + 1, y, nx, ny) { CellFacts(x + 1, y, nx, ny); }
    if InGrid(x - 1, y, nx, ny) { CellFacts(x - 1, y, nx, ny); }
  }

  /** On a grid at least two cells each way, every neighbour of an in-grid
      cell is an in-grid cell next to it. */
  lemma {:induction false} NeighborsAreAdjacent(x: int, y: int, nx: int, ny: int)
    requires 2 <= nx && 2 <= ny && InGrid(x, y, nx, ny)
    ensures forall p :: p in Neighbors(x, y, nx, ny) ==>
      && 0 <= p < nx * ny
      && InGrid(p / ny, p % ny, nx, ny)
      && Adjacent(x, y, p / ny, p % ny)
  {
    AdjacentCellFacts(x, y, nx, ny);
  }

  /** ... and every in-grid cell next to it is in the list. */
  lemma {:induction false} AdjacentAreNeighbors(x: int, y: int, nx: int, ny: int)
    requires 2 <= nx && 2 <= ny && InGrid(x, y, nx, ny)
    ensures forall x', y' :: InGrid(x', y', nx, ny) && Adjacent(x, y, x', y') ==>
      CalPos(x', y', ny) in Neighbors(x, y, nx, ny)
  {
    var ns := Neighbors(x, y, nx, ny);
    forall x', y' | InGrid(x', y', nx, ny) && Adjacent(x, y, x', y')
      ensures CalPos(x', y', ny) in ns
    {
      if x' == x + 1 {
        assert x < nx - 1;
      } else if x' == x - 1 {
        assert 0 < x;
      } else if y' == y + 1 {
        assert y < ny - 1;
      } else {
        assert 0 < y;
      }
    }
  }

  /** ... and no neighbour is listed twice. */
  lemma {:induction false} NeighborsDistinct(x: int, y: int, nx: int, ny: int)
    requires 2 <= nx && 2 <= ny && InGrid(x, y, nx, ny)
    ensures forall i, j :: 0 <= i < j < |Neighbors(x, y, nx, ny)| ==>
      Neighbors(x, y, nx, ny)[i] != Neighbors(x, y, nx, ny)[j]
  {
    var ns := Neighbors(x, y, nx, ny);
    NeighborsAreAdjacent(x, y, nx, ny);
    forall i, j | 0 <= i < j < |ns| ensures ns[i] != ns[j] {
      assert ns[i] in ns && ns[j] in ns;
    }
  }

  // ---------------------------------------------------------------------------
  // The grid actor
  // ---------------------------------------------------------------------------

  datatype SorSend =
    | ValueTo(neighbor: int)
    | ValueToSelf(v: real)
    | ResultToSource(x: int, y: int, msgRcv: int)

  /** One value message to each neighbour, in list order. */
  function Broadcast(neighbors: seq<int>): (r: seq<SorSend>)
    ensures |r| == |neighbors|
    ensures forall k :: 0 <= k < |r| ==> r[k] == ValueTo(neighbors[k])
  {
    seq(|neighbors|, k requires 0 <= k < |neighbors| => ValueTo(neighbors[k]))
  }

  /** The buffered values sent back to the actor itself, in arrival order. */
  function Replay(pending: seq<real>): (r: seq<SorSend>)
    ensures |r| == |pending|
    ensures forall k :: 0 <= k < |r| ==> r[k] == ValueToSelf(pending[k])
  {
    seq(|pending|, k requires 0 <= k < |pending| => ValueToSelf(pending[k]))
  }

  class SorActor {
    const x: int
    const y: int
    const color: int
    const neighbors: seq<int>
    var iter: int
    var maxIter: int
    var msgRcv: int
    var receivedVals: nat
    var expectingStart: bool
    var pendingMessages: seq<real>
    var quit: bool

    /** Between relaxations an actor has heard from fewer than all of its
        neighbours; before the start message nothing has been counted. */
    ghost predicate Valid()
      reads this
    {
      && (|neighbors| > 0 ==> receivedVals < |neighbors|)
      && (expectingStart ==> iter == 0 && msgRcv == 0 && receivedVals == 0 && !quit)
      && (!expectingStart ==> pendingMessages == [])
    }

    constructor (pos: nat, color: int, nx: int, ny: int)
      requires ny > 0
      ensures Valid()
      ensures (x, y) == Split(pos, ny) && this.color == color
      ensures neighbors == Neighbors(x, y, nx, ny)
      ensures iter == 0 && maxIter == 0 && msgRcv == 0 && receivedVals == 0
      ensures expectingStart && pendingMessages == [] && !quit
    {
      x := pos / ny;
      y := pos % ny;
      this.color := color;
      neighbors := Neighbors(pos / ny, pos % ny, nx, ny);
      iter := 0;
      maxIter := 0;
      msgRcv := 0;
      receivedVals := 0;
      expectingStart := true;
      pendingMessages := [];
      quit := false;
    }

    /** `sor_start_msg`: record the iteration bound; colour 1 opens the first
        round; every buffered value is sent back to the actor itself and the
        buffer is emptied. */
    method OnStart(mi: int) returns (sends: seq<SorSend>)
      requires Valid() && !quit
      modifies this
      ensures Valid() && !expectingStart && pendingMessages == [] && !quit
      ensures maxIter == mi && receivedVals == old(receivedVals)
      ensures color == 1 ==>
        && iter == old(iter) + 1 && msgRcv == old(msgRcv) + 1
        && sends == Broadcast(neighbors) + Replay(old(pendingMessages))
      ensures color != 1 ==>
        && iter == old(iter) && msgRcv == old(msgRcv)
        && sends == Replay(old(pendingMessages))
    {
      expectingStart := false;
      maxIter := mi;
      sends := [];
      if color == 1 {
        sends := Broadcast(neighbors);
        iter := iter + 1;
        msgRcv := msgRcv + 1;
      }
      sends := sends + Replay(pendingMessages);
      pendingMessages := [];
    }

    /** `sor_value_msg`: buffered before the start message; afterwards, while
        iterations remain, counted until every neighbour has been heard from,
        which closes the round; reaching the bound reports to the source and
        quits. */
    method OnValue(v: real) returns (sends: seq<SorSend>)
      requires Valid() && !quit
      modifies this
      ensures Valid()
      ensures old(expectingStart) ==>
        && pendingMessages == old(pendingMessages) + [v] && sends == []
        && expectingStart && iter == old(iter) && msgRcv == old(msgRcv)
        && receivedVals == old(receivedVals) && !quit
      ensures !old(expectingStart) ==>
        && !expectingStart && pendingMessages == [] && msgRcv == old(msgRcv) + 1
      ensures !old(expectingStart) && old(iter) >= maxIter ==>
        && iter == old(iter) && receivedVals == old(receivedVals) && sends == [] && !quit
      ensures !old(expectingStart) && old(iter) < maxIter ==>
        var closes := old(receivedVals) + 1 == |neighbors|;
        && receivedVals == (if closes then 0 else old(receivedVals) + 1)
        && iter == (if closes then old(iter) + 1 else old(iter))
        && iter <= maxIter
        && quit == (iter == maxIter)
        && sends == (if closes then Broadcast(neighbors) else [])
                  + (if iter == maxIter then [ResultToSource(x, y, msgRcv)] else [])
      ensures maxIter == old(maxIter)
    {
      sends := [];
      if expectingStart {
        pendingMessages := pendingMessages + [v];
      } else {
        msgRcv := msgRcv + 1;
        if iter < maxIter {
          receivedVals := receivedVals + 1;
          if receivedVals == |neighbors| {
            receivedVals := 0;
            sends := Broadcast(neighbors);
            iter := iter + 1;
          }
          if iter == maxIter {
            sends := sends + [ResultToSource(x, y, msgRcv)];
            quit := true;
          }
        }
      }
    }
  }
}

/** getMinePositions, positionMatch and createBoard of script.js. The
    source draws each candidate position with Math.random; here the
    candidates are a sequence supplied by the caller, consumed in order. */
module Mines {
  import opened Tiles

  /** createBoard builds this many rows whatever the board size. */
  const BoardRows := 10

  /** positionMatch: two positions match when both coordinates agree. */
  function PositionMatch(a: Pos, b: Pos): (r: bool)
    ensures r <==> a == b
  {
    a.x == b.x && a.y == b.y
  }

  /** `positions.some(positionMatch.bind(null, p))`. */
  function AnyMatch(ps: seq<Pos>, p: Pos): (r: bool)
    ensures r <==> p in ps
  {
    if ps == [] then false
    else PositionMatch(p, ps[0]) || AnyMatch(ps[1..], p)
  }

  /** The rejection loop of getMinePositions, from the positions chosen so
      far: stop once `n` are chosen; otherwise draw the next candidate and
      keep it unless it matches one already chosen. When the candidates run
      out first the source would keep drawing; here the loop stops. */
  function Place(cands: seq<Pos>, n: int, acc: seq<Pos>): (r: seq<Pos>)
    ensures acc <= r
    ensures forall p | p in r :: p in acc || p in cands
    ensures |r| <= if |acc| > n then |acc| else n
    decreases |cands|
  {
    if |acc| >= n || cands == [] then acc
    else
      assert forall p | p in cands[1..] :: p in cands;
      Place(cands[1..], n, if AnyMatch(acc, cands[0]) then acc else acc + [cands[0]])
  }

  /** What getMinePositions returns for the candidate stream `cands`: only
      drawn positions, never more than asked for. */
  function MinePositions(cands: seq<Pos>, n: int): (r: seq<Pos>)
    ensures forall p | p in r :: p in cands
    ensures |r| <= if n < 0 then 0 else n
  {
    Place(cands, n, [])
  }

  /** getMinePositions as the source writes it: a while loop that pushes
      each candidate not already chosen until `numberOfMines` are chosen. */
  method GetMinePositions(numberOfMines: int, candidates: seq<Pos>) returns (positions: seq<Pos>)
    ensures positions == MinePositions(candidates, numberOfMines)
    ensures Distinct(positions)
  {
    positions := [];
    var i := 0;
    while |positions| < numberOfMines && i < |candidates|
      invariant 0 <= i <= |candidates|
      invariant Distinct(positions)
      invariant Place(candidates[i..], numberOfMines, positions) == MinePositions(candidates, numberOfMines)
    {
      var position := candidates[i];
      assert candidates[i..][1..] == candidates[i + 1..];
      if !AnyMatch(positions, position) {
        positions := positions + [position];
      }
      i := i + 1;
    }
  }

  /** The loop invariant of the rejection sampling, for any start. */
  lemma {:induction false} PlaceFacts(cands: seq<Pos>, n: int, acc: seq<Pos>)
    requires Distinct(acc)
    ensures var r := Place(cands, n, acc);
      Distinct(r) && acc <= r &&
      (forall p | p in r :: p in acc || p in cands) &&
      |r| <= (if |acc| > n then |acc| else n) &&
      (|r| < n ==> forall p | p in cands :: p in r)
    decreases |cands|
  {
    if |acc| < n && cands != [] {
      var next := if AnyMatch(acc, cands[0]) then acc else acc + [cands[0]];
      assert Distinct(next);
      PlaceFacts(cands[1..], n, next);
      var r := Place(cands[1..], n, next);
      assert cands[0] in next;
      assert forall p | p in next :: p in r;
      assert forall p | p in cands :: p == cands[0] || p in cands[1..];
    }
  }

  /** What getMinePositions promises: distinct positions, each one drawn,
      never more than asked for; and fewer only when every candidate was
      already chosen. */
  lemma MinePositionsFacts(cands: seq<Pos>, n: int)
    ensures var r := MinePositions(cands, n);
      Distinct(r) && (forall p | p in r :: p in cands) &&
      |r| <= (if n < 0 then 0 else n) &&
      (|r| < n ==> Elems(cands) <= Elems(r))
  {
    PlaceFacts(cands, n, []);
  }

  lemma SubsetCard<T>(a: set<T>, b: set<T>)
    requires a <= b
    ensures |a| <= |b|
  {
    assert b == a + (b - a);
  }

  /** A stream offering at least `n` distinct positions yields exactly `n`. */
  lemma MinePositionsEnough(cands: seq<Pos>, n: int)
    requires 0 <= n <= |Elems(cands)|
    ensures |MinePositions(cands, n)| == n
  {
    var r := MinePositions(cands, n);
    MinePositionsFacts(cands, n);
    DistinctCard(r);
    if |r| < n {
      SubsetCard(Elems(cands), Elems(r));
    }
  }

  /** The positions of a w by h grid, x first. */
  ghost function Grid(w: int, h: int): set<Pos>
  {
    set x, y | 0 <= x < w && 0 <= y < h :: Pos(x, y)
  }

  /** Row x of a grid of height h. */
  ghost function GridRow(x: int, h: int): set<Pos>
  {
    set y | 0 <= y < h :: Pos(x, y)
  }

  lemma {:induction false} GridRowCard(x: int, h: nat)
    ensures |GridRow(x, h)| == h
  {
    if h > 0 {
      GridRowCard(x, h - 1);
      assert GridRow(x, h) == GridRow(x, h - 1) + {Pos(x, h - 1)};
    }
  }

  lemma {:induction false} GridCard(w: nat, h: nat)
    ensures |Grid(w, h)| == w * h
  {
    if w > 0 {
      GridCard(w - 1, h);
      GridRowCard(w - 1, h);
      GridSplit(w, h);
      assert |Grid(w, h)| == (w - 1) * h + h;
    }
  }

  /** A grid is the grid one row shorter plus its last row, disjointly. */
  lemma GridSplit(w: nat, h: nat)
    requires w > 0
    ensures Grid(w, h) == Grid(w - 1, h) + GridRow(w - 1, h)
    ensures Grid(w - 1, h) * GridRow(w - 1, h) == {}
  {
  }

  /** A candidate stream drawn from [0, size) in both axes. */
  ghost predicate InSquare(cands: seq<Pos>, size: int)
  {
    forall i | 0 <= i < |cands| :: 0 <= cands[i].x < size && 0 <= cands[i].y < size
  }

  /** How many values randomNumber(size) = Math.floor(Math.random() * size)
      can return: 0 .. size - 1 for size > 0, and only 0 for size 0. */
  function DrawSpan(size: nat): (r: nat)
    ensures r >= 1 && r >= size
    ensures size > 0 ==> r == size
  {
    if size == 0 then 1 else size
  }

  /** The loop terminates exactly when it can. The candidates are what
      randomNumber(size) can draw in each axis, a square of side
      DrawSpan(size). A stream that offers every position of that square
      yields `n` positions whenever n <= DrawSpan(size)^2. When n is larger,
      no stream of such draws ever yields them. */
  lemma MinePositionsInSquare(cands: seq<Pos>, n: int, boardSize: nat)
    requires InSquare(cands, DrawSpan(boardSize))
    ensures InSquare(MinePositions(cands, n), DrawSpan(boardSize))
    ensures n > DrawSpan(boardSize) * DrawSpan(boardSize) ==> |MinePositions(cands, n)| < n
    ensures (0 <= n <= DrawSpan(boardSize) * DrawSpan(boardSize) &&
             Grid(DrawSpan(boardSize), DrawSpan(boardSize)) <= Elems(cands)) ==>
      |MinePositions(cands, n)| == n
  {
    var size := DrawSpan(boardSize);
    var r := MinePositions(cands, n);
    MinePositionsFacts(cands, n);
    GridCard(size, size);
    assert Elems(cands) <= Grid(size, size) by {
      forall p | p in Elems(cands) ensures p in Grid(size, size) {
        var i :| 0 <= i < |cands| && cands[i] == p;
      }
    }
    forall i | 0 <= i < |r| ensures 0 <= r[i].x < size && 0 <= r[i].y < size {
      assert r[i] in cands;
    }
    if n > size * size {
      DistinctCard(r);
      assert Elems(r) <= Elems(cands);
      SubsetCard(Elems(r), Grid(size, size));
    }
    if 0 <= n <= size * size && Grid(size, size) <= Elems(cands) {
      assert Elems(cands) == Grid(size, size);
      MinePositionsEnough(cands, n);
    }
  }

  /** Once every remaining candidate is already chosen, the loop adds
      nothing. */
  lemma {:induction false} PlaceStuck(cands: seq<Pos>, n: int, acc: seq<Pos>)
    requires forall i | 0 <= i < |cands| :: cands[i] in acc
    ensures Place(cands, n, acc) == acc
    decreases |cands|
  {
    if |acc| < n && cands != [] {
      PlaceStuck(cands[1..], n, acc);
    }
  }

  /** createBoard(0, numberOfMines): every draw is (0, 0), so the positions
      are (0, 0) alone, and the loop completes only when one mine is asked
      for; for more it would draw forever. */
  lemma EmptyBoardDraws(cands: seq<Pos>, n: int)
    requires InSquare(cands, DrawSpan(0)) && cands != [] && n >= 1
    ensures MinePositions(cands, n) == [Pos(0, 0)]
    ensures |MinePositions(cands, n)| == n <==> n == 1
  {
    assert cands[0] == Pos(0, 0) && !AnyMatch([], cands[0]);
    assert [] + [cands[0]] == [Pos(0, 0)];
    assert MinePositions(cands, n) == Place(cands[1..], n, [Pos(0, 0)]);
    assert forall i | 0 <= i < |cands[1..]| :: cands[1..][i] == cands[i + 1];
    PlaceStuck(cands[1..], n, [Pos(0, 0)]);
  }

  /** A board as createBoard lays it out from the chosen mine positions:
      ten rows of `boardSize` hidden tiles, a tile holding a mine exactly
      when its position is among them. */
  ghost predicate LaidOut(b: Board, boardSize: int, positions: seq<Pos>)
  {
    |b| == BoardRows &&
    (forall x | 0 <= x < |b| :: |b[x]| == if boardSize < 0 then 0 else boardSize) &&
    (forall x, y | InBounds(b, x, y) :: b[x][y] == Tile(Pos(x, y) in positions, Hidden))
  }

  /** createBoard: draw the mine positions, then build the rows with two
      nested loops. */
  method CreateBoard(boardSize: int, numberOfMines: int, candidates: seq<Pos>) returns (board: Board)
    ensures LaidOut(board, boardSize, MinePositions(candidates, numberOfMines))
  {
    var minePositions := GetMinePositions(numberOfMines, candidates);
    var width := if boardSize < 0 then 0 else boardSize;
    board := [];
    var x := 0;
    while x < BoardRows
      invariant 0 <= x <= BoardRows && |board| == x
      invariant forall i | 0 <= i < x :: |board[i]| == width
      invariant forall i, j | InBounds(board, i, j) :: board[i][j] == Tile(Pos(i, j) in minePositions, Hidden)
    {
      var row := [];
      var y := 0;
      while y < boardSize
        invariant 0 <= y <= width && |row| == y
        invariant forall j | 0 <= j < y :: row[j] == Tile(Pos(x, j) in minePositions, Hidden)
      {
        var tile := Tile(AnyMatch(minePositions, Pos(x, y)), Hidden);
        row := row + [tile];
        y := y + 1;
      }
      board := board + [row];
      x := x + 1;
    }
  }

  /** The positions of the tiles that hold a mine. */
  ghost function MineSet(b: Board): set<Pos>
  {
    set x, y | 0 <= x < |b| && 0 <= y < |b[x]| && b[x][y].mine :: Pos(x, y)
  }

  /** Mine flags are fixed: boards with the same layout have the same mines. */
  lemma LayoutKeepsMines(b: Board, c: Board)
    requires SameLayout(b, c)
    ensures MineSet(c) == MineSet(b)
  {
    forall p | p in MineSet(c) ensures p in MineSet(b) {
      assert InBounds(c, p.x, p.y) && c[p.x][p.y].mine;
    }
    forall p | p in MineSet(b) ensures p in MineSet(c) {
      assert InBounds(b, p.x, p.y) && b[p.x][p.y].mine;
    }
  }

  /** The mines of a laid-out board are the chosen positions that fall
      inside its ten rows; so when boardSize <= 10 and the positions are in
      range, the board has exactly as many mines as positions were chosen. */
  lemma LaidOutMines(b: Board, boardSize: nat, positions: seq<Pos>)
    requires LaidOut(b, boardSize, positions)
    ensures MineSet(b) == Elems(positions) * Grid(BoardRows, boardSize)
    ensures Distinct(positions) && InSquare(positions, boardSize) && boardSize <= BoardRows ==>
      |MineSet(b)| == |positions|
  {
    forall p | p in Elems(positions) * Grid(BoardRows, boardSize) ensures p in MineSet(b) {
      assert InBounds(b, p.x, p.y) && b[p.x][p.y].mine;
    }
    if Distinct(positions) && InSquare(positions, boardSize) && boardSize <= BoardRows {
      forall p | p in Elems(positions) ensures p in Grid(BoardRows, boardSize) {
        var i :| 0 <= i < |positions| && positions[i] == p;
      }
      assert MineSet(b) == Elems(positions);
      DistinctCard(positions);
    }
  }

  /** The game's own configuration, createBoard(9, 10): a stream in range
      that offers at least ten distinct positions gives a board of ten rows
      of nine tiles with exactly ten mines. */
  lemma DefaultBoardHasTenMines(b: Board, cands: seq<Pos>)
    requires LaidOut(b, 9, MinePositions(cands, 10))
    requires InSquare(cands, 9) && 10 <= |Elems(cands)|
    ensures |b| == 10 && (forall x | 0 <= x < 10 :: |b[x]| == 9)
    ensures |MineSet(b)| == 10
  {
    MinePositionsFacts(cands, 10);
    MinePositionsEnough(cands, 10);
    assert DrawSpan(9) == 9;
    MinePositionsInSquare(cands, 10, 9);
    LaidOutMines(b, 9, MinePositions(cands, 10));
  }
}

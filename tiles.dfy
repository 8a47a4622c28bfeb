/** Tiles, positions and boards of the mine-finder, and the counting facts
    that the other modules share. A board is a sequence of rows, indexed
    board[x][y] exactly as script.js indexes its array of row arrays. */
module Tiles {

  /** The four values of TILE_STATUSES. */
  datatype Status = Hidden | Mine | Number | Marked

  /** A tile: its fixed mine flag and its current status. The status that
      script.js keeps in the tile element's dataset is a plain field here. */
  datatype Tile = Tile(mine: bool, status: Status)

  /** A board coordinate, the `{ x, y }` records of script.js. */
  datatype Pos = Pos(x: int, y: int)

  type Board = seq<seq<Tile>>

  /** `board[x]?.[y]` names a tile. */
  predicate InBounds(b: Board, x: int, y: int)
  {
    0 <= x < |b| && 0 <= y < |b[x]|
  }

  /** Every position names a tile of the board. */
  ghost predicate AllInBounds(b: Board, ps: seq<Pos>)
  {
    forall i | 0 <= i < |ps| :: InBounds(b, ps[i].x, ps[i].y)
  }

  /** The board after assigning status `s` to the tile at (x, y). */
  function SetStatus(b: Board, x: int, y: int, s: Status): (r: Board)
    requires InBounds(b, x, y)
    ensures |r| == |b| && InBounds(r, x, y) && r[x][y] == Tile(b[x][y].mine, s)
    ensures forall i, j | InBounds(b, i, j) && (i != x || j != y) :: InBounds(r, i, j) && r[i][j] == b[i][j]
    ensures forall i | 0 <= i < |b| :: |r[i]| == |b[i]|
  {
    b[x := b[x][y := b[x][y].(status := s)]]
  }

  /** Same dimensions and same mine flags: what no operation may change. */
  ghost predicate SameLayout(b: Board, c: Board)
  {
    |c| == |b| &&
    (forall i | 0 <= i < |b| :: |c[i]| == |b[i]|) &&
    (forall i, j | InBounds(b, i, j) :: c[i][j].mine == b[i][j].mine)
  }

  /** Boards with the same dimensions that agree tile by tile are equal. */
  lemma BoardExt(b: Board, c: Board)
    requires |c| == |b| && forall i | 0 <= i < |b| :: |c[i]| == |b[i]|
    requires forall i, j | InBounds(b, i, j) :: c[i][j] == b[i][j]
    ensures c == b
  {
    forall i | 0 <= i < |b| ensures c[i] == b[i] {
      assert forall j | 0 <= j < |b[i]| :: InBounds(b, i, j);
    }
  }

  /** The status invariant every reachable board keeps: only a mine tile
      shows `mine`, and only a tile without a mine shows `number`. */
  ghost predicate Consistent(b: Board)
  {
    forall i, j | InBounds(b, i, j) ::
      (b[i][j].status == Mine ==> b[i][j].mine) &&
      (b[i][j].status == Number ==> !b[i][j].mine)
  }

  /** Number of tiles in a row with status `s` (`row.filter(...).length`):
      at most the row's length, and zero exactly when no tile has it. */
  function CountRow(row: seq<Tile>, s: Status): (r: nat)
    ensures r <= |row|
    ensures r == 0 <==> forall j | 0 <= j < |row| :: row[j].status != s
  {
    if row == [] then 0
    else
      assert forall j | 1 <= j < |row| :: row[1..][j - 1] == row[j];
      (if row[0].status == s then 1 else 0) + CountRow(row[1..], s)
  }

  /** Number of tiles on the board with status `s`: the `reduce` over rows
      in listMineLeft, for any status. */
  function CountStatus(b: Board, s: Status): nat
  {
    if b == [] then 0 else CountRow(b[0], s) + CountStatus(b[1..], s)
  }

  /** The board count of `s` is zero exactly when no tile has status `s`. */
  lemma {:induction false} CountZero(b: Board, s: Status)
    ensures CountStatus(b, s) == 0 <==> forall i, j | InBounds(b, i, j) :: b[i][j].status != s
  {
    if b != [] {
      CountZero(b[1..], s);
      assert forall i, j | InBounds(b[1..], i, j) :: b[1..][i][j] == b[i + 1][j];
      assert forall i, j | InBounds(b, i, j) && i > 0 :: InBounds(b[1..], i - 1, j);
    }
  }

  function Indicator(c: bool): int { if c then 1 else 0 }

  /** Changing one tile's status moves the count of `s` by at most one, in
      the direction the change dictates. */
  lemma {:induction false} CountRowUpdate(row: seq<Tile>, y: int, t: Tile, s: Status)
    requires 0 <= y < |row|
    ensures CountRow(row[y := t], s)
         == CountRow(row, s) - Indicator(row[y].status == s) + Indicator(t.status == s)
  {
    if y > 0 {
      assert row[y := t][1..] == row[1..][y - 1 := t];
      CountRowUpdate(row[1..], y - 1, t, s);
    } else {
      assert row[y := t][1..] == row[1..];
    }
  }

  lemma {:induction false} CountSet(b: Board, x: int, y: int, t: Status, s: Status)
    requires InBounds(b, x, y)
    ensures CountStatus(SetStatus(b, x, y, t), s)
         == CountStatus(b, s) - Indicator(b[x][y].status == s) + Indicator(t == s)
  {
    var r := SetStatus(b, x, y, t);
    if x > 0 {
      assert r[1..] == SetStatus(b[1..], x - 1, y, t);
      CountSet(b[1..], x - 1, y, t, s);
    } else {
      assert r[1..] == b[1..];
      CountRowUpdate(b[0], y, b[0][y].(status := t), s);
    }
  }

  /** Two rows that agree, tile by tile, on whether the status is `s` have
      the same count of `s`. */
  lemma {:induction false} CountRowSame(r1: seq<Tile>, r2: seq<Tile>, s: Status)
    requires |r1| == |r2|
    requires forall j | 0 <= j < |r1| :: (r1[j].status == s <==> r2[j].status == s)
    ensures CountRow(r1, s) == CountRow(r2, s)
  {
    if r1 != [] {
      CountRowSame(r1[1..], r2[1..], s);
    }
  }

  lemma {:induction false} CountSame(b: Board, c: Board, s: Status)
    requires |b| == |c| && forall i | 0 <= i < |b| :: |c[i]| == |b[i]|
    requires forall i, j | InBounds(b, i, j) :: (b[i][j].status == s <==> c[i][j].status == s)
    ensures CountStatus(b, s) == CountStatus(c, s)
  {
    if b != [] {
      CountRowSame(b[0], c[0], s);
      assert forall i, j | InBounds(b[1..], i, j) :: b[1..][i][j] == b[i + 1][j] && c[1..][i][j] == c[i + 1][j];
      CountSame(b[1..], c[1..], s);
    }
  }

  /** The elements of a sequence, as a set. */
  function Elems<T(==)>(s: seq<T>): set<T>
  {
    set p | p in s
  }

  /** No value occurs twice. */
  predicate Distinct<T(==)>(s: seq<T>)
  {
    forall i, j | 0 <= i < j < |s| :: s[i] != s[j]
  }

  /** A sequence without repetitions has as many elements as its set. */
  lemma {:induction false} DistinctCard<T>(s: seq<T>)
    requires Distinct(s)
    ensures |Elems(s)| == |s|
  {
    if s != [] {
      var t := s[..|s| - 1];
      var last := s[|s| - 1];
      assert Distinct(t);
      DistinctCard(t);
      assert Elems(s) == Elems(t) + {last};
      assert last !in Elems(t);
    }
  }
}

/** markTile and listMineLeft of script.js: toggling a flag against the
    global `count`, recounting the marked tiles, and the flag budget that
    one right click keeps. Sequences of clicks and right clicks are in
    module Game. */
module Marking {
  import opened Tiles

  /** The literal cap in `count < 10`. */
  const FlagCap := 10

  /** The initial value of the global `count`. */
  const InitialCount := 1

  /** The board after markTile(board[x][y]) while the global count is
      `count`. */
  function Toggle(b: Board, x: int, y: int, count: int): (r: Board)
    requires InBounds(b, x, y)
    ensures SameLayout(b, r)
    ensures forall i, j | InBounds(b, i, j) && (i != x || j != y) :: r[i][j] == b[i][j]
  {
    var s := b[x][y].status;
    if s != Hidden && s != Marked then b
    else if s == Marked then SetStatus(b, x, y, Hidden)
    else if count < FlagCap then SetStatus(b, x, y, Marked)
    else b
  }

  /** The four cases of markTile: a marked tile is unmarked whatever the
      count; a hidden tile is marked exactly when count < 10; number and
      mine tiles are left alone. */
  lemma ToggleCases(b: Board, x: int, y: int, count: int)
    requires InBounds(b, x, y)
    ensures var r := Toggle(b, x, y, count); var s := b[x][y].status;
      (s == Marked ==> r[x][y].status == Hidden) &&
      (s == Hidden ==> (r[x][y].status == Marked <==> count < FlagCap)) &&
      (s == Hidden && count >= FlagCap ==> r == b) &&
      (s == Number || s == Mine ==> r == b)
  {
  }

  /** A toggle moves the number of marked tiles by exactly one step or not
      at all, and keeps the status invariant. */
  lemma ToggleCount(b: Board, x: int, y: int, count: int)
    requires InBounds(b, x, y)
    ensures var r := Toggle(b, x, y, count); var s := b[x][y].status;
      CountStatus(r, Marked) == CountStatus(b, Marked)
        + (if s == Hidden && count < FlagCap then 1 else if s == Marked then -1 else 0)
    ensures Consistent(b) ==> Consistent(Toggle(b, x, y, count))
  {
    var s := b[x][y].status;
    if s == Marked {
      CountSet(b, x, y, Hidden, Marked);
    } else if s == Hidden && count < FlagCap {
      CountSet(b, x, y, Marked, Marked);
    }
  }

  /** The whole mutable state of the game: the board and the global
      `count`. */
  datatype GameState = GameState(board: Board, count: int)

  /** A right click: markTile, then listMineLeft sets `count` to the number
      of marked tiles. */
  function FlagStep(st: GameState, p: Pos): (r: GameState)
    requires InBounds(st.board, p.x, p.y)
    ensures SameLayout(st.board, r.board)
  {
    var b := Toggle(st.board, p.x, p.y, st.count);
    GameState(b, CountStatus(b, Marked))
  }

  /** The flag budget kept by one right click: when `count` is at least the
      number of marked tiles and at most ten tiles are marked, at most ten
      are marked afterwards and `count` equals their number. */
  lemma FlagStepBudget(st: GameState, p: Pos)
    requires InBounds(st.board, p.x, p.y)
    requires CountStatus(st.board, Marked) <= st.count && CountStatus(st.board, Marked) <= FlagCap
    ensures var r := FlagStep(st, p);
      r.count == CountStatus(r.board, Marked) && r.count <= FlagCap
  {
    ToggleCount(st.board, p.x, p.y, st.count);
  }
}

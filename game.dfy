/** The game state of script.js as one object: the board and the global
    `count`, with the handlers' operations as methods that update them in
    place. */
module Game {
  import opened Tiles
  import opened Reveal
  import opened Marking
  import opened Mines
  import opened EndGame

  /** BOARD_SIZE and NUMBER_OF_MINES. */
  const BoardSize := 9
  const NumberOfMines := 10

  class Minefield {
    var board: Board
    var count: int

    ghost predicate Valid()
      reads this
    {
      Consistent(board)
    }

    /** `const board = createBoard(BOARD_SIZE, NUMBER_OF_MINES)` and
        `let count = 1`, with the mine positions drawn from `candidates`. */
    constructor (candidates: seq<Pos>)
      ensures Valid()
      ensures LaidOut(board, BoardSize, MinePositions(candidates, NumberOfMines))
      ensures count == InitialCount
    {
      var b := CreateBoard(BoardSize, NumberOfMines, candidates);
      board := b;
      count := InitialCount;
    }

    /** revealTile(board, board[x][y]): recursive through RevealEach, and it
        terminates because every recursive call starts with fewer hidden
        tiles. */
    method RevealTile(x: int, y: int)
      requires Valid() && InBounds(board, x, y)
      modifies this
      ensures Valid()
      ensures board == Revealed(old(board), x, y)
      ensures count == old(count)
      decreases CountStatus(board, Hidden), 0
    {
      RevealStep(board, x, y);
      if board[x][y].status != Hidden {
        return;
      }
      if board[x][y].mine {
        board := SetStatus(board, x, y, Mine);
        return;
      }
      ghost var b0: Board := board;
      board := SetStatus(board, x, y, Number);
      RevealSafeUnfold(b0, x, y);
      NearbySameShape(b0, board, x, y);
      var adjacentTiles := NearbyTiles(board, x, y);
      var mines := MinesAmong(board, adjacentTiles);
      if |mines| == 0 {
        SafeLookup(board, x, y);
        RevealEach(adjacentTiles);
      }
    }

    /** `adjacentTiles.forEach(revealTile.bind(null, board))`. */
    method RevealEach(ps: seq<Pos>)
      requires Valid() && SafeTargets(board, ps)
      modifies this
      ensures Valid()
      ensures board == RevealedAll(old(board), ps)
      ensures count == old(count)
      decreases CountStatus(board, Hidden), 1
    {
      ghost var b1: Board := board;
      var i := 0;
      while i < |ps|
        invariant 0 <= i <= |ps|
        invariant board == RevealedAll(b1, ps[..i])
        invariant count == old(count)
        invariant Valid()
      {
        assert ps[..i + 1][..i] == ps[..i];
        RevealTile(ps[i].x, ps[i].y);
        i := i + 1;
      }
      assert ps[..|ps|] == ps;
    }

    /** markTile(board[x][y]) against the current `count`. */
    method MarkTile(x: int, y: int)
      requires Valid() && InBounds(board, x, y)
      modifies this
      ensures Valid()
      ensures board == Toggle(old(board), x, y, old(count))
      ensures count == old(count)
    {
      ToggleCount(board, x, y, count);
      if board[x][y].status != Hidden && board[x][y].status != Marked {
        return;
      }
      if board[x][y].status == Marked {
        board := SetStatus(board, x, y, Hidden);
      } else if count < FlagCap {
        board := SetStatus(board, x, y, Marked);
      }
    }

    /** listMineLeft: `count` becomes the number of marked tiles. */
    method ListMineLeft()
      requires Valid()
      modifies this
      ensures Valid()
      ensures count == CountStatus(board, Marked)
      ensures board == old(board)
    {
      count := CountStatus(board, Marked);
    }

    /** The sweep of checkGameEnd's lose branch: every marked tile is
        unmarked and every mine tile revealed, row by row. */
    method RevealMines()
      requires Valid()
      modifies this
      ensures Valid()
      ensures board == Swept(old(board))
      ensures count == old(count)
    {
      ghost var b0: Board := board;
      var x := 0;
      while x < |board|
        invariant 0 <= x <= |board| && SameLayout(b0, board) && Valid()
        invariant count == old(count)
        invariant forall i, j | InBounds(b0, i, j) :: board[i][j] == if i < x then SweepTile(b0[i][j]) else b0[i][j]
      {
        var y := 0;
        while y < |board[x]|
          invariant x < |b0| && SameLayout(b0, board) && Valid() && 0 <= y <= |board[x]|
          invariant count == old(count)
          invariant forall i, j | InBounds(b0, i, j) ::
            board[i][j] == if i < x || (i == x && j < y) then SweepTile(b0[i][j]) else b0[i][j]
        {
          SweepAt(x, y);
          y := y + 1;
        }
        x := x + 1;
      }
      BoardExt(Swept(b0), board);
    }

    /** The sweep's callback for one tile: unmark it if marked, then reveal
        it if it holds a mine. */
    method SweepAt(x: int, y: int)
      requires Valid() && InBounds(board, x, y)
      modifies this
      ensures Valid()
      ensures board == SetStatus(old(board), x, y, SweepTile(old(board)[x][y]).status)
      ensures count == old(count)
    {
      ghost var before: Board := board;
      if board[x][y].status == Marked {
        MarkTile(x, y);
      }
      if board[x][y].mine {
        ghost var mid: Board := board;
        if mid[x][y].status == Hidden {
          RevealMineTile(mid, x, y);
        } else {
          RevealSettled(mid, x, y);
        }
        RevealTile(x, y);
      }
      BoardExt(SetStatus(before, x, y, SweepTile(before[x][y]).status), board);
    }

    /** checkGameEnd, without the display and input freezing: evaluate both
        checks on the board as it is, and on a loss run the sweep. */
    method CheckGameEnd() returns (win: bool, lose: bool)
      requires Valid()
      modifies this
      ensures Valid()
      ensures win == CheckWin(old(board)) && lose == CheckLose(old(board))
      ensures !(win && lose)
      ensures board == if lose then Swept(old(board)) else old(board)
      ensures count == old(count)
    {
      win := CheckWin(board);
      lose := CheckLose(board);
      if lose {
        LoseExcludesWin(board);
        RevealMines();
      }
    }

    /** The click listener: revealTile on the tile, then checkGameEnd. */
    method OnClick(x: int, y: int) returns (win: bool, lose: bool)
      requires Valid() && InBounds(board, x, y)
      modifies this
      ensures Valid()
      ensures GameState(board, count) == Handle(GameState(old(board), old(count)), Click(Pos(x, y)))
      ensures win == CheckWin(Revealed(old(board), x, y))
      ensures lose == CheckLose(Revealed(old(board), x, y)) && !(win && lose)
    {
      RevealTile(x, y);
      win, lose := CheckGameEnd();
    }

    /** The contextmenu listener: markTile on the tile, then listMineLeft. */
    method OnRightClick(x: int, y: int)
      requires Valid() && InBounds(board, x, y)
      modifies this
      ensures Valid()
      ensures GameState(board, count) == Handle(GameState(old(board), old(count)), RightClick(Pos(x, y)))
    {
      MarkTile(x, y);
      ListMineLeft();
    }
  }

  /** What the two tile handlers do to the state: a click reveals and then
      runs checkGameEnd; a right click marks and then recounts. */
  datatype Event = Click(p: Pos) | RightClick(p: Pos)

  function Handle(st: GameState, e: Event): (r: GameState)
    requires InBounds(st.board, e.p.x, e.p.y)
    ensures SameLayout(st.board, r.board)
  {
    match e
    case Click(p) =>
      var b := Revealed(st.board, p.x, p.y);
      GameState(if CheckLose(b) then Swept(b) else b, st.count)
    case RightClick(p) => FlagStep(st, p)
  }

  ghost predicate EventsInBounds(b: Board, es: seq<Event>)
  {
    forall i | 0 <= i < |es| :: InBounds(b, es[i].p.x, es[i].p.y)
  }

  function Play(st: GameState, es: seq<Event>): (r: GameState)
    requires EventsInBounds(st.board, es)
    ensures SameLayout(st.board, r.board)
    decreases |es|
  {
    if es == [] then st
    else
      var next := Handle(st, es[0]);
      assert EventsInBounds(next.board, es[1..]) by {
        forall i | 0 <= i < |es[1..]| ensures InBounds(next.board, es[1..][i].p.x, es[1..][i].p.y) {
          assert es[1..][i] == es[i + 1];
        }
      }
      Play(next, es[1..])
  }

  /** The state every handler keeps: the status invariant, at most ten
      marked tiles, and `count` never below their number. */
  ghost predicate Budgeted(st: GameState)
  {
    Consistent(st.board) &&
    CountStatus(st.board, Marked) <= st.count && CountStatus(st.board, Marked) <= FlagCap
  }

  lemma HandleBudget(st: GameState, e: Event)
    requires InBounds(st.board, e.p.x, e.p.y) && Budgeted(st)
    ensures Budgeted(Handle(st, e))
  {
    match e
    case Click(p) =>
      var b: Board := Revealed(st.board, p.x, p.y);
      RevealKeeps(st.board, p.x, p.y);
      if CheckLose(b) {
        SweptFacts(b);
        CountZero(Swept(b), Marked);
      }
    case RightClick(p) =>
      FlagStepBudget(st, p);
      ToggleCount(st.board, p.x, p.y, st.count);
  }

  /** From a fresh game (count = 1, nothing marked) or any budgeted state,
      no sequence of clicks and right clicks ever leaves more than ten
      tiles marked. */
  lemma {:induction false} PlayBudget(st: GameState, es: seq<Event>)
    requires EventsInBounds(st.board, es) && Budgeted(st)
    ensures Budgeted(Play(st, es))
    decreases |es|
  {
    if es != [] {
      var next := Handle(st, es[0]);
      HandleBudget(st, es[0]);
      assert EventsInBounds(next.board, es[1..]) by {
        forall i | 0 <= i < |es[1..]| ensures InBounds(next.board, es[1..][i].p.x, es[1..][i].p.y) {
          assert es[1..][i] == es[i + 1];
        }
      }
      PlayBudget(next, es[1..]);
    }
  }

  /** No sequence of clicks and right clicks adds, removes or moves a mine. */
  lemma PlayKeepsMines(st: GameState, es: seq<Event>)
    requires EventsInBounds(st.board, es)
    ensures MineSet(Play(st, es).board) == MineSet(st.board)
  {
    LayoutKeepsMines(st.board, Play(st, es).board);
  }

  /** A fresh board is budgeted with the initial count. */
  lemma FreshBoardBudgeted(b: Board, positions: seq<Pos>)
    requires LaidOut(b, BoardSize, positions)
    ensures Budgeted(GameState(b, InitialCount))
  {
    CountZero(b, Marked);
  }
}

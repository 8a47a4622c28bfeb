/** checkWin, checkLose and the status sweep that checkGameEnd performs on
    a loss, in script.js. */
module EndGame {
  import opened Tiles
  import opened Reveal

  /** The per-tile test of checkWin: a mine tile passes unless it has gone
      off, a safe tile passes only once it shows a number. */
  function WinTile(t: Tile): (r: bool)
    ensures t.mine ==> (r <==> t.status != Mine)
    ensures !t.mine ==> (r <==> t.status == Number)
  {
    t.status == Number || (t.mine && (t.status == Hidden || t.status == Marked))
  }

  /** checkWin: `board.every(row => row.every(...))`. The game is won when
      no mine has gone off and every safe tile shows a number. */
  function CheckWin(b: Board): (r: bool)
    ensures r <==> forall x, y | InBounds(b, x, y) ::
      if b[x][y].mine then b[x][y].status != Mine else b[x][y].status == Number
  {
    forall x, y | 0 <= x < |b| && 0 <= y < |b[x]| :: WinTile(b[x][y])
  }

  /** checkLose: `board.some(row => row.some(...))`. */
  predicate CheckLose(b: Board)
  {
    exists x, y | 0 <= x < |b| && 0 <= y < |b[x]| :: b[x][y].status == Mine
  }

  /** checkWin holds exactly when every tile without a mine shows a number
      and no tile shows `mine`. */
  lemma WinIff(b: Board)
    ensures CheckWin(b) <==>
      (forall x, y | InBounds(b, x, y) && !b[x][y].mine :: b[x][y].status == Number) && !CheckLose(b)
  {
  }

  /** A lost board is never also won. */
  lemma LoseExcludesWin(b: Board)
    requires CheckLose(b)
    ensures !CheckWin(b)
  {
    var x: int, y: int :| 0 <= x < |b| && 0 <= y < |b[x]| && b[x][y].status == Mine;
    assert !WinTile(b[x][y]);
  }

  /** checkLose is the same as a positive count of `mine` tiles. */
  lemma LoseIffCount(b: Board)
    ensures CheckLose(b) <==> CountStatus(b, Mine) > 0
  {
    CountZero(b, Mine);
  }

  /** A reveal loses the game exactly when the game was already lost or the
      target is a hidden mine: the cascade never sets off a mine. */
  lemma RevealLoses(b: Board, x: int, y: int)
    requires InBounds(b, x, y)
    ensures CheckLose(Revealed(b, x, y)) <==>
      CheckLose(b) || (b[x][y].status == Hidden && b[x][y].mine)
  {
    var r: Board := Revealed(b, x, y);
    if b[x][y].status == Hidden && b[x][y].mine {
      RevealMineTile(b, x, y);
      assert r[x][y].status == Mine;
      if CheckLose(b) {
        var i, j :| InBounds(b, i, j) && b[i][j].status == Mine;
        assert r[i][j].status == Mine;
      }
    } else if b[x][y].status != Hidden {
      RevealSettled(b, x, y);
    } else {
      GrowsFacts(b, r);
      if CheckLose(b) {
        var i, j :| InBounds(b, i, j) && b[i][j].status == Mine;
        assert r[i][j] == b[i][j];
      }
    }
  }

  /** One tile of the lose-branch sweep: a marked tile is unmarked
      (markTile), then a mine tile is revealed (revealTile, which on a mine
      never cascades). */
  function SweepTile(t: Tile): (r: Tile)
    ensures r.mine == t.mine && r.status != Marked
    ensures t.mine && t.status != Number ==> r.status == Mine
    ensures !t.mine && t.status == Marked ==> r.status == Hidden
    ensures t.status != Marked && (t.status != Hidden || !t.mine) ==> r == t
  {
    var s := if t.status == Marked then Hidden else t.status;
    Tile(t.mine, if t.mine && s == Hidden then Mine else s)
  }

  /** The board after the sweep over every row and tile. */
  function Swept(b: Board): (r: Board)
    ensures SameLayout(b, r)
    ensures forall x, y | InBounds(b, x, y) :: r[x][y] == SweepTile(b[x][y])
  {
    seq(|b|, x requires 0 <= x < |b| => seq(|b[x]|, y requires 0 <= y < |b[x]| => SweepTile(b[x][y])))
  }

  /** After the sweep no tile is marked, every mine shows `mine`, a tile
      without a mine keeps its status unless it was marked, and the game reads
      as lost whenever the board holds a mine. */
  lemma SweptFacts(b: Board)
    requires Consistent(b)
    ensures var r := Swept(b);
      Consistent(r) &&
      (forall x, y | InBounds(r, x, y) :: r[x][y].status != Marked) &&
      (forall x, y | InBounds(r, x, y) && r[x][y].mine :: r[x][y].status == Mine) &&
      (forall x, y | InBounds(b, x, y) && !b[x][y].mine ::
        r[x][y].status == if b[x][y].status == Marked then Hidden else b[x][y].status) &&
      (CheckLose(r) <==> exists x, y | InBounds(b, x, y) :: b[x][y].mine)
  {
    var r: Board := Swept(b);
    if exists x, y | InBounds(b, x, y) :: b[x][y].mine {
      var x, y :| InBounds(b, x, y) && b[x][y].mine;
      assert r[x][y].status == Mine;
    }
  }
}

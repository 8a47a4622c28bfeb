/** revealTile and nearbyTiles of script.js: the neighbour lookup, the
    recursive reveal with its flood fill, and what the cascade may change. */
module Reveal {
  import opened Tiles

  /** The tile at (x, y) when there is one: the `if (tile) tiles.push(tile)`
      step of nearbyTiles. */
  function Probe(b: Board, x: int, y: int): seq<Pos>
  {
    if InBounds(b, x, y) then [Pos(x, y)] else []
  }

  /** The tiles that the inner loop of nearbyTiles collects for one x offset:
      y offsets -1 and then 0. */
  function NearbyRow(b: Board, x: int, y: int, xOffset: int): seq<Pos>
  {
    Probe(b, x + xOffset, y - 1) + Probe(b, x + xOffset, y)
  }

  /** nearbyTiles: the offsets tried are -1 and 0 in each axis, x outermost,
      so the lookup covers the tile itself and the three tiles above and to
      the left of it, and nothing else. */
  function Nearby(b: Board, x: int, y: int): (r: seq<Pos>)
    ensures AllInBounds(b, r)
  {
    NearbyRow(b, x, y, -1) + NearbyRow(b, x, y, 0)
  }

  /** What nearbyTiles returns: at most four distinct positions, exactly
      the tiles of the board at offsets -1 or 0 in each axis; the tile
      itself among them. */
  lemma NearbyFacts(b: Board, x: int, y: int)
    ensures var r := Nearby(b, x, y);
      |r| <= 4 && Distinct(r) &&
      (forall p :: p in r <==>
        InBounds(b, p.x, p.y) && (p.x == x - 1 || p.x == x) && (p.y == y - 1 || p.y == y)) &&
      (InBounds(b, x, y) ==> Pos(x, y) in r)
  {
    NearbyRowFacts(b, x, y, -1);
    NearbyRowFacts(b, x, y, 0);
    DistinctConcat(NearbyRow(b, x, y, -1), NearbyRow(b, x, y, 0));
  }

  lemma NearbyRowFacts(b: Board, x: int, y: int, xOffset: int)
    ensures var r := NearbyRow(b, x, y, xOffset);
      |r| <= 2 && Distinct(r) &&
      forall p :: p in r <==> InBounds(b, p.x, p.y) && p.x == x + xOffset && (p.y == y - 1 || p.y == y)
  {
  }

  lemma DistinctConcat(s: seq<Pos>, t: seq<Pos>)
    requires Distinct(s) && Distinct(t)
    requires forall p | p in s :: p !in t
    ensures Distinct(s + t)
  {
    forall i, j | 0 <= i < j < |s + t|
      ensures (s + t)[i] != (s + t)[j]
    {
      if i < |s| && j >= |s| {
        assert (s + t)[i] in s && (s + t)[j] in t;
      }
    }
  }

  /** nearbyTiles as the source writes it: two nested offset loops pushing
      every tile that exists. */
  method NearbyTiles(b: Board, x: int, y: int) returns (tiles: seq<Pos>)
    ensures tiles == Nearby(b, x, y)
  {
    tiles := [];
    var xOffset := -1;
    while xOffset < 1
      invariant -1 <= xOffset <= 1
      invariant xOffset == -1 ==> tiles == []
      invariant xOffset == 0 ==> tiles == NearbyRow(b, x, y, -1)
      invariant xOffset == 1 ==> tiles == Nearby(b, x, y)
    {
      ghost var before := tiles;
      var yOffset := -1;
      while yOffset < 1
        invariant -1 <= yOffset <= 1
        invariant yOffset == -1 ==> tiles == before
        invariant yOffset == 0 ==> tiles == before + Probe(b, x + xOffset, y - 1)
        invariant yOffset == 1 ==> tiles == before + NearbyRow(b, x, y, xOffset)
      {
        if InBounds(b, x + xOffset, y + yOffset) {
          tiles := tiles + [Pos(x + xOffset, y + yOffset)];
        }
        yOffset := yOffset + 1;
      }
      xOffset := xOffset + 1;
    }
  }

  /** `adjacentTiles.filter(t => t.mine)`. */
  function MinesAmong(b: Board, ps: seq<Pos>): (r: seq<Pos>)
    requires AllInBounds(b, ps)
    ensures |r| == 0 <==> forall i | 0 <= i < |ps| :: !b[ps[i].x][ps[i].y].mine
  {
    if ps == [] then []
    else
      var rest := MinesAmong(b, ps[1..]);
      assert forall i | 1 <= i < |ps| :: ps[1..][i - 1] == ps[i];
      if b[ps[0].x][ps[0].y].mine then [ps[0]] + rest else rest
  }

  /** The targets of a cascade: tiles of the board without a mine. */
  ghost predicate SafeTargets(b: Board, ps: seq<Pos>)
  {
    forall i | 0 <= i < |ps| :: InBounds(b, ps[i].x, ps[i].y) && !b[ps[i].x][ps[i].y].mine
  }

  /** The only change a cascade may make: a hidden tile without a mine turns
      into a number; the layout stays, and every other tile is untouched. */
  ghost predicate Grows(b: Board, c: Board)
  {
    SameLayout(b, c) &&
    forall i, j | InBounds(b, i, j) ::
      c[i][j] == b[i][j] || (b[i][j] == Tile(false, Hidden) && c[i][j] == Tile(false, Number))
  }

  lemma GrowsTrans(b: Board, c: Board, d: Board)
    requires Grows(b, c) && Grows(c, d)
    ensures Grows(b, d)
  {
  }

  /** The board after revealTile(board, board[x][y]). Once the target is set
      to `number` the count of hidden tiles has dropped, which is what makes
      the recursion through RevealedAll terminate. */
  function Revealed(b: Board, x: int, y: int): (r: Board)
    requires InBounds(b, x, y)
    ensures SameLayout(b, r)
    ensures CountStatus(r, Hidden) <= CountStatus(b, Hidden)
    ensures b[x][y].status == Hidden ==> CountStatus(r, Hidden) < CountStatus(b, Hidden)
    ensures !b[x][y].mine ==> Grows(b, r)
    decreases CountStatus(b, Hidden), 0, 0
  {
    if b[x][y].status != Hidden then b
    else if b[x][y].mine then
      CountSet(b, x, y, Mine, Hidden);
      SetStatus(b, x, y, Mine)
    else
      var b1: Board := SetStatus(b, x, y, Number);
      CountSet(b, x, y, Number, Hidden);
      var ps := Nearby(b1, x, y);
      if |MinesAmong(b1, ps)| == 0 then RevealedAll(b1, ps) else b1
  }

  /** `adjacentTiles.forEach(revealTile.bind(null, board))`: reveal each
      target in turn, each on the board the previous reveals left. */
  function RevealedAll(b: Board, ps: seq<Pos>): (r: Board)
    requires SafeTargets(b, ps)
    ensures Grows(b, r)
    ensures CountStatus(r, Hidden) <= CountStatus(b, Hidden)
    decreases CountStatus(b, Hidden), 1, |ps|
  {
    if ps == [] then b
    else
      var b1 := RevealedAll(b, ps[..|ps| - 1]);
      var p := ps[|ps| - 1];
      var r: Board := Revealed(b1, p.x, p.y);
      GrowsTrans(b, b1, r);
      r
  }

  /** revealTile does nothing to a tile that is not hidden, and after it the
      target is never hidden; so a second reveal of the same tile is a no-op. */
  lemma RevealSettled(b: Board, x: int, y: int)
    requires InBounds(b, x, y)
    ensures b[x][y].status != Hidden ==> Revealed(b, x, y) == b
    ensures Revealed(b, x, y)[x][y].status != Hidden
    ensures Revealed(Revealed(b, x, y), x, y) == Revealed(b, x, y)
  {
    var r: Board := Revealed(b, x, y);
    if b[x][y].status == Hidden && !b[x][y].mine {
      var b1: Board := SetStatus(b, x, y, Number);
      CountSet(b, x, y, Number, Hidden);
      var ps := Nearby(b1, x, y);
      if |MinesAmong(b1, ps)| == 0 {
        assert r == RevealedAll(b1, ps);
        assert Grows(b1, r);
        assert r[x][y] == b1[x][y];
      }
    }
  }

  /** Revealing a hidden mine sets its status to `mine` and changes nothing
      else. */
  lemma RevealMineTile(b: Board, x: int, y: int)
    requires InBounds(b, x, y) && b[x][y].status == Hidden && b[x][y].mine
    ensures var r: Board := Revealed(b, x, y);
      SameLayout(b, r) && r[x][y].status == Mine &&
      forall i, j | InBounds(b, i, j) && (i != x || j != y) :: r[i][j] == b[i][j]
  {
  }

  /** After revealing each safe target in turn, none of them is hidden. */
  lemma {:induction false} RevealedAllSettles(b: Board, ps: seq<Pos>)
    requires SafeTargets(b, ps)
    ensures forall i | 0 <= i < |ps| :: RevealedAll(b, ps)[ps[i].x][ps[i].y].status != Hidden
  {
    if ps != [] {
      var front := ps[..|ps| - 1];
      var b1 := RevealedAll(b, front);
      var p := ps[|ps| - 1];
      var r: Board := Revealed(b1, p.x, p.y);
      assert r == RevealedAll(b, ps);
      RevealedAllSettles(b, front);
      RevealSettled(b1, p.x, p.y);
      forall i | 0 <= i < |ps|
        ensures r[ps[i].x][ps[i].y].status != Hidden
      {
        if i < |ps| - 1 {
          assert ps[i] == front[i];
          assert b1[ps[i].x][ps[i].y].status != Hidden;
        }
      }
    }
  }

  /** The lookup depends only on the board's dimensions. */
  lemma NearbySameShape(b: Board, c: Board, x: int, y: int)
    requires SameLayout(b, c)
    ensures Nearby(c, x, y) == Nearby(b, x, y)
  {
    assert NearbyRow(c, x, y, -1) == NearbyRow(b, x, y, -1);
    assert NearbyRow(c, x, y, 0) == NearbyRow(b, x, y, 0);
  }

  /** Revealing a hidden tile without a mine turns it into a number,
      changes only hidden safe tiles into numbers, and lowers the count of
      hidden tiles. */
  lemma RevealSafeTile(b: Board, x: int, y: int)
    requires InBounds(b, x, y) && b[x][y].status == Hidden && !b[x][y].mine
    ensures var r: Board := Revealed(b, x, y);
      r[x][y].status == Number && Grows(b, r) &&
      CountStatus(r, Hidden) < CountStatus(b, Hidden)
  {
    RevealSettled(b, x, y);
  }

  /** One step of revealTile on a hidden safe tile. */
  lemma RevealSafeUnfold(b: Board, x: int, y: int)
    requires InBounds(b, x, y) && b[x][y].status == Hidden && !b[x][y].mine
    ensures var b1 := SetStatus(b, x, y, Number);
      CountStatus(b1, Hidden) < CountStatus(b, Hidden) &&
      Revealed(b, x, y) == if |MinesAmong(b1, Nearby(b, x, y))| == 0 then RevealedAll(b1, Nearby(b, x, y)) else b1
  {
    var b1: Board := SetStatus(b, x, y, Number);
    CountSet(b, x, y, Number, Hidden);
    NearbySameShape(b, b1, x, y);
  }

  /** The first steps of revealTile, one branch at a time. */
  lemma RevealStep(b: Board, x: int, y: int)
    requires InBounds(b, x, y)
    ensures b[x][y].status != Hidden ==> Revealed(b, x, y) == b
    ensures b[x][y].status == Hidden && b[x][y].mine ==> Revealed(b, x, y) == SetStatus(b, x, y, Mine)
    ensures Consistent(b) ==> Consistent(SetStatus(b, x, y, if b[x][y].mine then Mine else Number))
  {
  }

  /** A lookup without mines is a valid list of cascade targets. */
  lemma SafeLookup(b: Board, x: int, y: int)
    requires |MinesAmong(b, Nearby(b, x, y))| == 0
    ensures SafeTargets(b, Nearby(b, x, y))
  {
    var ps := Nearby(b, x, y);
    forall i | 0 <= i < |ps| ensures InBounds(b, ps[i].x, ps[i].y) && !b[ps[i].x][ps[i].y].mine {
      assert ps[i] in ps;
    }
  }

  /** When a tile the lookup returns holds a mine, the reveal stops at the
      target: there is no cascade. */
  lemma RevealStopsNearMine(b: Board, x: int, y: int)
    requires InBounds(b, x, y) && b[x][y].status == Hidden && !b[x][y].mine
    requires exists p | p in Nearby(b, x, y) :: b[p.x][p.y].mine
    ensures Revealed(b, x, y) == SetStatus(b, x, y, Number)
  {
    var b1: Board := SetStatus(b, x, y, Number);
    var ps: seq<Pos> := Nearby(b, x, y);
    var p :| p in ps && b[p.x][p.y].mine;
    var i :| 0 <= i < |ps| && ps[i] == p;
    MineFound(b, b1, ps, i);
    RevealSafeUnfold(b, x, y);
  }

  lemma MineFound(b: Board, b1: Board, ps: seq<Pos>, i: int)
    requires SameLayout(b, b1) && AllInBounds(b, ps) && 0 <= i < |ps| && b[ps[i].x][ps[i].y].mine
    ensures AllInBounds(b1, ps) && |MinesAmong(b1, ps)| != 0
  {
    assert b1[ps[i].x][ps[i].y].mine;
  }

  /** When no tile the lookup returns holds a mine, the reveal is the
      target's step followed by revealing every tile of the lookup. */
  lemma RevealCascadeUnfold(b: Board, x: int, y: int)
    requires InBounds(b, x, y) && b[x][y].status == Hidden && !b[x][y].mine
    requires forall p | p in Nearby(b, x, y) :: !b[p.x][p.y].mine
    ensures SafeTargets(SetStatus(b, x, y, Number), Nearby(b, x, y))
    ensures Revealed(b, x, y) == RevealedAll(SetStatus(b, x, y, Number), Nearby(b, x, y))
  {
    var b1: Board := SetStatus(b, x, y, Number);
    var ps: seq<Pos> := Nearby(b, x, y);
    RevealSafeUnfold(b, x, y);
    forall i | 0 <= i < |ps|
      ensures InBounds(b1, ps[i].x, ps[i].y) && !b1[ps[i].x][ps[i].y].mine
    {
      assert ps[i] in ps;
    }
  }

  /** When no tile the lookup returns holds a mine, every hidden tile among
      them is revealed as a number in the same call. */
  lemma RevealCascades(b: Board, x: int, y: int)
    requires InBounds(b, x, y) && b[x][y].status == Hidden && !b[x][y].mine
    requires forall p | p in Nearby(b, x, y) :: !b[p.x][p.y].mine
    ensures forall p | p in Nearby(b, x, y) && b[p.x][p.y].status == Hidden ::
      Revealed(b, x, y)[p.x][p.y].status == Number
  {
    var ps: seq<Pos> := Nearby(b, x, y);
    RevealCascadeUnfold(b, x, y);
    RevealedAllSettles(SetStatus(b, x, y, Number), ps);
    SettledAreNumbers(b, Revealed(b, x, y), ps);
  }

  /** Tiles that a growth leaves settled were hidden only if they are now
      numbers. */
  lemma SettledAreNumbers(b: Board, r: Board, ps: seq<Pos>)
    requires Grows(b, r) && AllInBounds(b, ps)
    requires forall i | 0 <= i < |ps| :: r[ps[i].x][ps[i].y].status != Hidden
    ensures forall p | p in ps && b[p.x][p.y].status == Hidden :: r[p.x][p.y].status == Number
  {
    forall p | p in ps && b[p.x][p.y].status == Hidden
      ensures r[p.x][p.y].status == Number
    {
      var i :| 0 <= i < |ps| && ps[i] == p;
    }
  }

  /** The lookup never looks down or right: at the top-left corner it
      returns only the tile itself, so revealing a safe hidden tile there
      turns it into a number and reveals nothing else, whatever surrounds
      it. */
  lemma TopLeftRevealsAlone(b: Board)
    requires InBounds(b, 0, 0) && b[0][0].status == Hidden && !b[0][0].mine
    ensures Nearby(b, 0, 0) == [Pos(0, 0)]
    ensures Revealed(b, 0, 0) == SetStatus(b, 0, 0, Number)
  {
    var b1: Board := SetStatus(b, 0, 0, Number);
    assert Nearby(b, 0, 0) == [Pos(0, 0)];
    RevealSafeUnfold(b, 0, 0);
    assert |MinesAmong(b1, [Pos(0, 0)])| == 0;
    assert RevealedAll(b1, [Pos(0, 0)]) == Revealed(RevealedAll(b1, []), 0, 0);
  }

  /** What a cascade never does: it sets no tile to `mine`, leaves `marked`
      and `mine` tiles alone, only moves tiles from `hidden` to `number`,
      and keeps the number of marked tiles and the status invariant. */
  lemma GrowsFacts(b: Board, c: Board)
    requires Grows(b, c)
    ensures forall i, j | InBounds(b, i, j) :: c[i][j].status == Mine ==> b[i][j].status == Mine
    ensures forall i, j | InBounds(b, i, j) && b[i][j].status != Hidden :: c[i][j] == b[i][j]
    ensures forall i, j | InBounds(b, i, j) && c[i][j] != b[i][j] ::
      b[i][j].status == Hidden && c[i][j].status == Number
    ensures CountStatus(c, Marked) == CountStatus(b, Marked)
    ensures CountStatus(c, Mine) == CountStatus(b, Mine)
    ensures Consistent(b) ==> Consistent(c)
  {
    CountSame(b, c, Marked);
    CountSame(b, c, Mine);
  }

  /** Any reveal keeps the status invariant and the number of marked tiles. */
  lemma RevealKeeps(b: Board, x: int, y: int)
    requires InBounds(b, x, y)
    ensures var r: Board := Revealed(b, x, y);
      CountStatus(r, Marked) == CountStatus(b, Marked) &&
      (Consistent(b) ==> Consistent(r))
  {
    var r: Board := Revealed(b, x, y);
    if b[x][y].status == Hidden && b[x][y].mine {
      CountSet(b, x, y, Mine, Marked);
    } else if !b[x][y].mine {
      GrowsFacts(b, r);
    }
  }
}

/** Crossword grids and the player view of a stored grid: the stored grid keeps
    every letter, the player grid keeps only the black cells. */
module Grid {

  /** One cell of a grid as stored: a string, normally a single letter or the black marker. */
  type Cell = string
  type Row = seq<Cell>
  type Grid = seq<Row>

  /** The marker of a black (non-playable) cell. */
  const Black: Cell := "#"
  /** The value of a playable cell the player has not filled in yet. */
  const Blank: Cell := ""

  /** The player-side value of one stored cell. */
  function PlayerCell(c: Cell): (r: Cell)
    ensures r == Black <==> c == Black
    ensures r != Black ==> r == Blank
  {
    if c == Black then Black else Blank
  }

  /** `p` is a player view of `g`: same shape, a cell is black exactly where `g`
      has a black cell, and every other cell is blank. */
  ghost predicate IsPlayerViewOf(g: Grid, p: Grid) {
    && |p| == |g|
    && (forall i :: 0 <= i < |g| ==> |p[i]| == |g[i]|)
    && (forall i, j :: 0 <= i < |g| && 0 <= j < |g[i]| ==>
          (p[i][j] == Black <==> g[i][j] == Black) && (p[i][j] != Black ==> p[i][j] == Blank))
  }

  /** The player view of one stored row, cell by cell. */
  function PlayerRow(row: Row): (r: Row)
    ensures |r| == |row|
    ensures forall j :: 0 <= j < |row| ==> (r[j] == Black <==> row[j] == Black)
    ensures forall j :: 0 <= j < |row| ==> r[j] != Black ==> r[j] == Blank
  {
    if |row| == 0 then []
    else PlayerRow(row[..|row|-1]) + [PlayerCell(row[|row|-1])]
  }

  /** The grid sent to a player: the stored grid with every non-black cell blanked. */
  function PlayerGrid(g: Grid): (r: Grid)
    ensures IsPlayerViewOf(g, r)
  {
    if |g| == 0 then []
    else PlayerGrid(g[..|g|-1]) + [PlayerRow(g[|g|-1])]
  }

  /** The cell rule fixes the player grid completely: any two grids that follow it for
      the same stored grid are equal. So every place that applies the rule computes the same grid. */
  lemma PlayerViewIsUnique(g: Grid, p: Grid, q: Grid)
    requires IsPlayerViewOf(g, p) && IsPlayerViewOf(g, q)
    ensures p == q
  {
    forall i | 0 <= i < |g| ensures p[i] == q[i] {
      forall j | 0 <= j < |g[i]| ensures p[i][j] == q[i][j] {
        if g[i][j] == Black {
          assert p[i][j] == Black && q[i][j] == Black;
        } else {
          assert p[i][j] == Blank && q[i][j] == Blank;
        }
      }
    }
  }

  /** Projecting a grid that is already a player grid changes nothing. */
  lemma PlayerGridIdempotent(g: Grid)
    ensures PlayerGrid(PlayerGrid(g)) == PlayerGrid(g)
  {
    var p := PlayerGrid(g);
    assert IsPlayerViewOf(p, p);
    PlayerViewIsUnique(p, PlayerGrid(p), p);
  }
}

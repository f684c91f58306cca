/**
 * The rules both engines share, whatever the board is stored in: the
 * points a pair is worth, the time each level starts with, when a pair
 * may be removed, and how the board grows from level to level.
 */
module Rules {
  import opened Grid
  import opened PathSearch

  /** Points for each pair removed. */
  const MATCH_POINTS: int := 10
  /** Seconds on the clock at level 1, and the extra seconds each later level adds. */
  const BASE_TIME: int := 60
  const ADDITIONAL_TIME: int := 30

  /** The time a level starts with. */
  function LevelTime(level: int): (t: int)
    ensures level >= 1 ==> t >= BASE_TIME
  {
    BASE_TIME + (level - 1) * ADDITIONAL_TIME
  }

  /** Each level grants 30 seconds more than the one before; the second level starts with 90. */
  lemma LevelTimeGrows(level: int)
    ensures LevelTime(level + 1) == LevelTime(level) + ADDITIONAL_TIME
    ensures LevelTime(1) == 60 && LevelTime(2) == 90
  {
  }

  /** The second click removes the pair: the same icon on two cells joined by a corridor of empty cells. */
  ghost predicate Removable(g: Grid, q: Pos, p: Pos)
    requires InBounds(|g|, q) && InBounds(|g|, p)
  {
    Matches(g, q, p) && Connected(g, q, p)
  }

  /**
   * The order of the two clicks does not matter: the pair is removable
   * either way round, and removing it leaves the same board.
   */
  lemma RemovableSymmetric(g: Grid, q: Pos, p: Pos)
    requires InBounds(|g|, q) && InBounds(|g|, p)
    ensures Removable(g, q, p) <==> Removable(g, p, q)
    ensures Cleared(g, q, p) == Cleared(g, p, q)
  {
    ConnectedSymmetric(g, q, p);
    GridExt(Cleared(g, q, p), Cleared(g, p, q));
  }

  /** The board size of a level is even. */
  lemma LevelSizeEven(size: int, level: int)
    requires size == 2 * level + 2
    ensures size % 2 == 0
  {
  }

  /** Growing a size by two keeps its parity; growing it by three flips it. */
  lemma EvenAfterGrowth(n: int, m: int)
    requires m == if (n + 2) % 2 != 0 then n + 3 else n + 2
    ensures m % 2 == 0 && n + 2 <= m <= n + 3
    ensures n % 2 == 0 ==> m == n + 2
  {
  }
}

/**
 * The Onet engine whose board is a map from points to icon ids
 * (OnetGameWithHashMap.java).  The rules are those of the array engine;
 * what differs is the board: a lookup may find no entry at all, and the
 * path search, the reshuffle and the button refresh of nextLevel all
 * treat a missing entry like a removed tile.  The model reads the map through a grid view in
 * which a missing entry shows EMPTY, and proves the same properties of
 * that view as of the array board.
 */
module MapGame {
  import opened Shuffle
  import opened Grid
  import opened PathSearch
  import opened Rules

  /** What a lookup of p finds: its icon id, or EMPTY for a removed tile or a missing entry. */
  function Cell(m: map<Pos, int>, p: Pos): int {
    if p in m then m[p] else EMPTY
  }

  /** The lookups of the first k cells of row x of m. */
  function RowOf(m: map<Pos, int>, x: int, k: nat): (r: seq<int>)
    ensures |r| == k
    ensures forall y :: 0 <= y < k ==> r[y] == Cell(m, (x, y))
  {
    if k == 0 then [] else RowOf(m, x, k - 1) + [Cell(m, (x, k - 1))]
  }

  /** The first k rows, each n cells wide, of lookups into m. */
  function RowsOf(m: map<Pos, int>, k: nat, n: nat): (g: seq<seq<int>>)
    ensures |g| == k
    ensures forall x :: 0 <= x < k ==> g[x] == RowOf(m, x, n)
  {
    if k == 0 then [] else RowsOf(m, k - 1, n) + [RowOf(m, k - 1, n)]
  }

  /** The n x n grid of lookups into m. */
  function ViewOf(m: map<Pos, int>, n: nat): (g: Grid)
    ensures |g| == n
    ensures forall x, y :: 0 <= x < n && 0 <= y < n ==> g[x][y] == Cell(m, (x, y))
    ensures forall x :: 0 <= x < n ==> g[x] == RowOf(m, x, n)
  {
    RowsOf(m, n, n)
  }

  /** Giving a value to an entry at or past column k leaves the first k lookups of its row alone. */
  lemma {:induction false} RowOfPast(m: map<Pos, int>, x: int, k: nat, y: int, v: int)
    requires k <= y
    ensures RowOf(m[(x, y) := v], x, k) == RowOf(m, x, k)
  {
    if k > 0 {
      RowOfPast(m, x, k - 1, y, v);
    }
  }

  /** Two maps with the same lookups along row x give that row the same view. */
  lemma RowOfFrame(m: map<Pos, int>, m': map<Pos, int>, x: int, n: nat)
    requires forall y :: 0 <= y < n ==> Cell(m, (x, y)) == Cell(m', (x, y))
    ensures RowOf(m, x, n) == RowOf(m', x, n)
  {
    assert forall c :: 0 <= c < n ==> RowOf(m, x, n)[c] == RowOf(m', x, n)[c];
  }

  /** Changing entries of row i only, within n columns, leaves the other rows' lookups alone. */
  lemma OtherRowsOf(m: map<Pos, int>, m': map<Pos, int>, i: int, n: nat)
    requires m'.Keys == m.Keys
    requires forall q :: q in m' && !(q.0 == i && 0 <= q.1 < n) ==> m'[q] == m[q]
    ensures forall x :: x != i ==> RowOf(m', x, n) == RowOf(m, x, n)
  {
    forall x | x != i
      ensures RowOf(m', x, n) == RowOf(m, x, n)
    {
      RowOfFrame(m', m, x, n);
    }
  }

  /**
   * One round of the placement loop over the rows of the view g of m0:
   * once row i of m has been refilled into m', the loop's progress holds
   * for i + 1 rows.
   */
  lemma PlacedRow(g: Grid, rows: seq<seq<int>>, i: nat, vals: seq<int>, visible: seq<int>, rest: seq<int>,
                  m0: map<Pos, int>, m: map<Pos, int>, m': map<Pos, int>)
    requires Placing(g, rows, i, vals, visible) && i < |g|
    requires forall x :: 0 <= x < i ==> RowOf(m, x, |g|) == rows[x]
    requires m.Keys == m0.Keys
    requires forall q :: q in m && !(InBounds(|g|, q) && q.0 < i) ==> m[q] == m0[q]
    requires RowOf(m', i, |g|) == Refill(g[i], visible)
    requires m'.Keys == m.Keys
    requires forall q :: q in m' && !(q.0 == i && 0 <= q.1 < |g|) ==> m'[q] == m[q]
    requires rest == Drop(visible, |Occupied(g[i])|) && EMPTY !in rest
    ensures Placing(g, rows + [Refill(g[i], visible)], i + 1, vals, rest)
    ensures forall x :: 0 <= x < i + 1 ==> RowOf(m', x, |g|) == (rows + [Refill(g[i], visible)])[x]
    ensures forall q :: q in m' && !(InBounds(|g|, q) && q.0 < i + 1) ==> m'[q] == m0[q]
  {
    OtherRowsOf(m, m', i, |g|);
    PlacingStep(g, rows, i, vals, visible, Refill(g[i], visible), rest);
  }

  /**
   * One round of the placement loop along row i: cell j of m, which still
   * holds src[j], is refilled into m' from what is left of visible, and
   * the loop's progress then holds for j + 1 cells.
   */
  lemma PlacedCell(src: seq<int>, visible: seq<int>, i: int, j: nat, k: nat, rest: seq<int>, k': nat, rest': seq<int>,
                   m0: map<Pos, int>, m: map<Pos, int>, m': map<Pos, int>)
    requires j < |src|
    requires RowOf(m, i, j) == Refill(src[..j], visible)
    requires forall c :: j <= c < |src| ==> Cell(m, (i, c)) == src[c]
    requires m.Keys == m0.Keys
    requires forall q :: q in m && !(q.0 == i && 0 <= q.1 < j) ==> m[q] == m0[q]
    requires k == |Occupied(src[..j])| && rest == Drop(visible, k) && EMPTY !in rest
    requires k' == k + if Cell(m, (i, j)) == EMPTY then 0 else 1
    requires m' == (if (i, j) in m && m[(i, j)] != EMPTY && rest != [] then m[(i, j) := rest[0]] else m)
    requires rest' == (if (i, j) in m && m[(i, j)] != EMPTY && rest != [] then rest[1..] else rest)
    ensures RowOf(m', i, j + 1) == Refill(src[..j + 1], visible)
    ensures forall c :: j + 1 <= c < |src| ==> Cell(m', (i, c)) == src[c]
    ensures m'.Keys == m0.Keys
    ensures forall q :: q in m' && !(q.0 == i && 0 <= q.1 < j + 1) ==> m'[q] == m0[q]
    ensures k' == |Occupied(src[..j + 1])| && rest' == Drop(visible, k') && EMPTY !in rest'
  {
    RefillCell(src, j, visible, k, rest);
    if (i, j) in m && m[(i, j)] != EMPTY && rest != [] {
      RowOfPast(m, i, j, j, rest[0]);
    }
  }

  /** The view whose rows are given row by row. */
  lemma ViewOfRows(m: map<Pos, int>, n: nat, rows: seq<seq<int>>)
    requires |rows| == n
    requires forall x :: 0 <= x < n ==> RowOf(m, x, n) == rows[x]
    ensures ViewOf(m, n) == rows
  {
  }

  /**
   * The search's test for entering a cell (no entry, EMPTY, or the target)
   * is Passable on the view.
   */
  lemma MapPassable(m: map<Pos, int>, n: nat, p: Pos, end: Pos)
    requires InBounds(n, p)
    ensures Passable(ViewOf(m, n), p, end) <==> (p !in m || m[p] == EMPTY || p == end)
  {
  }

  /** The entries of m are exactly the cells of an n x n board. */
  ghost predicate Covers(m: map<Pos, int>, n: int) {
    forall q {:trigger InBounds(n, q)} :: q in m <==> InBounds(n, q)
  }

  /**
   * Shuffling keeps the invariant of a board: the same entries, the same
   * icons and the same empty cells keep it paired, and a tile that was
   * selected is still a tile.
   */
  lemma ShuffledBoardValid(m0: map<Pos, int>, m1: map<Pos, int>, n: nat, iconCount: int, click: Option<Pos>)
    requires Covers(m0, n) && m1.Keys == m0.Keys
    requires Paired(ViewOf(m0, n)) && IconsInRange(ViewOf(m0, n), iconCount)
    requires multiset(Occupied(Flatten(ViewOf(m1, n)))) == multiset(Occupied(Flatten(ViewOf(m0, n))))
    requires forall p :: InBounds(n, p) ==> (At(ViewOf(m1, n), p) == EMPTY <==> At(ViewOf(m0, n), p) == EMPTY)
    requires click.Some? ==> InBounds(n, click.value) && At(ViewOf(m0, n), click.value) != EMPTY
    ensures Covers(m1, n) && Paired(ViewOf(m1, n)) && IconsInRange(ViewOf(m1, n), iconCount)
    ensures click.Some? ==> At(ViewOf(m1, n), click.value) != EMPTY
  {
    SameIconsKeepInvariant(ViewOf(m0, n), ViewOf(m1, n), iconCount);
  }

  /** Putting EMPTY at two cells of the board clears those two cells of its view. */
  lemma ClearedView(m: map<Pos, int>, n: nat, p1: Pos, p2: Pos)
    requires InBounds(n, p1) && InBounds(n, p2)
    ensures ViewOf(m[p1 := EMPTY][p2 := EMPTY], n) == Cleared(ViewOf(m, n), p1, p2)
    ensures Covers(m, n) ==> Covers(m[p1 := EMPTY][p2 := EMPTY], n)
  {
    var v, w := ViewOf(m[p1 := EMPTY][p2 := EMPTY], n), Cleared(ViewOf(m, n), p1, p2);
    forall q | InBounds(n, q)
      ensures At(v, q) == At(w, q)
    {
      assert At(v, q) == Cell(m[p1 := EMPTY][p2 := EMPTY], q);
    }
    GridExt(v, w);
  }

  class OnetGameWithHashMap {
    /** The number of distinct icons loaded (18 in the shipped game). */
    const iconCount: int
    var gridSize: int
    var board: map<Pos, int>
    var score: int
    var level: int
    var timeRemaining: int
    /** Set when the clock has run out; the program then exits. */
    var gameOver: bool
    var firstClick: Option<Pos>

    /** The board as a gridSize x gridSize grid. */
    function View(): (g: Grid)
      reads this`board, this`gridSize
      requires gridSize >= 0
      ensures g == ViewOf(board, gridSize)
    {
      ViewOf(board, gridSize)
    }

    /**
     * The game's invariant: the map has an entry for every cell of the
     * gridSize x gridSize board and for nothing else; the board is two
     * cells wider for each level; every icon on it can still be cleared
     * pair by pair; a pending first click is a tile still on the board.
     */
    ghost predicate Valid()
      reads this
    {
      ValidBoard()
      && (firstClick.Some? ==> InBounds(gridSize, firstClick.value) && At(View(), firstClick.value) != EMPTY)
    }

    /** Valid, leaving out the pending first click. */
    ghost predicate ValidBoard()
      reads this`level, this`gridSize, this`score, this`board
    {
      level >= 1 && gridSize == 2 * level + 2
      && Covers(board, gridSize)
      && iconCount >= 1 && score >= 0
      && Paired(View()) && IconsInRange(View(), iconCount)
    }

    /** A new game: level 1 on a 4 x 4 board, score 0, 60 seconds, no tile selected. */
    constructor (numIcons: int, rnd: nat -> nat)
      requires numIcons >= 1
      ensures Valid() && iconCount == numIcons
      ensures gridSize == 4 && level == 1 && score == 0 && timeRemaining == 60
      ensures firstClick == None && !gameOver
      ensures Full(View(), iconCount)
    {
      iconCount := numIcons;
      gridSize := 4;
      board := map[];
      new;
      InitializeBoard(rnd);
      DealtBoard(View(), iconCount, rnd, EMPTY, 2);
      score := 0;
      level := 1;
      timeRemaining := BASE_TIME;
      gameOver := false;
      firstClick := None;
    }

    /**
     * initializeBoard: the map is cleared; the list holding i % iconCount
     * twice for each of the (gridSize * gridSize) / 2 pairs is shuffled and
     * dealt into the cells row by row; a cell left over when the list runs
     * out is put as EMPTY.
     */
    method InitializeBoard(rnd: nat -> nat)
      requires iconCount >= 1 && gridSize >= 0
      modifies this`board
      ensures Covers(board, gridSize)
      ensures Dealt(View(), iconCount, rnd, EMPTY)
    {
      board := map[];
      var positions: seq<int> := [];
      var numPairs := (gridSize * gridSize) / 2;
      for i := 0 to numPairs
        invariant positions == Pairs(i, iconCount)
      {
        positions := positions + [i % iconCount, i % iconCount];
      }
      positions := Shuffled(positions, rnd);
      DealBoard(positions);
      FlattenLength(View(), gridSize);
    }

    /**
     * The dealing loop of initializeBoard: every cell, row by row, is put
     * with the next entry of the deck, or with EMPTY once it has run out.
     */
    method DealBoard(deck: seq<int>)
      requires gridSize >= 0 && board == map[]
      modifies this`board
      ensures Covers(board, gridSize)
      ensures |deck| <= gridSize * gridSize ==> Flatten(View()) == Padded(deck, gridSize * gridSize, EMPTY)
    {
      var n := gridSize;
      var positions := deck;
      ghost var rows: seq<seq<int>> := [];
      for i := 0 to n
        invariant |rows| == i && forall r :: 0 <= r < i ==> |rows[r]| == n
        invariant forall q :: q in board <==> InBounds(n, q) && q.0 < i
        invariant forall x, y :: 0 <= x < i && 0 <= y < n ==> Cell(board, (x, y)) == rows[x][y]
        invariant |deck| <= n * n ==> Dealing(deck, Flatten(rows), positions, EMPTY)
      {
        ghost var row;
        positions, row := DealRow(i, positions, deck, Flatten(rows));
        FlattenSnoc(rows, row);
        rows := rows + [row];
      }
      GridExt(View(), rows);
      FlattenLength(rows, n);
      if |deck| <= n * n {
        DealDone(deck, Flatten(rows), positions, EMPTY);
      }
    }

    /** One row of the dealing loop: the cells of row i are put with the next entries of the deck, or EMPTY. */
    method DealRow(i: int, deck: seq<int>, ghost all: seq<int>, ghost done: seq<int>)
        returns (rest: seq<int>, ghost row: seq<int>)
      requires 0 <= i < gridSize
      requires forall q :: q in board <==> InBounds(gridSize, q) && q.0 < i
      modifies this`board
      ensures |row| == gridSize
      ensures forall q :: q in board <==> InBounds(gridSize, q) && q.0 <= i
      ensures forall c :: 0 <= c < gridSize ==> Cell(board, (i, c)) == row[c]
      ensures forall q :: q in old(board) ==> Cell(board, q) == Cell(old(board), q)
      ensures Dealing(all, done, deck, EMPTY) ==> Dealing(all, done + row, rest, EMPTY)
    {
      var n := gridSize;
      rest := deck;
      row := [];
      for j := 0 to n
        invariant |row| == j
        invariant forall q :: q in board <==> InBounds(n, q) && (q.0 < i || (q.0 == i && q.1 < j))
        invariant forall c :: 0 <= c < j ==> Cell(board, (i, c)) == row[c]
        invariant forall q :: q in old(board) ==> Cell(board, q) == Cell(old(board), q)
        invariant Dealing(all, done, deck, EMPTY) ==> Dealing(all, done + row, rest, EMPTY)
      {
        if Dealing(all, done, deck, EMPTY) {
          DealStep(all, done + row, rest, EMPTY);
        }
        if rest != [] {
          board := board[(i, j) := rest[0]];
          rest := rest[1..];
        } else {
          board := board[(i, j) := EMPTY];
        }
        assert done + row + [board[(i, j)]] == done + (row + [board[(i, j)]]);
        row := row + [board[(i, j)]];
      }
    }

    /**
     * isMatch: two different points whose entries hold the same icon.
     * Looking up a first point with no entry fails in the source, so the
     * model requires one; a missing second entry only gives false.
     */
    function IsMatch(p1: Pos, p2: Pos): (r: bool)
      reads this`board, this`gridSize
      requires p1 != p2 ==> p1 in board
      ensures r ==> p1 != p2 && p2 in board
      ensures gridSize >= 0 && Covers(board, gridSize) && InBounds(gridSize, p1) && InBounds(gridSize, p2) ==>
        (r <==> Matches(View(), p1, p2))
    {
      if p1 == p2 then false
      else p2 in board && board[p1] == board[p2]
    }

    /** removeImages: both points are put with EMPTY; every other entry stays as it was. */
    method RemoveImages(p1: Pos, p2: Pos)
      modifies this`board
      ensures board.Keys == old(board.Keys) + {p1, p2}
      ensures forall q :: q in board && q != p1 && q != p2 ==> board[q] == old(board)[q]
      ensures board[p1] == EMPTY && board[p2] == EMPTY
      ensures gridSize >= 0 && InBounds(gridSize, p1) && InBounds(gridSize, p2) ==>
        View() == Cleared(old(View()), p1, p2)
      ensures Covers(old(board), gridSize) && InBounds(gridSize, p1) && InBounds(gridSize, p2) ==>
        Covers(board, gridSize)
    {
      if gridSize >= 0 && InBounds(gridSize, p1) && InBounds(gridSize, p2) {
        ClearedView(board, gridSize, p1, p2);
      }
      board := board[p1 := EMPTY][p2 := EMPTY];
    }

    /**
     * isBoardEmpty: no tile is left.  The source walks the buttons and asks
     * whether any is still visible; a button is visible exactly while its
     * entry is not EMPTY, so the model walks the entries of the board.
     */
    method IsBoardEmpty() returns (empty: bool)
      ensures empty <==> forall q :: q in board ==> board[q] == EMPTY
      ensures gridSize >= 0 && Covers(board, gridSize) ==>
        (empty <==> AllEmpty(View())) && (empty <==> Occupied(Flatten(View())) == [])
    {
      var keys := board.Keys;
      while keys != {}
        invariant keys <= board.Keys
        invariant forall q :: q in board && q !in keys ==> board[q] == EMPTY
        decreases keys
      {
        var q :| q in keys;
        if board[q] != EMPTY {
          empty := false;
          AllEmptyView();
          return;
        }
        keys := keys - {q};
      }
      empty := true;
      AllEmptyView();
    }

    /** How a lookup of q decides whether the view is all EMPTY. */
    lemma AllEmptyView()
      ensures gridSize >= 0 && Covers(board, gridSize) ==>
        (AllEmpty(View()) <==> forall p :: p in board ==> board[p] == EMPTY)
        && (AllEmpty(View()) <==> Occupied(Flatten(View())) == [])
    {
      if gridSize >= 0 && Covers(board, gridSize) {
        EmptyIffNoIcons(View());
        if AllEmpty(View()) {
          forall p | p in board
            ensures board[p] == EMPTY
          {
            assert InBounds(gridSize, p);
            assert View()[p.0][p.1] == Cell(board, p);
          }
        }
        if forall p :: p in board ==> board[p] == EMPTY {
          forall x, y | 0 <= x < gridSize && 0 <= y < gridSize
            ensures View()[x][y] == EMPTY
          {
          }
        }
      }
    }

    /**
     * nextLevel: the board grows by two (and to the next even size if it
     * was odd), the level goes up by one, the clock is reset to the new
     * level's time and a new board is generated.
     */
    method NextLevel(rnd: nat -> nat)
      requires iconCount >= 1 && gridSize >= 0
      modifies this`gridSize, this`level, this`timeRemaining, this`board
      ensures gridSize % 2 == 0 && old(gridSize) + 2 <= gridSize <= old(gridSize) + 3
      ensures old(gridSize) % 2 == 0 ==> gridSize == old(gridSize) + 2
      ensures level == old(level) + 1
      ensures timeRemaining == LevelTime(level)
      ensures Covers(board, gridSize)
      ensures Dealt(View(), iconCount, rnd, EMPTY)
    {
      ghost var size := gridSize;
      gridSize := gridSize + 2;
      if gridSize % 2 != 0 {
        gridSize := gridSize + 1;
      }
      EvenAfterGrowth(size, gridSize);
      level := level + 1;
      timeRemaining := BASE_TIME + (level - 1) * ADDITIONAL_TIME;
      InitializeBoard(rnd);
    }

    /** One second of the level clock; the game is over the first time it reaches zero or less. */
    method Tick()
      requires !gameOver
      modifies this`timeRemaining, this`gameOver
      ensures timeRemaining == old(timeRemaining) - 1
      ensures gameOver <==> timeRemaining <= 0
    {
      timeRemaining := timeRemaining - 1;
      if timeRemaining <= 0 {
        gameOver := true;
      }
    }

    /**
     * shuffleBoard: the icons on the board are collected row by row,
     * shuffled, and put back, in the same order, on the points whose entry
     * holds an icon, for as long as the shuffled list has a next element.
     * Entries are neither added nor removed, empty cells stay empty and the
     * same icons remain, so the board stays paired and a pending first click
     * stays on a tile.  Once the time is up the game has ended and the
     * button does nothing.
     */
    method ShuffleBoard(rnd: nat -> nat)
      requires Valid()
      modifies this`board
      ensures Valid()
      ensures old(gameOver) ==> board == old(board)
      ensures board.Keys == old(board.Keys)
      ensures !old(gameOver) ==>
        Flatten(View()) == Refill(old(Flatten(View())), Shuffled(Occupied(old(Flatten(View()))), rnd))
      ensures forall p :: InBounds(gridSize, p) ==> (At(View(), p) == EMPTY <==> At(old(View()), p) == EMPTY)
      ensures multiset(Occupied(Flatten(View()))) == multiset(Occupied(old(Flatten(View()))))
    {
      if gameOver {
        return;
      }
      ghost var m0 := board;
      ShuffleTiles(rnd);
      ShuffledBoardValid(m0, board, gridSize, iconCount, firstClick);
    }

    /** The two loops of shuffleBoard, on any board: entries outside the grid are left alone. */
    method ShuffleTiles(rnd: nat -> nat)
      requires gridSize >= 0
      modifies this`board
      ensures board.Keys == old(board.Keys)
      ensures forall q :: q in board && !InBounds(gridSize, q) ==> board[q] == old(board)[q]
      ensures Flatten(View()) == Refill(old(Flatten(View())), Shuffled(Occupied(old(Flatten(View()))), rnd))
      ensures forall p :: InBounds(gridSize, p) ==> (At(View(), p) == EMPTY <==> At(old(View()), p) == EMPTY)
      ensures multiset(Occupied(Flatten(View()))) == multiset(Occupied(old(Flatten(View()))))
    {
      var visibleIcons := CollectIcons();
      ghost var icons := visibleIcons;
      visibleIcons := Shuffled(visibleIcons, rnd);
      ShuffledPermutes(icons, rnd);
      assert EMPTY !in multiset(icons);
      assert EMPTY !in multiset(visibleIcons);
      PlaceIcons(visibleIcons);
      RefillOccupied(old(Flatten(View())), visibleIcons);
      RefillKeepsEmpty(old(View()), View(), visibleIcons);
    }

    /** The first loop of shuffleBoard: the icons on the board, in row-major order. */
    method CollectIcons() returns (icons: seq<int>)
      requires gridSize >= 0
      ensures icons == Occupied(Flatten(View()))
    {
      ghost var g := View();
      var n := gridSize;
      icons := [];
      for i := 0 to n
        invariant icons == Occupied(Flatten(g[..i]))
      {
        CollectRowStart(g, i);
        for j := 0 to n
          invariant icons == Occupied(Flatten(g[..i]) + g[i][..j])
        {
          CollectStep(g, i, j);
          var point := (i, j);
          if point in board && board[point] != EMPTY {
            icons := icons + [board[point]];
          }
        }
        CollectRowEnd(g, i);
      }
      assert g[..n] == g;
    }

    /**
     * The second loop of shuffleBoard: the points whose entry holds an
     * icon, in row-major order, take the values of vals one by one while
     * any are left.
     */
    method PlaceIcons(vals: seq<int>)
      requires gridSize >= 0 && EMPTY !in vals
      modifies this`board
      ensures board.Keys == old(board.Keys)
      ensures forall q :: q in board && !InBounds(gridSize, q) ==> board[q] == old(board)[q]
      ensures Flatten(View()) == Refill(old(Flatten(View())), vals)
    {
      ghost var g := View();
      var n := gridSize;
      var visible := vals;
      ghost var rows: seq<seq<int>> := [];
      for i := 0 to n
        invariant Placing(g, rows, i, vals, visible)
        invariant board.Keys == old(board.Keys)
        invariant forall x :: 0 <= x < i ==> RowOf(board, x, n) == rows[x]
        invariant forall q :: q in board && !(InBounds(n, q) && q.0 < i) ==> board[q] == old(board)[q]
      {
        RowOfFrame(old(board), board, i, n);
        ghost var before := board;
        var rest := PlaceRow(i, visible, g[i]);
        PlacedRow(g, rows, i, vals, visible, rest, old(board), before, board);
        rows := rows + [Refill(g[i], visible)];
        visible := rest;
      }
      PlacingDone(g, rows, vals, visible);
      ViewOfRows(board, n, rows);
    }

    /**
     * One row of the placement loop: the points of row i whose entry, src,
     * holds an icon take the next values of visible while any are left.
     */
    method PlaceRow(i: int, visible: seq<int>, ghost src: seq<int>) returns (rest: seq<int>)
      requires gridSize == |src| && 0 <= i < |src|
      requires RowOf(board, i, |src|) == src
      requires EMPTY !in visible
      modifies this`board
      ensures RowOf(board, i, |src|) == Refill(src, visible)
      ensures board.Keys == old(board.Keys)
      ensures forall q :: q in board && !(q.0 == i && 0 <= q.1 < |src|) ==> board[q] == old(board)[q]
      ensures rest == Drop(visible, |Occupied(src)|) && EMPTY !in rest
    {
      var n := gridSize;
      rest := visible;
      ghost var k := 0;
      for j := 0 to n
        invariant RowOf(board, i, j) == Refill(src[..j], visible)
        invariant forall c :: j <= c < n ==> Cell(board, (i, c)) == src[c]
        invariant board.Keys == old(board.Keys)
        invariant forall q :: q in board && !(q.0 == i && 0 <= q.1 < j) ==> board[q] == old(board)[q]
        invariant k == |Occupied(src[..j])| && rest == Drop(visible, k) && EMPTY !in rest
      {
        ghost var before, k0, rest0 := board, k, rest;
        var point := (i, j);
        k := k + if Cell(board, point) == EMPTY then 0 else 1;
        if point in board && board[point] != EMPTY && rest != [] {
          board := board[point := rest[0]];
          rest := rest[1..];
        }
        PlacedCell(src, visible, i, j, k0, rest0, k, rest, old(board), before, board);
      }
      assert src[..n] == src;
    }

    /** isConnectable: a corridor of empty cells, or cells with no entry, joins the two points. */
    method IsConnectable(p1: Pos, p2: Pos) returns (r: bool)
      requires gridSize >= 0 && InBounds(gridSize, p1) && InBounds(gridSize, p2)
      ensures r <==> Connected(View(), p1, p2)
    {
      var path := FindPath(View(), p1, p2);
      r := path != [];
    }

    /**
     * actionPerformed, for a click on a tile still on the board (removed
     * tiles are hidden buttons and cannot be clicked).  A first click is
     * remembered.  A second click removes both tiles and scores 10 when
     * they match and a corridor joins them, moving on to the next level
     * once the board is empty; otherwise it changes nothing.  Either way
     * the remembered click is then forgotten.  Once the time is up the
     * game has ended and a click does nothing.
     */
    method Click(p: Pos, rnd: nat -> nat)
      requires Valid() && InBounds(gridSize, p) && At(View(), p) != EMPTY
      modifies this`score, this`gridSize, this`level, this`timeRemaining, this`board, this`firstClick
      ensures Valid()
      ensures gameOver == old(gameOver)
      ensures old(gameOver) ==>
        firstClick == old(firstClick) && board == old(board)
        && score == old(score) && level == old(level) && gridSize == old(gridSize) && timeRemaining == old(timeRemaining)
      ensures !old(gameOver) && old(firstClick).None? ==>
        firstClick == Some(p) && board == old(board)
        && score == old(score) && level == old(level) && gridSize == old(gridSize) && timeRemaining == old(timeRemaining)
      ensures !old(gameOver) && old(firstClick).Some? ==> firstClick == None
      ensures (!old(gameOver) && old(firstClick).Some? && !Removable(old(View()), old(firstClick).value, p)) ==>
        board == old(board)
        && score == old(score) && level == old(level) && gridSize == old(gridSize) && timeRemaining == old(timeRemaining)
      ensures (!old(gameOver) && old(firstClick).Some? && Removable(old(View()), old(firstClick).value, p)) ==>
        score == old(score) + MATCH_POINTS
      ensures (!old(gameOver) && old(firstClick).Some? && Removable(old(View()), old(firstClick).value, p)
        && !AllEmpty(Cleared(old(View()), old(firstClick).value, p))) ==>
        board.Keys == old(board.Keys) && View() == Cleared(old(View()), old(firstClick).value, p)
        && level == old(level) && gridSize == old(gridSize) && timeRemaining == old(timeRemaining)
      ensures (!old(gameOver) && old(firstClick).Some? && Removable(old(View()), old(firstClick).value, p)
        && AllEmpty(Cleared(old(View()), old(firstClick).value, p))) ==>
        level == old(level) + 1 && gridSize == old(gridSize) + 2 && timeRemaining == LevelTime(level)
        && Full(View(), iconCount)
    {
      if !gameOver {
        Select(p, rnd);
      }
    }

    /** actionPerformed while the game runs: a first click is remembered, a second one is tried as a pair. */
    method Select(p: Pos, rnd: nat -> nat)
      requires Valid() && InBounds(gridSize, p) && At(View(), p) != EMPTY
      modifies this`score, this`gridSize, this`level, this`timeRemaining, this`board, this`firstClick
      ensures Valid()
      ensures old(firstClick).None? ==>
        firstClick == Some(p) && board == old(board)
        && score == old(score) && level == old(level) && gridSize == old(gridSize) && timeRemaining == old(timeRemaining)
      ensures old(firstClick).Some? ==> firstClick == None
      ensures (old(firstClick).Some? && !Removable(old(View()), old(firstClick).value, p)) ==>
        board == old(board)
        && score == old(score) && level == old(level) && gridSize == old(gridSize) && timeRemaining == old(timeRemaining)
      ensures (old(firstClick).Some? && Removable(old(View()), old(firstClick).value, p)) ==>
        score == old(score) + MATCH_POINTS
      ensures (old(firstClick).Some? && Removable(old(View()), old(firstClick).value, p)
        && !AllEmpty(Cleared(old(View()), old(firstClick).value, p))) ==>
        board.Keys == old(board.Keys) && View() == Cleared(old(View()), old(firstClick).value, p)
        && level == old(level) && gridSize == old(gridSize) && timeRemaining == old(timeRemaining)
      ensures (old(firstClick).Some? && Removable(old(View()), old(firstClick).value, p)
        && AllEmpty(Cleared(old(View()), old(firstClick).value, p))) ==>
        level == old(level) + 1 && gridSize == old(gridSize) + 2 && timeRemaining == LevelTime(level)
        && Full(View(), iconCount)
    {
      if firstClick.None? {
        firstClick := Some(p);
      } else {
        var q := firstClick.value;
        firstClick := None;
        SecondClick(q, p, rnd);
      }
    }

    /**
     * The body of actionPerformed for a second click on p after a first
     * click on q: the pair is removed when it matches and a corridor joins
     * it; otherwise nothing changes.
     */
    method SecondClick(q: Pos, p: Pos, rnd: nat -> nat)
      requires ValidBoard() && InBounds(gridSize, q) && InBounds(gridSize, p) && At(View(), p) != EMPTY
      modifies this`score, this`gridSize, this`level, this`timeRemaining, this`board
      ensures ValidBoard()
      ensures !Removable(old(View()), q, p) ==>
        board == old(board)
        && score == old(score) && level == old(level) && gridSize == old(gridSize) && timeRemaining == old(timeRemaining)
      ensures Removable(old(View()), q, p) ==> score == old(score) + MATCH_POINTS
      ensures (Removable(old(View()), q, p) && !AllEmpty(Cleared(old(View()), q, p))) ==>
        board.Keys == old(board.Keys) && View() == Cleared(old(View()), q, p)
        && level == old(level) && gridSize == old(gridSize) && timeRemaining == old(timeRemaining)
      ensures (Removable(old(View()), q, p) && AllEmpty(Cleared(old(View()), q, p))) ==>
        level == old(level) + 1 && gridSize == old(gridSize) + 2 && timeRemaining == LevelTime(level)
        && Full(View(), iconCount)
    {
      var removable := MatchAndConnect(q, p);
      if removable {
        RemovePair(q, p, rnd);
      }
    }

    /** The test of actionPerformed: isMatch, and only then isConnectable. */
    method MatchAndConnect(q: Pos, p: Pos) returns (r: bool)
      requires gridSize >= 0 && Covers(board, gridSize)
      requires InBounds(gridSize, q) && InBounds(gridSize, p)
      ensures r <==> Removable(View(), q, p)
    {
      r := IsMatch(q, p);
      if r {
        r := IsConnectable(q, p);
      }
    }

    /**
     * The matching branch of actionPerformed: the pair is removed, the
     * score grows by 10, and an empty board moves the game on to the next
     * level.
     */
    method RemovePair(q: Pos, p: Pos, rnd: nat -> nat)
      requires ValidBoard() && InBounds(gridSize, q) && InBounds(gridSize, p)
      requires Removable(View(), q, p) && At(View(), p) != EMPTY
      modifies this`score, this`gridSize, this`level, this`timeRemaining, this`board
      ensures ValidBoard()
      ensures score == old(score) + MATCH_POINTS
      ensures !AllEmpty(Cleared(old(View()), q, p)) ==>
        board.Keys == old(board.Keys) && View() == Cleared(old(View()), q, p)
        && level == old(level) && gridSize == old(gridSize) && timeRemaining == old(timeRemaining)
      ensures AllEmpty(Cleared(old(View()), q, p)) ==>
        level == old(level) + 1 && gridSize == old(gridSize) + 2 && timeRemaining == LevelTime(level)
        && Full(View(), iconCount)
    {
      ghost var g := View();
      RemoveImages(q, p);
      ClearPairKeepsInvariant(g, q, p, iconCount);
      score := score + MATCH_POINTS;
      AdvanceIfCleared(rnd);
    }

    /** The end of a successful match: an empty board moves the game on to the next level. */
    method AdvanceIfCleared(rnd: nat -> nat)
      requires ValidBoard()
      modifies this`gridSize, this`level, this`timeRemaining, this`board
      ensures ValidBoard()
      ensures !AllEmpty(old(View())) ==>
        board == old(board) && level == old(level) && gridSize == old(gridSize) && timeRemaining == old(timeRemaining)
      ensures AllEmpty(old(View())) ==>
        level == old(level) + 1 && gridSize == old(gridSize) + 2 && timeRemaining == LevelTime(level)
        && Full(View(), iconCount)
    {
      var empty := IsBoardEmpty();
      if empty {
        ghost var size := gridSize;
        LevelSizeEven(size, level);
        NextLevel(rnd);
        DealtBoard(View(), iconCount, rnd, EMPTY, level + 1);
      }
    }
  }
}

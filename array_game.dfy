/**
 * The Onet engine whose board is a gridSize x gridSize array of icon ids
 * (OnetGame.java).  A cell holds an icon id in [0, iconCount), or EMPTY
 * once its tile has been removed.  The player clicks two tiles; when they
 * show the same icon and a corridor of empty cells joins them, both are
 * removed and the score grows by 10.  Clearing the board starts the next
 * level on a larger board with more time.
 */
module ArrayGame {
  import opened Shuffle
  import opened Grid
  import opened PathSearch
  import opened Rules

  /** A square array read as a grid of rows. */
  function RowsOf(a: array2<int>): (g: Grid)
    reads a
    requires a.Length0 == a.Length1
    ensures |g| == a.Length0
    ensures forall x, y :: 0 <= x < |g| && 0 <= y < |g| ==> g[x][y] == a[x, y]
  {
    seq(a.Length0, x requires 0 <= x < a.Length0 reads a =>
      seq(a.Length1, y requires 0 <= y < a.Length1 reads a => a[x, y]))
  }

  /**
   * The dealing loop of initializeBoard: a fresh n x n array, zero by
   * default, whose cells take the deck's entries one by one in row-major
   * order while any are left.
   */
  method DealBoard(n: nat, deck: seq<int>) returns (cells: array2<int>)
    ensures fresh(cells) && cells.Length0 == n && cells.Length1 == n
    ensures |deck| <= n * n ==> Flatten(RowsOf(cells)) == Padded(deck, n * n, 0)
  {
    cells := new int[n, n]((_, _) => 0);
    var rest := deck;
    ghost var rows: seq<seq<int>> := [];
    for i := 0 to n
      invariant |rows| == i && forall r :: 0 <= r < i ==> |rows[r]| == n
      invariant forall r, c :: 0 <= r < i && 0 <= c < n ==> cells[r, c] == rows[r][c]
      invariant forall r, c :: i <= r < n && 0 <= c < n ==> cells[r, c] == 0
      invariant |deck| <= n * n ==> Dealing(deck, Flatten(rows), rest, 0)
    {
      ghost var row;
      rest, row := DealRow(cells, i, rest, deck, Flatten(rows));
      FlattenSnoc(rows, row);
      rows := rows + [row];
    }
    GridExt(RowsOf(cells), rows);
    FlattenLength(rows, n);
    if |deck| <= n * n {
      DealDone(deck, Flatten(rows), rest, 0);
    }
  }

  /** One row of the dealing loop: row i takes the next n entries of the deck, or 0 once it runs out. */
  method DealRow(cells: array2<int>, i: nat, deck: seq<int>, ghost all: seq<int>, ghost done: seq<int>)
      returns (rest: seq<int>, ghost row: seq<int>)
    requires cells.Length0 == cells.Length1 && i < cells.Length0
    requires forall c :: 0 <= c < cells.Length1 ==> cells[i, c] == 0
    modifies cells
    ensures |row| == cells.Length1
    ensures forall c :: 0 <= c < cells.Length1 ==> cells[i, c] == row[c]
    ensures forall r, c :: 0 <= r < cells.Length0 && 0 <= c < cells.Length1 && r != i ==> cells[r, c] == old(cells[r, c])
    ensures Dealing(all, done, deck, 0) ==> Dealing(all, done + row, rest, 0)
  {
    var n := cells.Length1;
    rest := deck;
    row := [];
    for j := 0 to n
      invariant |row| == j
      invariant forall c :: 0 <= c < j ==> cells[i, c] == row[c]
      invariant forall c :: j <= c < n ==> cells[i, c] == 0
      invariant forall r, c :: 0 <= r < cells.Length0 && 0 <= c < n && r != i ==> cells[r, c] == old(cells[r, c])
      invariant Dealing(all, done, deck, 0) ==> Dealing(all, done + row, rest, 0)
    {
      if Dealing(all, done, deck, 0) {
        DealStep(all, done + row, rest, 0);
      }
      if rest != [] {
        cells[i, j] := rest[0];
        rest := rest[1..];
      }
      assert done + row + [cells[i, j]] == done + (row + [cells[i, j]]);
      row := row + [cells[i, j]];
    }
  }

  /** The first loop of shuffleBoard: the icons still on the board, in row-major order. */
  method CollectIcons(a: array2<int>) returns (icons: seq<int>)
    requires a.Length0 == a.Length1
    ensures icons == Occupied(Flatten(RowsOf(a)))
  {
    ghost var g := RowsOf(a);
    var n := a.Length0;
    icons := [];
    for i := 0 to n
      invariant icons == Occupied(Flatten(g[..i]))
    {
      CollectRowStart(g, i);
      for j := 0 to n
        invariant icons == Occupied(Flatten(g[..i]) + g[i][..j])
      {
        CollectStep(g, i, j);
        if a[i, j] != EMPTY {
          icons := icons + [a[i, j]];
        }
      }
      CollectRowEnd(g, i);
    }
    assert g[..n] == g;
  }

  /**
   * The second loop of shuffleBoard: the occupied cells, in row-major
   * order, take the values of vals one by one; empty cells stay empty.
   * There are exactly as many values as occupied cells, so the list never
   * runs dry on an occupied cell.
   */
  method PlaceIcons(a: array2<int>, vals: seq<int>)
    requires a.Length0 == a.Length1
    requires EMPTY !in vals && |vals| == |Occupied(Flatten(RowsOf(a)))|
    modifies a
    ensures Flatten(RowsOf(a)) == Refill(old(Flatten(RowsOf(a))), vals)
  {
    ghost var g := RowsOf(a);
    var n := a.Length0;
    var visible := vals;
    ghost var rows: seq<seq<int>> := [];
    for i := 0 to n
      invariant Placing(g, rows, i, vals, visible)
      invariant forall r, c :: 0 <= r < i && 0 <= c < n ==> a[r, c] == rows[r][c]
      invariant forall r, c :: i <= r < n && 0 <= c < n ==> a[r, c] == g[r][c]
    {
      PlacingRoom(g, rows, i, vals, visible);
      ghost var row;
      var rest;
      rest, row := PlaceRow(a, i, visible, g[i]);
      PlacingStep(g, rows, i, vals, visible, row, rest);
      visible := rest;
      rows := rows + [row];
    }
    PlacingDone(g, rows, vals, visible);
    GridExt(RowsOf(a), rows);
  }

  /**
   * One row of the placement loop: the occupied cells of row i, which
   * held src, take the next values of visible.
   */
  method PlaceRow(a: array2<int>, i: nat, visible: seq<int>, ghost src: seq<int>)
      returns (rest: seq<int>, ghost row: seq<int>)
    requires a.Length0 == a.Length1 == |src| && i < |src|
    requires forall c :: 0 <= c < |src| ==> a[i, c] == src[c]
    requires EMPTY !in visible && |Occupied(src)| <= |visible|
    modifies a
    ensures row == Refill(src, visible)
    ensures forall c :: 0 <= c < |src| ==> a[i, c] == row[c]
    ensures forall r, c :: 0 <= r < |src| && 0 <= c < |src| && r != i ==> a[r, c] == old(a[r, c])
    ensures rest == Drop(visible, |Occupied(src)|) && EMPTY !in rest
  {
    var n := a.Length1;
    rest := visible;
    row := [];
    ghost var k := 0;
    for j := 0 to n
      invariant row == Refill(src[..j], visible)
      invariant forall c :: 0 <= c < j ==> a[i, c] == row[c]
      invariant forall c :: j <= c < n ==> a[i, c] == src[c]
      invariant forall r, c :: 0 <= r < n && 0 <= c < n && r != i ==> a[r, c] == old(a[r, c])
      invariant k == |Occupied(src[..j])| && rest == Drop(visible, k)
    {
      RefillSnoc(src, j, visible);
      OccupiedPrefix(src, j + 1);
      k := k + if a[i, j] == EMPTY then 0 else 1;
      if a[i, j] != EMPTY {
        a[i, j] := rest[0];
        rest := rest[1..];
      }
      row := row + [a[i, j]];
    }
    assert src[..n] == src;
  }

  class OnetGame {
    /** The number of distinct icons loaded (18 in the shipped game). */
    const iconCount: int
    var gridSize: int
    var board: array2<int>
    var score: int
    var level: int
    var timeRemaining: int
    /** Set when the clock has run out; the program then exits. */
    var gameOver: bool
    var firstClick: Option<Pos>

    /** The board as a grid of rows. */
    function Rows(): (g: Grid)
      reads this`board, board
      requires board.Length0 == board.Length1
      ensures |g| == board.Length0
      ensures forall x, y :: 0 <= x < |g| && 0 <= y < |g| ==> g[x][y] == board[x, y]
    {
      RowsOf(board)
    }

    /**
     * The game's invariant: the board is gridSize x gridSize, two cells
     * wider for each level; every icon on it can still be cleared pair by
     * pair; a pending first click is a tile still on the board.
     */
    ghost predicate Valid()
      reads this, board
    {
      ValidBoard()
      && (firstClick.Some? ==> InBounds(gridSize, firstClick.value) && At(Rows(), firstClick.value) != EMPTY)
    }

    /** Valid, leaving out the pending first click. */
    ghost predicate ValidBoard()
      reads this`level, this`gridSize, this`score, this`board, board
    {
      level >= 1 && gridSize == 2 * level + 2
      && board.Length0 == gridSize && board.Length1 == gridSize
      && iconCount >= 1 && score >= 0
      && Paired(Rows()) && IconsInRange(Rows(), iconCount)
    }

    /** A new game: level 1 on a 4 x 4 board, score 0, 60 seconds, no tile selected. */
    constructor (numIcons: int, rnd: nat -> nat)
      requires numIcons >= 1
      ensures Valid() && iconCount == numIcons
      ensures gridSize == 4 && level == 1 && score == 0 && timeRemaining == 60
      ensures firstClick == None && !gameOver
      ensures fresh(board) && Full(Rows(), iconCount)
    {
      iconCount := numIcons;
      gridSize := 4;
      board := new int[4, 4];
      score := 0;
      level := 1;
      timeRemaining := BASE_TIME;
      gameOver := false;
      firstClick := None;
      new;
      InitializeBoard(rnd);
      DealtBoard(Rows(), iconCount, rnd, 0, 2);
    }

    /**
     * initializeBoard: a new gridSize x gridSize board; the list holding
     * i % iconCount twice for each of the (gridSize * gridSize) / 2 pairs is
     * shuffled and dealt into the cells row by row; a cell left over when
     * the list runs out keeps the array's default 0.
     */
    method InitializeBoard(rnd: nat -> nat)
      requires iconCount >= 1 && gridSize >= 0
      modifies this`board
      ensures fresh(board) && board.Length0 == gridSize && board.Length1 == gridSize
      ensures Dealt(Rows(), iconCount, rnd, 0)
    {
      var positions: seq<int> := [];
      var numPairs := (gridSize * gridSize) / 2;
      for i := 0 to numPairs
        invariant positions == Pairs(i, iconCount)
      {
        positions := positions + [i % iconCount, i % iconCount];
      }
      positions := Shuffled(positions, rnd);
      board := DealBoard(gridSize, positions);
      FlattenLength(Rows(), gridSize);
    }

    /** isMatch: two different cells showing the same icon. */
    function IsMatch(p1: Pos, p2: Pos): (r: bool)
      reads this`board, board
      requires board.Length0 == board.Length1
      requires InBounds(board.Length0, p1) && InBounds(board.Length0, p2)
      ensures r <==> Matches(Rows(), p1, p2)
      ensures r ==> p1 != p2
    {
      if p1 == p2 then false
      else board[p1.0, p1.1] == board[p2.0, p2.1]
    }

    /** removeImages: both cells become EMPTY; nothing else on the board changes. */
    method RemoveImages(p1: Pos, p2: Pos)
      requires board.Length0 == board.Length1
      requires InBounds(board.Length0, p1) && InBounds(board.Length0, p2)
      modifies board
      ensures Rows() == Cleared(old(Rows()), p1, p2)
    {
      board[p1.0, p1.1] := EMPTY;
      board[p2.0, p2.1] := EMPTY;
      GridExt(Rows(), Cleared(old(Rows()), p1, p2));
    }

    /**
     * isBoardEmpty: no tile is left.  The source asks whether any button
     * is still visible; a button is visible exactly while its cell is not
     * EMPTY, so the model asks the board.
     */
    method IsBoardEmpty() returns (empty: bool)
      requires board.Length0 == board.Length1
      ensures empty <==> AllEmpty(Rows())
      ensures empty <==> Occupied(Flatten(Rows())) == []
    {
      EmptyIffNoIcons(Rows());
      for i := 0 to board.Length0
        invariant forall x, y :: 0 <= x < i && 0 <= y < board.Length1 ==> board[x, y] == EMPTY
      {
        for j := 0 to board.Length1
          invariant forall x, y :: (0 <= x < i && 0 <= y < board.Length1) || (x == i && 0 <= y < j) ==> board[x, y] == EMPTY
        {
          if board[i, j] != EMPTY {
            return false;
          }
        }
      }
      return true;
    }

    /**
     * nextLevel: the board grows by two (and to the next even size if it
     * was odd), the level goes up by one, the clock is reset to the new
     * level's time and a new board is generated.
     */
    method NextLevel(rnd: nat -> nat)
      requires iconCount >= 1 && gridSize >= 0
      modifies this`gridSize, this`level, this`timeRemaining, this`board
      ensures gridSize % 2 == 0 && old(gridSize) + 2 <= gridSize <= old(gridSize) + 3
      ensures old(gridSize) % 2 == 0 ==> gridSize == old(gridSize) + 2
      ensures level == old(level) + 1
      ensures timeRemaining == LevelTime(level)
      ensures fresh(board) && board.Length0 == gridSize && board.Length1 == gridSize
      ensures Dealt(Rows(), iconCount, rnd, 0)
    {
      ghost var size := gridSize;
      gridSize := gridSize + 2;
      if gridSize % 2 != 0 {
        gridSize := gridSize + 1;
      }
      EvenAfterGrowth(size, gridSize);
      level := level + 1;
      timeRemaining := BASE_TIME + (level - 1) * ADDITIONAL_TIME;
      InitializeBoard(rnd);
    }

    /** One second of the level clock; the game is over the first time it reaches zero or less. */
    method Tick()
      requires !gameOver
      modifies this`timeRemaining, this`gameOver
      ensures timeRemaining == old(timeRemaining) - 1
      ensures gameOver <==> timeRemaining <= 0
    {
      timeRemaining := timeRemaining - 1;
      if timeRemaining <= 0 {
        gameOver := true;
      }
    }

    /**
     * shuffleBoard: the icons still on the board are collected row by
     * row, shuffled, and written back into the occupied cells in the same
     * order.  Empty cells stay empty and the same icons remain, so the
     * board stays paired and a pending first click stays on a tile.  Once
     * the time is up the game has ended and the button does nothing.
     */
    method ShuffleBoard(rnd: nat -> nat)
      requires Valid()
      modifies board
      ensures Valid()
      ensures old(gameOver) ==> Rows() == old(Rows())
      ensures !old(gameOver) ==>
        Flatten(Rows()) == Refill(old(Flatten(Rows())), Shuffled(Occupied(old(Flatten(Rows()))), rnd))
      ensures forall p :: InBounds(board.Length0, p) ==> (At(Rows(), p) == EMPTY <==> At(old(Rows()), p) == EMPTY)
      ensures multiset(Occupied(Flatten(Rows()))) == multiset(Occupied(old(Flatten(Rows()))))
    {
      if gameOver {
        return;
      }
      ghost var oldRows := Rows();
      ShuffleTiles(rnd);
      SameIconsKeepInvariant(oldRows, Rows(), iconCount);
    }

    /** The two loops of shuffleBoard, on any square board. */
    method ShuffleTiles(rnd: nat -> nat)
      requires board.Length0 == board.Length1
      modifies board
      ensures Flatten(Rows()) == Refill(old(Flatten(Rows())), Shuffled(Occupied(old(Flatten(Rows()))), rnd))
      ensures forall p :: InBounds(board.Length0, p) ==> (At(Rows(), p) == EMPTY <==> At(old(Rows()), p) == EMPTY)
      ensures multiset(Occupied(Flatten(Rows()))) == multiset(Occupied(old(Flatten(Rows()))))
    {
      var visibleIcons := CollectIcons(board);
      ghost var icons := visibleIcons;
      visibleIcons := Shuffled(visibleIcons, rnd);
      ShuffledPermutes(icons, rnd);
      assert EMPTY !in multiset(icons);
      assert EMPTY !in multiset(visibleIcons);
      PlaceIcons(board, visibleIcons);
      RefillOccupied(old(Flatten(Rows())), visibleIcons);
      RefillKeepsEmpty(old(Rows()), Rows(), visibleIcons);
    }

    /** isConnectable: a corridor of empty cells joins the two cells. */
    method IsConnectable(p1: Pos, p2: Pos) returns (r: bool)
      requires board.Length0 == board.Length1
      requires InBounds(board.Length0, p1) && InBounds(board.Length0, p2)
      ensures r <==> Connected(Rows(), p1, p2)
    {
      var path := FindPath(Rows(), p1, p2);
      r := path != [];
    }

    /**
     * actionPerformed, for a click on a tile still on the board (removed
     * tiles are hidden buttons and cannot be clicked).  A first click is
     * remembered.  A second click removes both tiles and scores 10 when
     * they match and a corridor joins them, moving on to the next level
     * once the board is empty; otherwise it changes nothing.  Either way
     * the remembered click is then forgotten.  Once the time is up the
     * game has ended and a click does nothing.
     */
    method Click(p: Pos, rnd: nat -> nat)
      requires Valid() && InBounds(gridSize, p) && At(Rows(), p) != EMPTY
      modifies this, board
      ensures Valid()
      ensures gameOver == old(gameOver)
      ensures old(gameOver) ==>
        firstClick == old(firstClick) && board == old(board) && Rows() == old(Rows())
        && score == old(score) && level == old(level) && gridSize == old(gridSize) && timeRemaining == old(timeRemaining)
      ensures !old(gameOver) && old(firstClick).None? ==>
        firstClick == Some(p) && board == old(board) && Rows() == old(Rows())
        && score == old(score) && level == old(level) && gridSize == old(gridSize) && timeRemaining == old(timeRemaining)
      ensures !old(gameOver) && old(firstClick).Some? ==> firstClick == None
      ensures (!old(gameOver) && old(firstClick).Some? && !Removable(old(Rows()), old(firstClick).value, p)) ==>
        board == old(board) && Rows() == old(Rows())
        && score == old(score) && level == old(level) && gridSize == old(gridSize) && timeRemaining == old(timeRemaining)
      ensures (!old(gameOver) && old(firstClick).Some? && Removable(old(Rows()), old(firstClick).value, p)) ==>
        score == old(score) + MATCH_POINTS
      ensures (!old(gameOver) && old(firstClick).Some? && Removable(old(Rows()), old(firstClick).value, p)
        && !AllEmpty(Cleared(old(Rows()), old(firstClick).value, p))) ==>
        board == old(board) && Rows() == Cleared(old(Rows()), old(firstClick).value, p)
        && level == old(level) && gridSize == old(gridSize) && timeRemaining == old(timeRemaining)
      ensures (!old(gameOver) && old(firstClick).Some? && Removable(old(Rows()), old(firstClick).value, p)
        && AllEmpty(Cleared(old(Rows()), old(firstClick).value, p))) ==>
        level == old(level) + 1 && gridSize == old(gridSize) + 2 && timeRemaining == LevelTime(level)
        && fresh(board) && Full(Rows(), iconCount)
    {
      if !gameOver {
        Select(p, rnd);
      }
    }

    /** actionPerformed while the game runs: a first click is remembered, a second one is tried as a pair. */
    method Select(p: Pos, rnd: nat -> nat)
      requires Valid() && InBounds(gridSize, p) && At(Rows(), p) != EMPTY
      modifies this, board
      ensures Valid()
      ensures gameOver == old(gameOver)
      ensures old(firstClick).None? ==>
        firstClick == Some(p) && board == old(board) && Rows() == old(Rows())
        && score == old(score) && level == old(level) && gridSize == old(gridSize) && timeRemaining == old(timeRemaining)
      ensures old(firstClick).Some? ==> firstClick == None
      ensures (old(firstClick).Some? && !Removable(old(Rows()), old(firstClick).value, p)) ==>
        board == old(board) && Rows() == old(Rows())
        && score == old(score) && level == old(level) && gridSize == old(gridSize) && timeRemaining == old(timeRemaining)
      ensures (old(firstClick).Some? && Removable(old(Rows()), old(firstClick).value, p)) ==>
        score == old(score) + MATCH_POINTS
      ensures (old(firstClick).Some? && Removable(old(Rows()), old(firstClick).value, p)
        && !AllEmpty(Cleared(old(Rows()), old(firstClick).value, p))) ==>
        board == old(board) && Rows() == Cleared(old(Rows()), old(firstClick).value, p)
        && level == old(level) && gridSize == old(gridSize) && timeRemaining == old(timeRemaining)
      ensures (old(firstClick).Some? && Removable(old(Rows()), old(firstClick).value, p)
        && AllEmpty(Cleared(old(Rows()), old(firstClick).value, p))) ==>
        level == old(level) + 1 && gridSize == old(gridSize) + 2 && timeRemaining == LevelTime(level)
        && fresh(board) && Full(Rows(), iconCount)
    {
      if firstClick.None? {
        firstClick := Some(p);
      } else {
        var q := firstClick.value;
        firstClick := None;
        SecondClick(q, p, rnd);
      }
    }

    /**
     * The body of actionPerformed for a second click on p after a first
     * click on q: the pair is removed when it matches and a corridor joins
     * it; otherwise nothing changes.
     */
    method SecondClick(q: Pos, p: Pos, rnd: nat -> nat)
      requires ValidBoard() && InBounds(gridSize, q) && InBounds(gridSize, p) && At(Rows(), p) != EMPTY
      modifies this`score, this`gridSize, this`level, this`timeRemaining, this`board, board
      ensures ValidBoard()
      ensures !Removable(old(Rows()), q, p) ==>
        board == old(board) && Rows() == old(Rows())
        && score == old(score) && level == old(level) && gridSize == old(gridSize) && timeRemaining == old(timeRemaining)
      ensures Removable(old(Rows()), q, p) ==> score == old(score) + MATCH_POINTS
      ensures (Removable(old(Rows()), q, p) && !AllEmpty(Cleared(old(Rows()), q, p))) ==>
        board == old(board) && Rows() == Cleared(old(Rows()), q, p)
        && level == old(level) && gridSize == old(gridSize) && timeRemaining == old(timeRemaining)
      ensures (Removable(old(Rows()), q, p) && AllEmpty(Cleared(old(Rows()), q, p))) ==>
        level == old(level) + 1 && gridSize == old(gridSize) + 2 && timeRemaining == LevelTime(level)
        && fresh(board) && Full(Rows(), iconCount)
    {
      var removable := MatchAndConnect(q, p);
      if removable {
        RemovePair(q, p, rnd);
      }
    }

    /** The test of actionPerformed: isMatch, and only then isConnectable. */
    method MatchAndConnect(q: Pos, p: Pos) returns (r: bool)
      requires board.Length0 == board.Length1
      requires InBounds(board.Length0, q) && InBounds(board.Length0, p)
      ensures r <==> Removable(Rows(), q, p)
    {
      r := IsMatch(q, p);
      if r {
        r := IsConnectable(q, p);
      }
    }

    /**
     * The matching branch of actionPerformed: the pair is removed, the
     * score grows by 10, and an empty board moves the game on to the next
     * level.
     */
    method RemovePair(q: Pos, p: Pos, rnd: nat -> nat)
      requires ValidBoard() && InBounds(gridSize, q) && InBounds(gridSize, p)
      requires Removable(Rows(), q, p) && At(Rows(), p) != EMPTY
      modifies this`score, this`gridSize, this`level, this`timeRemaining, this`board, board
      ensures ValidBoard()
      ensures score == old(score) + MATCH_POINTS
      ensures !AllEmpty(Cleared(old(Rows()), q, p)) ==>
        board == old(board) && Rows() == Cleared(old(Rows()), q, p)
        && level == old(level) && gridSize == old(gridSize) && timeRemaining == old(timeRemaining)
      ensures AllEmpty(Cleared(old(Rows()), q, p)) ==>
        level == old(level) + 1 && gridSize == old(gridSize) + 2 && timeRemaining == LevelTime(level)
        && fresh(board) && Full(Rows(), iconCount)
    {
      ghost var g := Rows();
      RemoveImages(q, p);
      ClearPairKeepsInvariant(g, q, p, iconCount);
      score := score + MATCH_POINTS;
      AdvanceIfCleared(rnd);
    }

    /** The end of a successful match: an empty board moves the game on to the next level. */
    method AdvanceIfCleared(rnd: nat -> nat)
      requires ValidBoard()
      modifies this`gridSize, this`level, this`timeRemaining, this`board
      ensures ValidBoard()
      ensures !AllEmpty(old(Rows())) ==>
        board == old(board) && level == old(level) && gridSize == old(gridSize) && timeRemaining == old(timeRemaining)
      ensures AllEmpty(old(Rows())) ==>
        level == old(level) + 1 && gridSize == old(gridSize) + 2 && timeRemaining == LevelTime(level)
        && fresh(board) && Full(Rows(), iconCount)
    {
      var empty := IsBoardEmpty();
      if empty {
        ghost var size := gridSize;
        LevelSizeEven(size, level);
        NextLevel(rnd);
        assert gridSize == size + 2 == 2 * (level + 1);
        DealtBoard(Rows(), iconCount, rnd, 0, level + 1);
      }
    }
  }
}

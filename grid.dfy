/**
 * The board both engines play on, independent of how it is stored.
 *
 * A board of gridSize x gridSize cells is viewed here as a square sequence
 * of rows.  A cell holds an icon id, or EMPTY (-1) once its tile has been
 * removed.  Board generation and reshuffling both walk the cells in
 * row-major order, so most of this module works on Flatten(g), the cells
 * row after row.
 */
module Grid {
  import opened Shuffle

  /** Java's nullable Point, as used for the pending first click. */
  datatype Option<T> = None | Some(value: T)

  /** A cell coordinate (x, y): x selects the row and y the column, from 0. */
  type Pos = (int, int)

  /** The value a cleared cell holds. */
  const EMPTY: int := -1

  /** A square grid of cell values: |g| rows of |g| cells each. */
  type Grid = g: seq<seq<int>> | forall i :: 0 <= i < |g| ==> |g[i]| == |g|

  predicate InBounds(n: int, p: Pos) {
    0 <= p.0 < n && 0 <= p.1 < n
  }

  /** Every coordinate of an n x n board. */
  function AllCells(n: int): set<Pos> {
    set x: int, y: int | 0 <= x < n && 0 <= y < n :: (x, y)
  }

  function At(g: Grid, p: Pos): int
    requires InBounds(|g|, p)
  {
    g[p.0][p.1]
  }

  /** g with the cell at p holding v. */
  function SetCell(g: Grid, p: Pos, v: int): (r: Grid)
    requires InBounds(|g|, p)
    ensures |r| == |g|
    ensures forall q :: InBounds(|g|, q) ==> At(r, q) == if q == p then v else At(g, q)
  {
    g[p.0 := g[p.0][p.1 := v]]
  }

  /** g after the tiles at p1 and p2 have been removed. */
  function Cleared(g: Grid, p1: Pos, p2: Pos): (r: Grid)
    requires InBounds(|g|, p1) && InBounds(|g|, p2)
    ensures |r| == |g|
    ensures forall q :: InBounds(|g|, q) ==> At(r, q) == if q == p1 || q == p2 then EMPTY else At(g, q)
  {
    SetCell(SetCell(g, p1, EMPTY), p2, EMPTY)
  }

  /** Two distinct cells showing the same value: the pair a player may try to remove. */
  predicate Matches(g: Grid, p1: Pos, p2: Pos)
    requires InBounds(|g|, p1) && InBounds(|g|, p2)
  {
    p1 != p2 && At(g, p1) == At(g, p2)
  }

  /** Two grids of the same size that agree on every cell are equal. */
  lemma GridExt(g: Grid, h: Grid)
    requires |g| == |h|
    requires forall q :: InBounds(|g|, q) ==> At(g, q) == At(h, q)
    ensures g == h
  {
    forall i | 0 <= i < |g|
      ensures g[i] == h[i]
    {
      forall j | 0 <= j < |g|
        ensures g[i][j] == h[i][j]
      {
        assert At(g, (i, j)) == At(h, (i, j));
      }
    }
  }

  /** No tile is left on the board. */
  predicate AllEmpty(g: Grid) {
    forall x, y :: 0 <= x < |g| && 0 <= y < |g| ==> g[x][y] == EMPTY
  }

  /** The cells of a list of rows, row after row. */
  function Flatten(rows: seq<seq<int>>): seq<int> {
    if rows == [] then [] else rows[0] + Flatten(rows[1..])
  }

  lemma {:induction false} FlattenSnoc(rows: seq<seq<int>>, row: seq<int>)
    ensures Flatten(rows + [row]) == Flatten(rows) + row
  {
    if rows != [] {
      assert (rows + [row])[1..] == rows[1..] + [row];
      FlattenSnoc(rows[1..], row);
    }
  }

  lemma {:induction false} FlattenLength(rows: seq<seq<int>>, width: nat)
    requires forall i :: 0 <= i < |rows| ==> |rows[i]| == width
    ensures |Flatten(rows)| == |rows| * width
  {
    if rows != [] {
      FlattenLength(rows[1..], width);
      assert |Flatten(rows)| == width + (|rows| - 1) * width;
    }
  }

  /** Replacing one row by a row that trades a for v trades a for v on the whole board. */
  lemma FlattenReplaceRow(rows: seq<seq<int>>, i: nat, row: seq<int>, a: int, v: int)
    requires i < |rows|
    requires multiset(row) + multiset{a} == multiset(rows[i]) + multiset{v}
    ensures multiset(Flatten(rows[i := row])) + multiset{a} == multiset(Flatten(rows)) + multiset{v}
  {
    var rows' := rows[i := row];
    var front, back := Flatten(rows[..i]), Flatten(rows[i + 1..]);
    FlattenAround(rows, i);
    FlattenAround(rows', i);
    assert rows'[..i] == rows[..i] && rows'[i + 1..] == rows[i + 1..];
    var rest := multiset(front) + multiset(back);
    calc {
      multiset(Flatten(rows')) + multiset{a};
      rest + (multiset(row) + multiset{a});
      rest + (multiset(rows[i]) + multiset{v});
      multiset(Flatten(rows)) + multiset{v};
    }
  }

  /** The cells of a board are those of the rows before row i, then row i, then the rows after it. */
  lemma FlattenAround(rows: seq<seq<int>>, i: nat)
    requires i < |rows|
    ensures Flatten(rows) == Flatten(rows[..i]) + rows[i] + Flatten(rows[i + 1..])
  {
    var tail := rows[i..];
    assert rows == rows[..i] + tail;
    FlattenConcat(rows[..i], tail);
    assert tail[0] == rows[i] && tail[1..] == rows[i + 1..];
    assert Flatten(tail) == rows[i] + Flatten(rows[i + 1..]);
  }

  lemma SeqUpdate(s: seq<int>, j: nat, v: int)
    requires j < |s|
    ensures multiset(s[j := v]) + multiset{s[j]} == multiset(s) + multiset{v}
  {
    assert s == s[..j] + [s[j]] + s[j + 1..];
    assert s[j := v] == s[..j] + [v] + s[j + 1..];
  }

  /** Overwriting one cell trades its old value for the new one in the board's multiset of values. */
  lemma FlattenSetCell(g: Grid, p: Pos, v: int)
    requires InBounds(|g|, p)
    ensures multiset(Flatten(SetCell(g, p, v))) + multiset{At(g, p)} == multiset(Flatten(g)) + multiset{v}
  {
    SeqUpdate(g[p.0], p.1, v);
    FlattenReplaceRow(g, p.0, g[p.0][p.1 := v], At(g, p), v);
  }

  /** Every icon on the board occurs an even number of times, so it can still be cleared pair by pair. */
  ghost predicate Paired(g: Grid) {
    forall v :: v != EMPTY ==> multiset(Flatten(g))[v] % 2 == 0
  }

  /** Every cell holds EMPTY or an icon id below iconCount. */
  ghost predicate IconsInRange(g: Grid, iconCount: int) {
    forall x :: x in Flatten(g) ==> x == EMPTY || 0 <= x < iconCount
  }

  /**
   * Removing a pair of tiles with the same icon keeps every icon paired and
   * puts no new icon on the board.
   */
  lemma ClearPairKeepsInvariant(g: Grid, p1: Pos, p2: Pos, iconCount: int)
    requires InBounds(|g|, p1) && InBounds(|g|, p2) && p1 != p2
    requires At(g, p1) == At(g, p2) != EMPTY
    requires Paired(g) && IconsInRange(g, iconCount)
    ensures Paired(Cleared(g, p1, p2)) && IconsInRange(Cleared(g, p1, p2), iconCount)
  {
    var a := At(g, p1);
    var g1 := SetCell(g, p1, EMPTY);
    var g2 := Cleared(g, p1, p2);
    FlattenSetCell(g, p1, EMPTY);
    assert At(g1, p2) == a;
    FlattenSetCell(g1, p2, EMPTY);
    var m, m1, m2 := multiset(Flatten(g)), multiset(Flatten(g1)), multiset(Flatten(g2));
    forall v | v != EMPTY
      ensures m2[v] % 2 == 0
    {
      assert (m1 + multiset{a})[v] == (m + multiset{EMPTY})[v];
      assert (m2 + multiset{a})[v] == (m1 + multiset{EMPTY})[v];
      Parity(m[v], m2[v]);
    }
    forall x | x in Flatten(g2)
      ensures x == EMPTY || 0 <= x < iconCount
    {
      assert (m1 + multiset{a})[x] == (m + multiset{EMPTY})[x];
      assert (m2 + multiset{a})[x] == (m1 + multiset{EMPTY})[x];
      assert m2[x] > 0;
      assert x == EMPTY || x in m;
      assert x == EMPTY || x in Flatten(g);
    }
  }

  /** The non-empty cell values of s, in order. */
  function Occupied(s: seq<int>): (r: seq<int>)
    ensures |r| <= |s|
    ensures EMPTY !in r
    ensures forall x :: x in s && x != EMPTY ==> x in r
  {
    if s == [] then []
    else (if s[0] == EMPTY then [] else [s[0]]) + Occupied(s[1..])
  }

  lemma {:induction false} OccupiedConcat(a: seq<int>, b: seq<int>)
    ensures Occupied(a + b) == Occupied(a) + Occupied(b)
  {
    if a == [] {
      assert a + b == b;
    } else {
      assert (a + b)[0] == a[0];
      assert (a + b)[1..] == a[1..] + b;
      OccupiedConcat(a[1..], b);
      var h := if a[0] == EMPTY then [] else [a[0]];
      calc {
        Occupied(a + b);
        h + Occupied(a[1..] + b);
        h + (Occupied(a[1..]) + Occupied(b));
        (h + Occupied(a[1..])) + Occupied(b);
      }
    }
  }

  /** Occupied counts every icon exactly as often as s holds it. */
  lemma {:induction false} OccupiedCount(s: seq<int>, v: int)
    requires v != EMPTY
    ensures multiset(Occupied(s))[v] == multiset(s)[v]
  {
    if s != [] {
      assert s == [s[0]] + s[1..];
      OccupiedCount(s[1..], v);
    }
  }

  /** Two boards whose icons form the same multiset are paired together. */
  lemma SameIconsKeepInvariant(g: Grid, h: Grid, iconCount: int)
    requires multiset(Occupied(Flatten(g))) == multiset(Occupied(Flatten(h)))
    requires Paired(g) && IconsInRange(g, iconCount)
    ensures Paired(h) && IconsInRange(h, iconCount)
  {
    forall v | v != EMPTY
      ensures multiset(Flatten(h))[v] % 2 == 0
    {
      OccupiedCount(Flatten(g), v);
      OccupiedCount(Flatten(h), v);
      var cg, ch := multiset(Flatten(g))[v], multiset(Flatten(h))[v];
      assert cg % 2 == 0;
      assert ch == cg;
      Parity(cg, ch);
    }
    forall x | x in Flatten(h)
      ensures x == EMPTY || 0 <= x < iconCount
    {
      if x != EMPTY {
        var fg, fh := Flatten(g), Flatten(h);
        assert x in Occupied(fh);
        assert multiset(Occupied(fh))[x] > 0;
        assert multiset(Occupied(fg))[x] > 0;
        OccupiedCount(fg, x);
        assert multiset(fg)[x] > 0;
        assert x in fg;
      }
    }
  }

  /** s without its first k elements; empty when s is shorter. */
  function Drop(s: seq<int>, k: nat): (r: seq<int>) {
    if k <= |s| then s[k..] else []
  }

  lemma DropDrop(s: seq<int>, a: nat, b: nat)
    ensures Drop(Drop(s, a), b) == Drop(s, a + b)
  {
  }

  /**
   * The reshuffle placement: vals written, in order, into the non-empty
   * cells of s.  Empty cells stay empty; once vals runs out, a non-empty
   * cell keeps its value.
   */
  function Refill(s: seq<int>, vals: seq<int>): (r: seq<int>)
    ensures |r| == |s|
  {
    if s == [] then []
    else if s[0] == EMPTY then [EMPTY] + Refill(s[1..], vals)
    else if vals == [] then [s[0]] + Refill(s[1..], vals)
    else [vals[0]] + Refill(s[1..], vals[1..])
  }

  /** Refilling a concatenation refills the second part with what the first part left over. */
  lemma {:induction false} RefillConcat(a: seq<int>, b: seq<int>, vals: seq<int>)
    ensures Refill(a + b, vals) == Refill(a, vals) + Refill(b, Drop(vals, |Occupied(a)|))
  {
    if a == [] {
      assert a + b == b;
    } else {
      assert (a + b)[0] == a[0];
      assert (a + b)[1..] == a[1..] + b;
      var k := |Occupied(a[1..])|;
      if a[0] == EMPTY {
        RefillConcat(a[1..], b, vals);
        assert |Occupied(a)| == k;
      } else if vals == [] {
        RefillConcat(a[1..], b, vals);
      } else {
        RefillConcat(a[1..], b, vals[1..]);
        assert |Occupied(a)| == k + 1;
        DropDrop(vals, 1, k);
      }
    }
  }

  /** Refilling one more cell of s: how the row-major placement loop advances by one cell. */
  lemma RefillSnoc(s: seq<int>, j: nat, vals: seq<int>)
    requires j < |s|
    ensures Refill(s[..j + 1], vals) == Refill(s[..j], vals) + [
      var rest := Drop(vals, |Occupied(s[..j])|);
      if s[j] == EMPTY then EMPTY else if rest == [] then s[j] else rest[0]]
    ensures |Occupied(s[..j + 1])| == |Occupied(s[..j])| + (if s[j] == EMPTY then 0 else 1)
  {
    assert s[..j + 1] == s[..j] + [s[j]];
    RefillConcat(s[..j], [s[j]], vals);
    OccupiedConcat(s[..j], [s[j]]);
  }

  /**
   * One cell of a placement that stops writing when the values run out:
   * an occupied cell takes the next value if there is one, and the values
   * left over move on by one exactly when it does.
   */
  lemma RefillCell(s: seq<int>, j: nat, vals: seq<int>, k: nat, rest: seq<int>)
    requires j < |s| && k == |Occupied(s[..j])| && rest == Drop(vals, k)
    ensures Refill(s[..j + 1], vals) == Refill(s[..j], vals) + [if s[j] == EMPTY || rest == [] then s[j] else rest[0]]
    ensures |Occupied(s[..j + 1])| == k + (if s[j] == EMPTY then 0 else 1)
    ensures Drop(vals, k + (if s[j] == EMPTY then 0 else 1)) == (if s[j] == EMPTY || rest == [] then rest else rest[1..])
  {
    RefillSnoc(s, j, vals);
  }

  /** Refilling one more row of a board: how the placement loop advances by one row. */
  lemma RefillRow(g: seq<seq<int>>, i: nat, vals: seq<int>)
    requires i < |g|
    ensures Refill(Flatten(g[..i + 1]), vals) == Refill(Flatten(g[..i]), vals) + Refill(g[i], Drop(vals, |Occupied(Flatten(g[..i]))|))
    ensures |Occupied(Flatten(g[..i + 1]))| == |Occupied(Flatten(g[..i]))| + |Occupied(g[i])|
  {
    assert g[..i + 1] == g[..i] + [g[i]];
    FlattenSnoc(g[..i], g[i]);
    RefillConcat(Flatten(g[..i]), g[i], vals);
    OccupiedConcat(Flatten(g[..i]), g[i]);
  }

  /** A prefix of s has no more occupied cells than s. */
  lemma OccupiedPrefix(s: seq<int>, j: nat)
    requires j <= |s|
    ensures |Occupied(s[..j])| <= |Occupied(s)|
  {
    assert s == s[..j] + s[j..];
    OccupiedConcat(s[..j], s[j..]);
  }

  /** Refilling with icons leaves every empty cell of a row empty and every occupied one occupied. */
  lemma {:induction false} RowRefillEmpty(row: seq<int>, vals: seq<int>)
    requires EMPTY !in vals
    ensures forall c :: 0 <= c < |row| ==> (Refill(row, vals)[c] == EMPTY <==> row[c] == EMPTY)
  {
    if row != [] {
      if row[0] == EMPTY || vals == [] {
        RowRefillEmpty(row[1..], vals);
      } else {
        RowRefillEmpty(row[1..], vals[1..]);
      }
      var r := Refill(row, vals);
      assert r[1..] == Refill(row[1..], if row[0] == EMPTY || vals == [] then vals else vals[1..]);
      forall c | 0 < c < |row|
        ensures r[c] == EMPTY <==> row[c] == EMPTY
      {
        assert r[c] == r[1..][c - 1] && row[c] == row[1..][c - 1];
      }
    }
  }

  /**
   * When the cells of h are those of g refilled with icons, h has its empty
   * cells exactly where g has them.
   */
  lemma {:induction false} RefillKeepsEmpty(g: seq<seq<int>>, h: seq<seq<int>>, vals: seq<int>)
    requires |g| == |h| && forall r :: 0 <= r < |g| ==> |g[r]| == |h[r]|
    requires EMPTY !in vals && Flatten(h) == Refill(Flatten(g), vals)
    ensures forall x, y :: 0 <= x < |g| && 0 <= y < |g[x]| ==> (h[x][y] == EMPTY <==> g[x][y] == EMPTY)
  {
    if g != [] {
      var rest := Drop(vals, |Occupied(g[0])|);
      RefillConcat(g[0], Flatten(g[1..]), vals);
      var first, later := Refill(g[0], vals), Refill(Flatten(g[1..]), rest);
      var both := h[0] + Flatten(h[1..]);
      assert both == first + later;
      assert h[0] == both[..|h[0]|] == first;
      assert Flatten(h[1..]) == both[|h[0]|..] == later;
      RowRefillEmpty(g[0], vals);
      RefillKeepsEmpty(g[1..], h[1..], rest);
      forall x, y | 0 < x < |g| && 0 <= y < |g[x]|
        ensures h[x][y] == EMPTY <==> g[x][y] == EMPTY
      {
        assert h[x] == h[1..][x - 1] && g[x] == g[1..][x - 1];
      }
    }
  }

  /** Refilling with exactly as many icons as there are occupied cells places all of them, in order. */
  lemma {:induction false} RefillOccupied(s: seq<int>, vals: seq<int>)
    requires EMPTY !in vals && |vals| == |Occupied(s)|
    ensures Occupied(Refill(s, vals)) == vals
  {
    if s != [] {
      if s[0] == EMPTY {
        RefillOccupied(s[1..], vals);
      } else {
        RefillOccupied(s[1..], vals[1..]);
      }
    }
  }

  /** The first k rows of a board hold no more tiles than the whole board. */
  lemma PrefixOccupied(g: seq<seq<int>>, k: nat)
    requires k <= |g|
    ensures |Occupied(Flatten(g[..k]))| <= |Occupied(Flatten(g))|
  {
    assert g == g[..k] + g[k..];
    FlattenConcat(g[..k], g[k..]);
    OccupiedConcat(Flatten(g[..k]), Flatten(g[k..]));
  }

  lemma {:induction false} FlattenConcat(a: seq<seq<int>>, b: seq<seq<int>>)
    ensures Flatten(a + b) == Flatten(a) + Flatten(b)
  {
    if a == [] {
      assert a + b == b;
    } else {
      assert (a + b)[0] == a[0];
      assert (a + b)[1..] == a[1..] + b;
      FlattenConcat(a[1..], b);
      calc {
        Flatten(a + b);
        a[0] + Flatten(a[1..] + b);
        a[0] + (Flatten(a[1..]) + Flatten(b));
        (a[0] + Flatten(a[1..])) + Flatten(b);
      }
    }
  }

  /** Starting row i of the row-major walk adds none of its cells yet. */
  lemma CollectRowStart(g: Grid, i: nat)
    requires i < |g|
    ensures Flatten(g[..i]) + g[i][..0] == Flatten(g[..i])
  {
  }

  /** One more cell of the row-major walk adds that cell's icon, if any. */
  lemma CollectStep(g: Grid, i: nat, j: nat)
    requires i < |g| && j < |g|
    ensures Occupied(Flatten(g[..i]) + g[i][..j + 1])
         == Occupied(Flatten(g[..i]) + g[i][..j]) + (if g[i][j] == EMPTY then [] else [g[i][j]])
  {
    assert Flatten(g[..i]) + g[i][..j + 1] == (Flatten(g[..i]) + g[i][..j]) + [g[i][j]];
    OccupiedConcat(Flatten(g[..i]) + g[i][..j], [g[i][j]]);
  }

  lemma CollectRowEnd(g: Grid, i: nat)
    requires i < |g|
    ensures Flatten(g[..i]) + g[i][..|g|] == Flatten(g[..i + 1])
  {
    assert g[..i + 1] == g[..i] + [g[i]];
    assert g[i][..|g|] == g[i];
    FlattenSnoc(g[..i], g[i]);
  }

  /**
   * Progress of the placement loop after i rows: rows holds the rows
   * written so far, the first i rows of g refilled from vals, and visible
   * what is left of vals.
   */
  ghost predicate Placing(g: Grid, rows: seq<seq<int>>, i: nat, vals: seq<int>, visible: seq<int>) {
    i <= |g| && |rows| == i && (forall r :: 0 <= r < i ==> |rows[r]| == |g|)
    && EMPTY !in vals
    && Flatten(rows) == Refill(Flatten(g[..i]), vals)
    && visible == Drop(vals, |Occupied(Flatten(g[..i]))|)
    && EMPTY !in visible
  }

  /** While rows are left, the values left over cover the next row's tiles. */
  lemma PlacingRoom(g: Grid, rows: seq<seq<int>>, i: nat, vals: seq<int>, visible: seq<int>)
    requires Placing(g, rows, i, vals, visible) && i < |g|
    requires |vals| == |Occupied(Flatten(g))|
    ensures |Occupied(g[i])| <= |visible|
  {
    RefillRow(g, i, vals);
    PrefixOccupied(g, i + 1);
  }

  lemma PlacingStep(g: Grid, rows: seq<seq<int>>, i: nat, vals: seq<int>, visible: seq<int>, row: seq<int>, rest: seq<int>)
    requires Placing(g, rows, i, vals, visible) && i < |g|
    requires row == Refill(g[i], visible) && rest == Drop(visible, |Occupied(g[i])|) && EMPTY !in rest
    ensures Placing(g, rows + [row], i + 1, vals, rest)
  {
    RefillRow(g, i, vals);
    DropDrop(vals, |Occupied(Flatten(g[..i]))|, |Occupied(g[i])|);
    FlattenSnoc(rows, row);
  }

  lemma PlacingDone(g: Grid, rows: seq<seq<int>>, vals: seq<int>, visible: seq<int>)
    requires Placing(g, rows, |g|, vals, visible)
    ensures Flatten(rows) == Refill(Flatten(g), vals)
    ensures |rows| == |g| && forall r :: 0 <= r < |g| ==> |rows[r]| == |g|
  {
    assert g[..|g|] == g;
  }

  /** The list of icon ids initializeBoard builds: each of 0, 1, ..., m - 1 (mod iconCount) added twice. */
  function Pairs(m: nat, iconCount: int): (r: seq<int>)
    requires iconCount >= 1
    ensures |r| == 2 * m
    ensures forall x :: x in r ==> 0 <= x < iconCount
  {
    if m == 0 then [] else Pairs(m - 1, iconCount) + [(m - 1) % iconCount, (m - 1) % iconCount]
  }

  /** Every value occurs in s an even number of times. */
  ghost predicate EvenCounts(s: seq<int>) {
    forall v :: multiset(s)[v] % 2 == 0
  }

  /** Every icon occurs in the pair list an even number of times. */
  lemma {:induction false} PairsEven(m: nat, iconCount: int)
    requires iconCount >= 1
    ensures EvenCounts(Pairs(m, iconCount))
  {
    if m > 0 {
      PairsEven(m - 1, iconCount);
      AddPair(Pairs(m - 1, iconCount), (m - 1) % iconCount);
    }
  }

  /** Appending two copies of x keeps every count even. */
  lemma AddPair(s: seq<int>, x: int)
    requires EvenCounts(s)
    ensures EvenCounts(s + [x, x])
  {
    assert multiset(s + [x, x]) == multiset(s) + multiset{x, x};
    forall v
      ensures multiset(s + [x, x])[v] % 2 == 0
    {
      assert multiset(s)[v] % 2 == 0;
    }
  }

  /** Adding or removing a pair keeps a count even. */
  lemma Parity(c: int, d: int)
    requires c % 2 == 0 && (d == c || d == c + 2 || d == c - 2)
    ensures d % 2 == 0
  {
  }

  /** s followed by enough copies of filler to make len cells. */
  function Padded(s: seq<int>, len: nat, filler: int): (r: seq<int>)
    requires |s| <= len
    ensures |r| == len
  {
    s + seq(len - |s|, _ => filler)
  }

  /** An even board size gives an even number of cells: (n * n) / 2 pairs fill every cell. */
  lemma EvenSquare(n: nat)
    requires n % 2 == 0
    ensures (n * n) % 2 == 0
  {
    var h := n / 2;
    assert n == 2 * h;
    assert n * n == 2 * (2 * h * h);
  }

  /**
   * A freshly generated board whose m pairs fill all of its cells: every
   * icon id is below iconCount, every icon is paired, and no cell is EMPTY.
   */
  lemma GeneratedBoard(g: Grid, m: nat, iconCount: int, rnd: nat -> nat, filler: int)
    requires iconCount >= 1 && 2 * m == |Flatten(g)|
    requires Flatten(g) == Padded(Shuffled(Pairs(m, iconCount), rnd), |Flatten(g)|, filler)
    ensures Paired(g) && IconsInRange(g, iconCount) && Full(g, iconCount)
  {
    var pairs := Pairs(m, iconCount);
    var flat := Flatten(g);
    assert flat == Shuffled(pairs, rnd);
    ShuffledPermutes(pairs, rnd);
    assert multiset(flat) == multiset(pairs);
    PairsEven(m, iconCount);
    forall v | v != EMPTY
      ensures multiset(flat)[v] % 2 == 0
    {
      assert multiset(pairs)[v] % 2 == 0;
    }
    forall x | x in flat
      ensures 0 <= x < iconCount
    {
      assert x in multiset(pairs);
      assert x in pairs;
    }
    forall x, y | 0 <= x < |g| && 0 <= y < |g|
      ensures 0 <= g[x][y] < iconCount
    {
      CellInFlatten(g, x, y);
    }
  }

  /**
   * g is a board as the generator deals it: the list holding i % iconCount
   * twice for every i below half the number of cells, shuffled and written
   * into the cells row by row, with filler in a cell left over.
   */
  ghost predicate Dealt(g: Grid, iconCount: int, rnd: nat -> nat, filler: int)
    requires iconCount >= 1
  {
    Flatten(g) == Padded(Shuffled(Pairs(|Flatten(g)| / 2, iconCount), rnd), |Flatten(g)|, filler)
  }

  /** A board every cell of which holds an icon id: how each level starts. */
  predicate Full(g: Grid, iconCount: int) {
    forall x, y :: 0 <= x < |g| && 0 <= y < |g| ==> 0 <= g[x][y] < iconCount
  }

  /** A dealt board of even size is full, and every icon on it is paired. */
  lemma DealtBoard(g: Grid, iconCount: int, rnd: nat -> nat, filler: int, half: nat)
    requires iconCount >= 1 && |g| == 2 * half && Dealt(g, iconCount, rnd, filler)
    ensures Paired(g) && IconsInRange(g, iconCount) && Full(g, iconCount)
  {
    EvenCells(g);
    var cells := |Flatten(g)|;
    assert 2 * (cells / 2) == cells;
    GeneratedBoard(g, cells / 2, iconCount, rnd, filler);
  }

  /** A board of even size has an even number of cells. */
  lemma EvenCells(g: Grid)
    requires |g| % 2 == 0
    ensures |Flatten(g)| % 2 == 0
  {
    FlattenLength(g, |g|);
    EvenSquare(|g|);
  }

  /** A sequence of EMPTY cells has no occupied cell. */
  lemma {:induction false} OccupiedNone(rows: seq<seq<int>>)
    requires forall i, j :: 0 <= i < |rows| && 0 <= j < |rows[i]| ==> rows[i][j] == EMPTY
    ensures Occupied(Flatten(rows)) == []
  {
    if rows != [] {
      OccupiedNone(rows[1..]);
      OccupiedConcat(rows[0], Flatten(rows[1..]));
      RowNone(rows[0]);
    }
  }

  lemma {:induction false} RowNone(row: seq<int>)
    requires forall j :: 0 <= j < |row| ==> row[j] == EMPTY
    ensures Occupied(row) == []
  {
    if row != [] {
      RowNone(row[1..]);
    }
  }

  /** The board is empty exactly when it has no tile left: no icon for a reshuffle to place. */
  lemma EmptyIffNoIcons(g: Grid)
    ensures AllEmpty(g) <==> Occupied(Flatten(g)) == []
  {
    if AllEmpty(g) {
      OccupiedNone(g);
    } else {
      var x, y :| 0 <= x < |g| && 0 <= y < |g| && g[x][y] != EMPTY;
      CellInFlatten(g, x, y);
    }
  }

  lemma {:induction false} CellInFlatten(rows: seq<seq<int>>, i: nat, j: nat)
    requires i < |rows| && j < |rows[i]|
    ensures rows[i][j] in Flatten(rows)
  {
    if i > 0 {
      CellInFlatten(rows[1..], i - 1, j);
    }
  }

  /**
   * Progress of the generation loop that deals a list of icons into the
   * cells in row-major order: done holds the cells dealt so far, rest what
   * is left of the list; once the list runs out, every further cell gets
   * filler.
   */
  ghost predicate Dealing(all: seq<int>, done: seq<int>, rest: seq<int>, filler: int) {
    |all| <= |done| + |rest|
    && (rest != [] ==> |done| + |rest| == |all|)
    && done + rest == Padded(all, |done| + |rest|, filler)
  }

  lemma DealStep(all: seq<int>, done: seq<int>, rest: seq<int>, filler: int)
    requires Dealing(all, done, rest, filler)
    ensures rest != [] ==> Dealing(all, done + [rest[0]], rest[1..], filler)
    ensures rest == [] ==> Dealing(all, done + [filler], [], filler)
  {
    if rest != [] {
      assert done + [rest[0]] + rest[1..] == done + rest;
    } else {
      var len := |done|;
      assert Padded(all, len + 1, filler) == Padded(all, len, filler) + [filler];
    }
  }

  /** Once every cell has been dealt and the list fits the board, the board is the padded list. */
  lemma DealDone(all: seq<int>, done: seq<int>, rest: seq<int>, filler: int)
    requires Dealing(all, done, rest, filler) && |all| <= |done|
    ensures rest == [] && done == Padded(all, |done|, filler)
  {
  }
}

/** reveal_tile (Minesweeper.c:276-318): flipping a guessed tile, and the flood fill that opens
    the neighbours of a tile with no neighbouring mine.

    `RevealAt` and `RevealAround` are the specification, written as the mutual recursion the
    source performs (the tile, then its eight neighbours in the source's order); `RevealTile`
    is the in-place recursive method on the board array, proved to compute exactly what they
    describe. */
module MineReveal {
  import opened MineTiles
  import opened MineGrid

  /** What a reveal produces: the new board, how many tiles it flipped (what it adds to the
      score) and whether it stepped on a mine. */
  datatype Sweep = Sweep(board: seq<int>, flipped: nat, lost: bool)

  /** `r` differs from `m` only by flipping hidden safe tiles. */
  ghost predicate FlipsOnly(m: seq<int>, r: seq<int>) {
    |r| == |m| &&
    forall i {:trigger r[i]} :: 0 <= i < |m| ==> r[i] == m[i] || (IsHiddenSafe(m[i]) && r[i] == Flip(m[i]))
  }

  /** Flipping one hidden safe tile removes exactly that tile from the free positions. */
  lemma FlipOne(m: seq<int>, t: int)
    requires 0 <= t < |m| && IsHiddenSafe(m[t])
    ensures FlipsOnly(m, m[t := Flip(m[t])])
    ensures HiddenSafeSet(m[t := Flip(m[t])]) == HiddenSafeSet(m) - {t}
    ensures |HiddenSafeSet(m[t := Flip(m[t])])| == |HiddenSafeSet(m)| - 1
  {
    var m1 := m[t := Flip(m[t])];
    assert t in HiddenSafeSet(m);
    assert HiddenSafeSet(m1) == HiddenSafeSet(m) - {t};
  }

  /** The board with the hidden safe tile at p flipped: one free position fewer. */
  function FlipTile(m: seq<int>, w: int, h: int, p: Position): (m1: seq<int>)
    requires w > 0 && |m| == w * h && InGrid(w, h, p) && IsHiddenSafe(TileAt(m, w, h, p))
    ensures |m1| == |m| && |HiddenSafeSet(m1)| == |HiddenSafeSet(m)| - 1
  {
    IndexInRange(w, h, p);
    FlipOne(m, Index(w, p));
    m[Index(w, p) := Flip(m[Index(w, p)])]
  }

  lemma FlipTileFlips(m: seq<int>, w: int, h: int, p: Position)
    requires w > 0 && |m| == w * h && InGrid(w, h, p) && IsHiddenSafe(TileAt(m, w, h, p))
    ensures var t := Index(w, p);
      0 <= t < |m| && TileAt(m, w, h, p) == m[t] && FlipTile(m, w, h, p) == m[t := Flip(m[t])] &&
      FlipsOnly(m, FlipTile(m, w, h, p)) && PositionOf(w, t) == p
  {
    IndexInRange(w, h, p);
    FlipOne(m, Index(w, p));
  }

  /** reveal_tile on (column, row) as a function of the board. Out of range: nothing happens. */
  function RevealAt(m: seq<int>, w: int, h: int, column: int, row: int): (r: Sweep)
    requires |m| == w * h
    ensures |r.board| == |m|
    ensures r.flipped + |HiddenSafeSet(r.board)| == |HiddenSafeSet(m)|
    decreases |HiddenSafeSet(m)|, 0, 1, 0
  {
    if !InGrid(w, h, Position(row, column)) then Sweep(m, 0, false)
    else RevealInGrid(m, w, h, column, row)
  }

  /** reveal_tile on a tile of the grid. A mine: the game is lost and the board is left as it
      is. An already revealed tile: nothing happens. Otherwise the tile is flipped, and a tile
      with no neighbouring mine then reveals its eight neighbours in turn, stopping at the
      first loss. */
  function RevealInGrid(m: seq<int>, w: int, h: int, column: int, row: int): (r: Sweep)
    requires |m| == w * h && InGrid(w, h, Position(row, column))
    ensures |r.board| == |m|
    ensures r.flipped + |HiddenSafeSet(r.board)| == |HiddenSafeSet(m)|
    decreases |HiddenSafeSet(m)|, 0, 0, 0
  {
    var p := Position(row, column);
    var v := TileAt(m, w, h, p);
    if IsMine(v) then Sweep(m, 0, true)
    else if v > 0 then Sweep(m, 0, false)
    else
      var m1 := FlipTile(m, w, h, p);
      if v == 0 || v == -10 then
        var rest := RevealAround(m1, w, h, column, row, -1, -1);
        Sweep(rest.board, rest.flipped + 1, rest.lost)
      else
        Sweep(m1, 1, false)
  }

  /** The neighbour loop of reveal_tile around (column, row), from offset (i, j) onwards in
      the source's order: i (the column offset) outer, j (the row offset) inner, skipping the
      centre. */
  function RevealAround(m: seq<int>, w: int, h: int, column: int, row: int, i: int, j: int): (r: Sweep)
    requires |m| == w * h && -1 <= i <= 2 && -1 <= j <= 2
    ensures |r.board| == |m|
    ensures r.flipped + |HiddenSafeSet(r.board)| == |HiddenSafeSet(m)|
    decreases |HiddenSafeSet(m)|, 1, 4 * (2 - i) + (2 - j), 1
  {
    if i == 2 then Sweep(m, 0, false)
    else if j == 2 then RevealAround(m, w, h, column, row, i + 1, -1)
    else if i == 0 && j == 0 then RevealAround(m, w, h, column, row, i, j + 1)
    else RevealFrom(m, w, h, column, row, i, j)
  }

  /** One pass of the neighbour loop: reveal the neighbour at offset (i, j); unless that
      loses, carry on with the next offset. */
  function RevealFrom(m: seq<int>, w: int, h: int, column: int, row: int, i: int, j: int): (r: Sweep)
    requires |m| == w * h && -1 <= i <= 1 && -1 <= j <= 1
    ensures |r.board| == |m|
    ensures r.flipped + |HiddenSafeSet(r.board)| == |HiddenSafeSet(m)|
    decreases |HiddenSafeSet(m)|, 1, 4 * (2 - i) + (2 - j), 0
  {
    var first := RevealAt(m, w, h, column + i, row + j);
    if first.lost then first
    else
      var rest := RevealAround(first.board, w, h, column, row, i, j + 1);
      Sweep(rest.board, first.flipped + rest.flipped, rest.lost)
  }

  /** RevealAt on a hidden safe tile of the board, unfolded. */
  lemma RevealAtHidden(m: seq<int>, w: int, h: int, column: int, row: int)
    requires |m| == w * h && InGrid(w, h, Position(row, column))
    requires IsHiddenSafe(TileAt(m, w, h, Position(row, column)))
    ensures var t := row * w + column;
      0 <= t < |m| && IsHiddenSafe(m[t]) &&
      var m1 := m[t := Flip(m[t])];
      RevealAt(m, w, h, column, row) ==
        if m[t] == 0 || m[t] == -10 then
          var rest := RevealAround(m1, w, h, column, row, -1, -1);
          Sweep(rest.board, rest.flipped + 1, rest.lost)
        else
          Sweep(m1, 1, false)
  {
    IndexInRange(w, h, Position(row, column));
  }

  /** The loop state of reveal_tile's neighbour loop: what the whole loop yields from `m1` is
      the `done` flips so far followed by what the rest of the loop yields from the current board. */
  ghost predicate AroundSoFar(m1: seq<int>, b: seq<int>, w: int, h: int, column: int, row: int, i: int, j: int, done: nat)
    requires |m1| == w * h && |b| == w * h && -1 <= i <= 2 && -1 <= j <= 2
  {
    var rest := RevealAround(b, w, h, column, row, i, j);
    RevealAround(m1, w, h, column, row, -1, -1) == Sweep(rest.board, done + rest.flipped, rest.lost)
  }

  lemma AroundStep(m1: seq<int>, before: seq<int>, after: seq<int>, w: int, h: int, column: int, row: int,
                   i: int, j: int, done: nat, lost: bool)
    requires |m1| == w * h && |before| == w * h && -1 <= i <= 1 && -1 <= j <= 1 && !(i == 0 && j == 0)
    requires AroundSoFar(m1, before, w, h, column, row, i, j, done)
    requires var first := RevealAt(before, w, h, column + i, row + j); after == first.board && lost == first.lost
    ensures var first := RevealAt(before, w, h, column + i, row + j);
      |after| == w * h && |HiddenSafeSet(after)| <= |HiddenSafeSet(before)| &&
      (lost ==> RevealAround(m1, w, h, column, row, -1, -1) == Sweep(after, done + first.flipped, true)) &&
      (!lost ==> AroundSoFar(m1, after, w, h, column, row, i, j + 1, done + first.flipped))
  {
    assert RevealAround(before, w, h, column, row, i, j) == RevealFrom(before, w, h, column, row, i, j);
  }

  lemma AroundNextColumn(m1: seq<int>, b: seq<int>, w: int, h: int, column: int, row: int, i: int, done: nat)
    requires |m1| == w * h && |b| == w * h && -1 <= i <= 1
    requires AroundSoFar(m1, b, w, h, column, row, i, 2, done)
    ensures AroundSoFar(m1, b, w, h, column, row, i + 1, -1, done)
  {
  }

  lemma AroundDone(m1: seq<int>, b: seq<int>, w: int, h: int, column: int, row: int, done: nat)
    requires |m1| == w * h && |b| == w * h
    requires AroundSoFar(m1, b, w, h, column, row, 2, -1, done)
    ensures RevealAround(m1, w, h, column, row, -1, -1) == Sweep(b, done, false)
  {
  }

  /** reveal_tile (Minesweeper.c:276-318). The score is passed in and returned; a loss is
      reported through `lost` where the source calls lose_screen, and every enclosing call
      returns at once, as the source's exit does. */
  method RevealTile(column: int, row: int, score: int, w: int, h: int, board: array<int>)
    returns (newScore: int, lost: bool)
    requires board.Length == w * h
    modifies board
    ensures var r := RevealAt(old(board[..]), w, h, column, row);
      board[..] == r.board && newScore == score + r.flipped && lost == r.lost
    decreases |HiddenSafeSet(board[..])|, 0
  {
    newScore, lost := score, false;
    if column >= 0 && column < w && row >= 0 && row < h {
      IndexInRange(w, h, Position(row, column));
      var tile := row * w + column;
      if board[tile] == -9 || board[tile] == -19 || board[tile] == 9 {
        lost := true;
      } else if board[tile] <= 0 {
        ghost var m0 := board[..];
        FlipOne(m0, tile);
        RevealAtHidden(m0, w, h, column, row);
        newScore := newScore + 1;
        if board[tile] == 0 || board[tile] == -10 {
          board[tile] := 10;
          newScore, lost := RevealNeighbours(column, row, newScore, w, h, board);
        } else if board[tile] < -10 {
          board[tile] := -(board[tile] + 10);
        } else {
          board[tile] := -board[tile];
        }
      }
    }
  }

  /** The neighbour loop of reveal_tile (Minesweeper.c:301-309): i runs over the column
      offsets, j over the row offsets, the centre is skipped, and a loss ends the loop. */
  method RevealNeighbours(column: int, row: int, score: int, w: int, h: int, board: array<int>)
    returns (newScore: int, lost: bool)
    requires board.Length == w * h
    modifies board
    ensures var r := RevealAround(old(board[..]), w, h, column, row, -1, -1);
      board[..] == r.board && newScore == score + r.flipped && lost == r.lost
    decreases |HiddenSafeSet(board[..])|, 2
  {
    ghost var m1 := board[..];
    newScore, lost := score, false;
    for i := -1 to 2
      invariant newScore >= score
      invariant AroundSoFar(m1, board[..], w, h, column, row, i, -1, newScore - score)
    {
      for j := -1 to 2
        invariant newScore >= score
        invariant AroundSoFar(m1, board[..], w, h, column, row, i, j, newScore - score)
      {
        if !(i == 0 && j == 0) {
          newScore, lost := RevealNeighbour(m1, column, row, i, j, score, newScore, w, h, board);
          if lost {
            return;
          }
        }
      }
      AroundNextColumn(m1, board[..], w, h, column, row, i, newScore - score);
    }
    AroundDone(m1, board[..], w, h, column, row, newScore - score);
  }

  /** One pass of the neighbour loop: reveal the neighbour at offset (i, j). */
  method RevealNeighbour(ghost m1: seq<int>, column: int, row: int, i: int, j: int, score: int, current: int,
                         w: int, h: int, board: array<int>)
    returns (newScore: int, lost: bool)
    requires |m1| == w * h && board.Length == w * h && -1 <= i <= 1 && -1 <= j <= 1 && !(i == 0 && j == 0)
    requires current >= score && AroundSoFar(m1, board[..], w, h, column, row, i, j, current - score)
    modifies board
    ensures newScore >= score
    ensures lost ==> RevealAround(m1, w, h, column, row, -1, -1) == Sweep(board[..], newScore - score, true)
    ensures !lost ==> AroundSoFar(m1, board[..], w, h, column, row, i, j + 1, newScore - score)
    decreases |HiddenSafeSet(board[..])|, 1
  {
    ghost var before, done := board[..], current - score;
    newScore, lost := RevealTile(column + i, row + j, current, w, h, board);
    AroundStep(m1, before, board[..], w, h, column, row, i, j, done, lost);
  }

  lemma FlipsOnlyTrans(a: seq<int>, b: seq<int>, c: seq<int>)
    requires FlipsOnly(a, b) && FlipsOnly(b, c)
    ensures FlipsOnly(a, c)
  {
    forall i | 0 <= i < |a|
      ensures c[i] == a[i] || (IsHiddenSafe(a[i]) && c[i] == Flip(a[i]))
    {
      if b[i] != a[i] {
        assert b[i] > 0;
      }
    }
  }

  /** A reveal changes the board only by flipping hidden safe tiles. */
  lemma {:induction false} RevealAtFlips(m: seq<int>, w: int, h: int, column: int, row: int)
    requires |m| == w * h
    ensures FlipsOnly(m, RevealAt(m, w, h, column, row).board)
    decreases |HiddenSafeSet(m)|, 0, 0, 0
  {
    var p := Position(row, column);
    if InGrid(w, h, p) {
      IndexInRange(w, h, p);
      var t := Index(w, p);
      if !IsMine(m[t]) && m[t] <= 0 {
        FlipOne(m, t);
        var m1 := m[t := Flip(m[t])];
        if m[t] == 0 || m[t] == -10 {
          RevealAroundFlips(m1, w, h, column, row, -1, -1);
          FlipsOnlyTrans(m, m1, RevealAround(m1, w, h, column, row, -1, -1).board);
        }
      }
    }
  }

  /** Out of range or on an already revealed tile a reveal does nothing; on a mine it loses
      and leaves the board as it was; otherwise, unless it loses, the guessed tile ends up
      revealed. */
  lemma RevealAtTarget(m: seq<int>, w: int, h: int, column: int, row: int)
    requires |m| == w * h
    ensures var r := RevealAt(m, w, h, column, row);
      var p := Position(row, column);
      (!InGrid(w, h, p) ==> r == Sweep(m, 0, false)) &&
      (InGrid(w, h, p) && IsMine(TileAt(m, w, h, p)) ==> r == Sweep(m, 0, true)) &&
      (InGrid(w, h, p) && !IsMine(TileAt(m, w, h, p)) && TileAt(m, w, h, p) > 0 ==> r == Sweep(m, 0, false)) &&
      (InGrid(w, h, p) && !r.lost ==> TileAt(r.board, w, h, p) > 0)
  {
    var p := Position(row, column);
    if InGrid(w, h, p) {
      IndexInRange(w, h, p);
      var t := Index(w, p);
      if !IsMine(m[t]) && m[t] <= 0 {
        FlipOne(m, t);
        var m1 := m[t := Flip(m[t])];
        if m[t] == 0 || m[t] == -10 {
          RevealAroundFlips(m1, w, h, column, row, -1, -1);
        }
      }
    }
  }

  lemma {:induction false} RevealAroundFlips(m: seq<int>, w: int, h: int, column: int, row: int, i: int, j: int)
    requires |m| == w * h && -1 <= i <= 2 && -1 <= j <= 2
    ensures FlipsOnly(m, RevealAround(m, w, h, column, row, i, j).board)
    decreases |HiddenSafeSet(m)|, 1, 4 * (2 - i) + (2 - j), 1
  {
    if i == 2 {
    } else if j == 2 {
      RevealAroundFlips(m, w, h, column, row, i + 1, -1);
    } else if i == 0 && j == 0 {
      RevealAroundFlips(m, w, h, column, row, i, j + 1);
    } else {
      RevealFromFlips(m, w, h, column, row, i, j);
    }
  }

  lemma {:induction false} RevealFromFlips(m: seq<int>, w: int, h: int, column: int, row: int, i: int, j: int)
    requires |m| == w * h && -1 <= i <= 1 && -1 <= j <= 1 && !(i == 0 && j == 0)
    ensures FlipsOnly(m, RevealFrom(m, w, h, column, row, i, j).board)
    decreases |HiddenSafeSet(m)|, 1, 4 * (2 - i) + (2 - j), 0
  {
    var first := RevealAt(m, w, h, column + i, row + j);
    RevealAtFlips(m, w, h, column + i, row + j);
    if !first.lost {
      RevealAroundFlips(first.board, w, h, column, row, i, j + 1);
      FlipsOnlyTrans(m, first.board, RevealAround(first.board, w, h, column, row, i, j + 1).board);
    }
  }

  /** Flipping keeps the encoding valid, keeps every mine a mine and every zero tile a zero
      tile, and therefore keeps the board consistent. */
  lemma FlipsPreserve(m: seq<int>, r: seq<int>, w: int)
    requires w > 0 && FlipsOnly(m, r) && WellFormed(m) && Consistent(m, w)
    ensures WellFormed(r) && Consistent(r, w)
    ensures forall i :: 0 <= i < |m| ==> (IsMine(r[i]) <==> IsMine(m[i])) && (IsZeroForm(m[i]) ==> IsZeroForm(r[i]))
  {
    forall i | 0 <= i < |m|
      ensures InEncoding(r[i]) && (IsMine(r[i]) <==> IsMine(m[i])) && (IsZeroForm(r[i]) <==> IsZeroForm(m[i]))
    {
    }
  }

  /** What the player sees at the end does not depend on how far a reveal got: the flips a
      reveal makes are exactly what reveal_map would do to those tiles anyway. */
  lemma EndMapAfterFlips(m: seq<int>, r: seq<int>)
    requires FlipsOnly(m, r) && WellFormed(m)
    ensures EndMap(r) == EndMap(m)
  {
    var a, b := EndMap(r), EndMap(m);
    forall i | 0 <= i < |m|
      ensures a[i] == b[i]
    {
    }
  }

  /** On a well-formed, consistent board a reveal loses exactly when the guessed tile is a mine:
      the flood fill never steps on one. */
  lemma {:induction false} RevealAtLoses(m: seq<int>, w: int, h: int, column: int, row: int)
    requires w > 0 && |m| == w * h && WellFormed(m) && Consistent(m, w)
    ensures RevealAt(m, w, h, column, row).lost <==>
      InGrid(w, h, Position(row, column)) && IsMine(TileAt(m, w, h, Position(row, column)))
    decreases |HiddenSafeSet(m)|, 0, 0, 0
  {
    var p := Position(row, column);
    RevealAtTarget(m, w, h, column, row);
    if InGrid(w, h, p) {
      IndexInRange(w, h, p);
      var t := Index(w, p);
      if !IsMine(m[t]) && m[t] <= 0 {
        FlipOne(m, t);
        var m1 := m[t := Flip(m[t])];
        if m[t] == 0 || m[t] == -10 {
          FlipsPreserve(m, m1, w);
          RevealAroundSafe(m1, w, h, column, row, -1, -1);
        }
      }
    }
  }

  lemma {:induction false} RevealAroundSafe(m: seq<int>, w: int, h: int, column: int, row: int, i: int, j: int)
    requires w > 0 && |m| == w * h && WellFormed(m) && Consistent(m, w) && -1 <= i <= 2 && -1 <= j <= 2
    requires InGrid(w, h, Position(row, column)) && IsZeroForm(TileAt(m, w, h, Position(row, column)))
    ensures !RevealAround(m, w, h, column, row, i, j).lost
    decreases |HiddenSafeSet(m)|, 1, 4 * (2 - i) + (2 - j), 1
  {
    if i == 2 {
    } else if j == 2 {
      RevealAroundSafe(m, w, h, column, row, i + 1, -1);
    } else if i == 0 && j == 0 {
      RevealAroundSafe(m, w, h, column, row, i, j + 1);
    } else {
      RevealFromSafe(m, w, h, column, row, i, j);
    }
  }

  lemma {:induction false} RevealFromSafe(m: seq<int>, w: int, h: int, column: int, row: int, i: int, j: int)
    requires w > 0 && |m| == w * h && WellFormed(m) && Consistent(m, w) && -1 <= i <= 1 && -1 <= j <= 1 && !(i == 0 && j == 0)
    requires InGrid(w, h, Position(row, column)) && IsZeroForm(TileAt(m, w, h, Position(row, column)))
    ensures !RevealFrom(m, w, h, column, row, i, j).lost
    decreases |HiddenSafeSet(m)|, 1, 4 * (2 - i) + (2 - j), 0
  {
    NeighbourNotMine(m, w, h, column, row, i, j);
    RevealAtLoses(m, w, h, column + i, row + j);
    var first := RevealAt(m, w, h, column + i, row + j);
    RevealAtFlips(m, w, h, column + i, row + j);
    ZeroCentreKeeps(m, first.board, w, h, column, row);
    RevealAroundSafe(first.board, w, h, column, row, i, j + 1);
  }

  /** On a consistent board, no neighbour of a zero tile is a mine. */
  lemma NeighbourNotMine(m: seq<int>, w: int, h: int, column: int, row: int, i: int, j: int)
    requires w > 0 && |m| == w * h && Consistent(m, w) && -1 <= i <= 1 && -1 <= j <= 1 && !(i == 0 && j == 0)
    requires InGrid(w, h, Position(row, column)) && IsZeroForm(TileAt(m, w, h, Position(row, column)))
    ensures InGrid(w, h, Position(row + j, column + i)) ==> !IsMine(TileAt(m, w, h, Position(row + j, column + i)))
  {
    var centre, q := Position(row, column), Position(row + j, column + i);
    IndexInRange(w, h, centre);
    if InGrid(w, h, q) {
      IndexInRange(w, h, q);
      assert Adjacent(PositionOf(w, Index(w, centre)), PositionOf(w, Index(w, q)));
    }
  }

  /** Flips keep a board well formed and consistent, and keep a zero centre a zero centre. */
  lemma ZeroCentreKeeps(m: seq<int>, r: seq<int>, w: int, h: int, column: int, row: int)
    requires w > 0 && |m| == w * h && WellFormed(m) && Consistent(m, w) && FlipsOnly(m, r)
    requires InGrid(w, h, Position(row, column)) && IsZeroForm(TileAt(m, w, h, Position(row, column)))
    ensures WellFormed(r) && Consistent(r, w) && IsZeroForm(TileAt(r, w, h, Position(row, column)))
  {
    FlipsPreserve(m, r, w);
    IndexInRange(w, h, Position(row, column));
  }

  /** Tile k of a board of width w is a neighbour of position p. */
  predicate Near(w: int, p: Position, k: int)
    requires w > 0
  {
    Adjacent(p, PositionOf(w, k))
  }

  /** Every in-grid neighbour of tile i is revealed. */
  ghost predicate Opened(b: seq<int>, w: int, i: int)
    requires w > 0
  {
    forall k {:trigger Near(w, PositionOf(w, i), k)} :: 0 <= k < |b| && Near(w, PositionOf(w, i), k) ==> b[k] > 0
  }

  /** The flood fill is complete: every tile that went from a hidden (or flagged) zero to
      revealed between m and r has all its neighbours revealed in r. */
  ghost predicate FloodClosed(m: seq<int>, r: seq<int>, w: int)
    requires w > 0 && |r| == |m|
  {
    forall i {:trigger Opened(r, w, i)} :: 0 <= i < |m| && IsZeroForm(m[i]) && m[i] <= 0 && r[i] > 0 ==> Opened(r, w, i)
  }

  /** The neighbour at offset (di, dj) comes at or after offset (i, j) in the source's loop order. */
  predicate NotBefore(di: int, dj: int, i: int, j: int) {
    di > i || (di == i && dj >= j)
  }

  lemma OpenedKeeps(a: seq<int>, b: seq<int>, w: int, i: int)
    requires w > 0 && FlipsOnly(a, b) && Opened(a, w, i)
    ensures Opened(b, w, i)
  {
  }

  /** The neighbours of (column, row) from offset (i, j) onwards, in the loop's order, are revealed. */
  ghost predicate OpenedFrom(b: seq<int>, w: int, column: int, row: int, i: int, j: int)
    requires w > 0
  {
    forall k {:trigger Near(w, Position(row, column), k)} ::
      (0 <= k < |b| && Near(w, Position(row, column), k) &&
       NotBefore(PositionOf(w, k).col - column, PositionOf(w, k).row - row, i, j)) ==>
      b[k] > 0
  }

  lemma FloodClosedCompose(m: seq<int>, a: seq<int>, b: seq<int>, w: int)
    requires w > 0 && FlipsOnly(m, a) && FlipsOnly(a, b) && FloodClosed(m, a, w) && FloodClosed(a, b, w)
    ensures FloodClosed(m, b, w)
  {
    forall k | 0 <= k < |m| && IsZeroForm(m[k]) && m[k] <= 0 && b[k] > 0
      ensures Opened(b, w, k)
    {
      if a[k] > 0 {
        OpenedKeeps(a, b, w, k);
      }
    }
  }

  /** Revealing the neighbour at offset (i, j), then the rest of the loop, opens every
      neighbour from (i, j) onwards. */
  lemma OpenedFromStep(a: seq<int>, b: seq<int>, w: int, h: int, column: int, row: int, i: int, j: int)
    requires w > 0 && |a| == w * h && FlipsOnly(a, b) && OpenedFrom(b, w, column, row, i, j + 1)
    requires InGrid(w, h, Position(row + j, column + i)) ==> TileAt(a, w, h, Position(row + j, column + i)) > 0
    ensures OpenedFrom(b, w, column, row, i, j)
  {
    forall k | 0 <= k < |b| && Near(w, Position(row, column), k) &&
      NotBefore(PositionOf(w, k).col - column, PositionOf(w, k).row - row, i, j)
      ensures b[k] > 0
    {
      var q := PositionOf(w, k);
      if q == Position(row + j, column + i) {
        PositionInRange(w, h, k);
      }
    }
  }

  /** A neighbour loop that does not lose reveals every neighbour from its cursor onwards. */
  lemma {:induction false} RevealAroundOpens(m: seq<int>, w: int, h: int, column: int, row: int, i: int, j: int)
    requires w > 0 && |m| == w * h && -1 <= i <= 2 && -1 <= j <= 2
    ensures var r := RevealAround(m, w, h, column, row, i, j);
      !r.lost ==> OpenedFrom(r.board, w, column, row, i, j)
    decreases |HiddenSafeSet(m)|, 4 * (2 - i) + (2 - j), 1
  {
    if i == 2 {
    } else if j == 2 {
      RevealAroundOpens(m, w, h, column, row, i + 1, -1);
    } else if i == 0 && j == 0 {
      RevealAroundOpens(m, w, h, column, row, i, j + 1);
    } else {
      RevealFromOpens(m, w, h, column, row, i, j);
    }
  }

  lemma {:induction false} RevealFromOpens(m: seq<int>, w: int, h: int, column: int, row: int, i: int, j: int)
    requires w > 0 && |m| == w * h && -1 <= i <= 1 && -1 <= j <= 1
    ensures var r := RevealFrom(m, w, h, column, row, i, j);
      !r.lost ==> OpenedFrom(r.board, w, column, row, i, j)
    decreases |HiddenSafeSet(m)|, 4 * (2 - i) + (2 - j), 0
  {
    var first := RevealAt(m, w, h, column + i, row + j);
    if !first.lost {
      var rest := RevealAround(first.board, w, h, column, row, i, j + 1);
      RevealAtTarget(m, w, h, column + i, row + j);
      RevealAroundFlips(first.board, w, h, column, row, i, j + 1);
      RevealAroundOpens(first.board, w, h, column, row, i, j + 1);
      if !rest.lost {
        OpenedFromStep(first.board, rest.board, w, h, column, row, i, j);
      }
    }
  }

  /** A reveal that does not lose completes its flood fill. */
  lemma {:induction false} RevealAtCloses(m: seq<int>, w: int, h: int, column: int, row: int)
    requires w > 0 && |m| == w * h
    ensures var r := RevealAt(m, w, h, column, row); !r.lost ==> FloodClosed(m, r.board, w)
    decreases |HiddenSafeSet(m)|, 0, 0, 0
  {
    var p := Position(row, column);
    RevealAtFlips(m, w, h, column, row);
    if InGrid(w, h, p) {
      IndexInRange(w, h, p);
      var t := Index(w, p);
      if !IsMine(m[t]) && m[t] <= 0 {
        FlipOne(m, t);
        var m1 := m[t := Flip(m[t])];
        if m[t] == 0 || m[t] == -10 {
          var rest := RevealAround(m1, w, h, column, row, -1, -1);
          if !rest.lost {
            RevealAroundCloses(m1, w, h, column, row, -1, -1);
            RevealAroundOpens(m1, w, h, column, row, -1, -1);
            CentreOpened(m, m1, rest.board, w, h, column, row);
          }
        }
      }
    }
  }

  /** The guessed zero tile is opened once its whole neighbour loop has run. */
  lemma CentreOpened(m: seq<int>, m1: seq<int>, b: seq<int>, w: int, h: int, column: int, row: int)
    requires w > 0 && |m| == w * h && InGrid(w, h, Position(row, column))
    requires var t := Index(w, Position(row, column)); 0 <= t < |m| && m1 == m[t := 10]
    requires |b| == |m| && FloodClosed(m1, b, w) && OpenedFrom(b, w, column, row, -1, -1)
    ensures FloodClosed(m, b, w)
  {
    var t := Index(w, Position(row, column));
    IndexInRange(w, h, Position(row, column));
    forall k | 0 <= k < |b| && Near(w, PositionOf(w, t), k)
      ensures b[k] > 0
    {
      var q := PositionOf(w, k);
      assert NotBefore(q.col - column, q.row - row, -1, -1);
    }
    assert Opened(b, w, t);
  }

  lemma {:induction false} RevealAroundCloses(m: seq<int>, w: int, h: int, column: int, row: int, i: int, j: int)
    requires w > 0 && |m| == w * h && -1 <= i <= 2 && -1 <= j <= 2
    ensures var r := RevealAround(m, w, h, column, row, i, j); !r.lost ==> FloodClosed(m, r.board, w)
    decreases |HiddenSafeSet(m)|, 1, 4 * (2 - i) + (2 - j), 1
  {
    if i == 2 {
    } else if j == 2 {
      RevealAroundCloses(m, w, h, column, row, i + 1, -1);
    } else if i == 0 && j == 0 {
      RevealAroundCloses(m, w, h, column, row, i, j + 1);
    } else {
      RevealFromCloses(m, w, h, column, row, i, j);
    }
  }

  lemma {:induction false} RevealFromCloses(m: seq<int>, w: int, h: int, column: int, row: int, i: int, j: int)
    requires w > 0 && |m| == w * h && -1 <= i <= 1 && -1 <= j <= 1 && !(i == 0 && j == 0)
    ensures var r := RevealFrom(m, w, h, column, row, i, j); !r.lost ==> FloodClosed(m, r.board, w)
    decreases |HiddenSafeSet(m)|, 1, 4 * (2 - i) + (2 - j), 0
  {
    var first := RevealAt(m, w, h, column + i, row + j);
    if !first.lost {
      var rest := RevealAround(first.board, w, h, column, row, i, j + 1);
      RevealAtCloses(m, w, h, column + i, row + j);
      RevealAtFlips(m, w, h, column + i, row + j);
      RevealAroundCloses(first.board, w, h, column, row, i, j + 1);
      RevealAroundFlips(first.board, w, h, column, row, i, j + 1);
      if !rest.lost {
        FloodClosedCompose(m, first.board, rest.board, w);
      }
    }
  }

  /** A chain of neighbouring tiles of m, every tile before the last a hidden or flagged
      zero: the path along which reveal_tile's recursion spreads. */
  ghost predicate Chain(m: seq<int>, w: int, ps: seq<int>)
    requires w > 0
  {
    |ps| >= 1 &&
    (forall n :: 0 <= n < |ps| ==> 0 <= ps[n] < |m|) &&
    (forall n :: 0 <= n < |ps| - 1 ==> (m[ps[n]] == 0 || m[ps[n]] == -10) && Near(w, PositionOf(w, ps[n]), ps[n + 1]))
  }

  /** Tile k can be reached from tile s through hidden zero tiles of m. */
  ghost predicate Reaches(m: seq<int>, w: int, s: int, k: int)
    requires w > 0
  {
    exists ps :: Chain(m, w, ps) && ps[0] == s && ps[|ps| - 1] == k
  }

  /** Tile k can be reached from some neighbour of position p. */
  ghost predicate ReachedAround(m: seq<int>, w: int, p: Position, k: int)
    requires w > 0
  {
    exists n :: 0 <= n < |m| && Near(w, p, n) && Reaches(m, w, n, k)
  }

  /** Every tile that differs between m and b is reached from a neighbour of p in m. */
  ghost predicate ChangesReachedAround(m: seq<int>, b: seq<int>, w: int, p: Position)
    requires w > 0
  {
    |b| == |m| && forall k :: 0 <= k < |m| && b[k] != m[k] ==> ReachedAround(m, w, p, k)
  }

  lemma ReachesSelf(m: seq<int>, w: int, s: int)
    requires w > 0 && 0 <= s < |m|
    ensures Reaches(m, w, s, s)
  {
    assert Chain(m, w, [s]);
  }

  /** A hidden zero tile reaches whatever its neighbours reach. */
  lemma ReachesStep(m: seq<int>, w: int, c: int, n: int, k: int)
    requires w > 0 && 0 <= c < |m| && (m[c] == 0 || m[c] == -10)
    requires Near(w, PositionOf(w, c), n) && Reaches(m, w, n, k)
    ensures Reaches(m, w, c, k)
  {
    var ps :| Chain(m, w, ps) && ps[0] == n && ps[|ps| - 1] == k;
    var qs := [c] + ps;
    forall x | 0 <= x < |qs| - 1
      ensures (m[qs[x]] == 0 || m[qs[x]] == -10) && Near(w, PositionOf(w, qs[x]), qs[x + 1])
    {
      if x > 0 {
        assert qs[x] == ps[x - 1] && qs[x + 1] == ps[x];
      }
    }
    assert Chain(m, w, qs);
  }

  /** Flips only reveal tiles, so a tile hidden in the flipped board was hidden before: a chain
      of the flipped board is a chain of the board before. */
  lemma ReachesLift(m: seq<int>, b: seq<int>, w: int, s: int, k: int)
    requires w > 0 && FlipsOnly(m, b) && Reaches(b, w, s, k)
    ensures Reaches(m, w, s, k)
  {
    var ps :| Chain(b, w, ps) && ps[0] == s && ps[|ps| - 1] == k;
    forall x | 0 <= x < |ps| - 1
      ensures m[ps[x]] == 0 || m[ps[x]] == -10
    {
      assert b[ps[x]] <= 0;
    }
    assert Chain(m, w, ps);
  }

  /** The neighbour at offset (i, j), when it is on the board, is a neighbour of the centre. */
  lemma NeighbourNear(w: int, h: int, column: int, row: int, i: int, j: int)
    requires w > 0 && -1 <= i <= 1 && -1 <= j <= 1 && !(i == 0 && j == 0)
    requires InGrid(w, h, Position(row + j, column + i))
    ensures var n := Index(w, Position(row + j, column + i)); 0 <= n < w * h && Near(w, Position(row, column), n)
  {
    IndexInRange(w, h, Position(row + j, column + i));
  }

  /** A reveal changes only tiles reachable from the guessed tile through hidden zero tiles
      of the board before it: the flood fill spreads from tiles it has just opened as zeros
      and from nowhere else. */
  lemma {:induction false} RevealAtReach(m: seq<int>, w: int, h: int, column: int, row: int)
    requires w > 0 && |m| == w * h
    ensures var r := RevealAt(m, w, h, column, row);
      forall k :: 0 <= k < |m| && r.board[k] != m[k] ==>
        InGrid(w, h, Position(row, column)) && Reaches(m, w, Index(w, Position(row, column)), k)
    decreases |HiddenSafeSet(m)|, 0, 0, 0
  {
    var p := Position(row, column);
    if InGrid(w, h, p) {
      IndexInRange(w, h, p);
      var t := Index(w, p);
      if !IsMine(m[t]) && m[t] <= 0 {
        FlipOne(m, t);
        ReachesSelf(m, w, t);
        var m1 := m[t := Flip(m[t])];
        if m[t] == 0 || m[t] == -10 {
          var rest := RevealAround(m1, w, h, column, row, -1, -1);
          RevealAroundReach(m1, w, h, column, row, -1, -1);
          forall k | 0 <= k < |m| && rest.board[k] != m[k]
            ensures Reaches(m, w, t, k)
          {
            if k != t {
              assert rest.board[k] != m1[k];
              var n :| 0 <= n < |m1| && Near(w, p, n) && Reaches(m1, w, n, k);
              ReachesLift(m, m1, w, n, k);
              ReachesStep(m, w, t, n, k);
            }
          }
        }
      }
    }
  }

  lemma {:induction false} RevealAroundReach(m: seq<int>, w: int, h: int, column: int, row: int, i: int, j: int)
    requires w > 0 && |m| == w * h && -1 <= i <= 2 && -1 <= j <= 2
    ensures ChangesReachedAround(m, RevealAround(m, w, h, column, row, i, j).board, w, Position(row, column))
    decreases |HiddenSafeSet(m)|, 1, 4 * (2 - i) + (2 - j), 1
  {
    if i == 2 {
    } else if j == 2 {
      RevealAroundReach(m, w, h, column, row, i + 1, -1);
    } else if i == 0 && j == 0 {
      RevealAroundReach(m, w, h, column, row, i, j + 1);
    } else {
      RevealFromReach(m, w, h, column, row, i, j);
    }
  }

  lemma {:induction false} RevealFromReach(m: seq<int>, w: int, h: int, column: int, row: int, i: int, j: int)
    requires w > 0 && |m| == w * h && -1 <= i <= 1 && -1 <= j <= 1 && !(i == 0 && j == 0)
    ensures ChangesReachedAround(m, RevealFrom(m, w, h, column, row, i, j).board, w, Position(row, column))
    decreases |HiddenSafeSet(m)|, 1, 4 * (2 - i) + (2 - j), 0
  {
    var first := RevealAt(m, w, h, column + i, row + j);
    RevealAtReach(m, w, h, column + i, row + j);
    NeighbourReach(m, w, h, column, row, i, j, first.board);
    if !first.lost {
      var rest := RevealAround(first.board, w, h, column, row, i, j + 1);
      RevealAtFlips(m, w, h, column + i, row + j);
      RevealAroundReach(first.board, w, h, column, row, i, j + 1);
      ReachedAroundLift(m, first.board, rest.board, w, Position(row, column));
    }
  }

  /** What the reveal of the neighbour at offset (i, j) changes is reached from that neighbour. */
  lemma NeighbourReach(m: seq<int>, w: int, h: int, column: int, row: int, i: int, j: int, b: seq<int>)
    requires w > 0 && |m| == w * h && |b| == |m| && -1 <= i <= 1 && -1 <= j <= 1 && !(i == 0 && j == 0)
    requires forall k :: 0 <= k < |m| && b[k] != m[k] ==>
      InGrid(w, h, Position(row + j, column + i)) && Reaches(m, w, Index(w, Position(row + j, column + i)), k)
    ensures ChangesReachedAround(m, b, w, Position(row, column))
  {
    forall k | 0 <= k < |m| && b[k] != m[k]
      ensures ReachedAround(m, w, Position(row, column), k)
    {
      NeighbourNear(w, h, column, row, i, j);
      assert Reaches(m, w, Index(w, Position(row + j, column + i)), k);
    }
  }

  /** Reach facts about a later board b carry over to the board m it was flipped from. */
  lemma ReachedAroundLift(m: seq<int>, b: seq<int>, c: seq<int>, w: int, p: Position)
    requires w > 0 && FlipsOnly(m, b) && ChangesReachedAround(m, b, w, p) && ChangesReachedAround(b, c, w, p)
    ensures ChangesReachedAround(m, c, w, p)
  {
    forall k | 0 <= k < |m| && c[k] != m[k] && c[k] != b[k]
      ensures ReachedAround(m, w, p, k)
    {
      var n :| 0 <= n < |b| && Near(w, p, n) && Reaches(b, w, n, k);
      ReachesLift(m, b, w, n, k);
    }
  }
}

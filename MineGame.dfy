/** The game around the board: main's set-up (Minesweeper.c:177-187), the bookkeeping of a
    guess in guess_screen (Minesweeper.c:596-605) and the built-in self-test scenario
    (Minesweeper.c:665-696).

    Between guesses main keeps the board and *free_positions; `InPlay` is the invariant that
    ties them together: the board is a valid, consistent encoding and the counter is exactly
    the number of free positions left on it. */
module MineGame {
  import opened MineTiles
  import opened MineGrid
  import opened MineReveal

  /** What a guess leads to: lose_screen, win_screen, or another round of main's loop. */
  datatype Outcome = Playing | Won | Lost

  ghost predicate InPlay(m: seq<int>, w: int, h: int, free: int) {
    w > 0 && h > 0 && |m| == w * h && WellFormed(m) && Consistent(m, w) && free == |HiddenSafeSet(m)|
  }

  /** main's set-up: an all-zero board, the planted positions placed by generate_map, and the
      counter started at width*height - num_mines and raised once per duplicate. */
  lemma StartInPlay(w: int, h: int, ps: seq<Position>)
    requires w > 0 && h > 0 && AllInGrid(w, h, ps)
    ensures InPlay(Generated(Zeros(w * h), w, h, ps), w, h, w * h - |ps| + Duplicates(Zeros(w * h), w, h, ps))
  {
    FreeAfterGenerate(w, h, ps);
    GenerateFromZeros(w, h, ps);
    LayoutConsistent(w, h, SetOf(ps));
  }

  /** guess_screen once a row and a column (both counted from 1) have been read. The source
      adds the score back to *free_positions, reveals, and subtracts the new score, which
      lowers the counter by the number of tiles flipped. On a mine lose_screen reveals the
      whole board and the program ends, so the counter is not updated. */
  method Guess(row: int, column: int, score: int, free: int, w: int, h: int, board: array<int>)
    returns (newScore: int, newFree: int, outcome: Outcome)
    requires w > 0 && h > 0 && board.Length == w * h
    modifies board
    ensures var r := RevealAt(old(board[..]), w, h, column - 1, row - 1);
      newScore == score + r.flipped &&
      (r.lost ==> outcome == Lost && board[..] == EndMap(r.board) && newFree == free) &&
      (!r.lost ==> board[..] == r.board && newFree == free - r.flipped &&
                   outcome == if newFree <= 0 then Won else Playing)
  {
    newFree := free + score;
    var lost;
    newScore, lost := RevealTile(column - 1, row - 1, score, w, h, board);
    if lost {
      RevealMap(w, h, board);
      return newScore, free, Lost;
    }
    newFree := newFree - newScore;
    outcome := if newFree <= 0 then Won else Playing;
  }

  /** A guess keeps the game invariant. It loses exactly when the guessed tile is a mine, and
      then the board shown is the end form of the board before the guess. Otherwise the
      counter stays equal to the free positions left, so the game is won exactly when none
      is left. */
  lemma GuessKeepsInPlay(m: seq<int>, w: int, h: int, free: int, row: int, column: int)
    requires InPlay(m, w, h, free)
    ensures var r := RevealAt(m, w, h, column - 1, row - 1);
      var p := Position(row - 1, column - 1);
      (r.lost <==> InGrid(w, h, p) && IsMine(TileAt(m, w, h, p))) &&
      (r.lost ==> EndMap(r.board) == EndMap(m)) &&
      (!r.lost ==> InPlay(r.board, w, h, free - r.flipped)) &&
      (!r.lost ==> (free - r.flipped <= 0 <==> HiddenSafeSet(r.board) == {}))
  {
    var r := RevealAt(m, w, h, column - 1, row - 1);
    RevealAtLoses(m, w, h, column - 1, row - 1);
    RevealAtFlips(m, w, h, column - 1, row - 1);
    FlipsPreserve(m, r.board, w);
    EndMapAfterFlips(m, r.board);
  }

  /** Marking a tile on the board keeps the game invariant with the same counter. */
  lemma MarkKeepsInPlay(m: seq<int>, w: int, h: int, free: int, p: Position)
    requires InPlay(m, w, h, free) && InGrid(w, h, p)
    ensures InPlay(Marked(m, w, h, p), w, h, free)
  {
    MarkKeepsInvariants(m, w, h, p);
  }

  /** The self-test board (Minesweeper.c:668-674): 5 columns, 4 rows, a mine in the last tile
      (row 3, column 4) and -1 on its three neighbours. */
  function TestBoard(): (m: seq<int>)
    ensures |m| == 20
    ensures forall k :: 0 <= k < 20 ==> -9 <= m[k] <= 0 && (IsMine(m[k]) <==> k == 19)
  {
    Zeros(20)[19 := -9][14 := -1][13 := -1][18 := -1]
  }

  /** The hand-written test board is exactly the board generate_map builds for that one mine. */
  lemma TestBoardIsLayout()
    ensures TestBoard() == Layout(5, 4, {Position(3, 4)})
  {
    var b, l := TestBoard(), Layout(5, 4, {Position(3, 4)});
    forall i | 0 <= i < 20
      ensures b[i] == l[i]
    {
      var p := PositionOf(5, i);
      assert p == Position(i / 5, i % 5);
    }
  }

  /** A zero tile that a closed flood fill revealed passes the reveal on to its neighbour k. */
  lemma Spread(m: seq<int>, r: seq<int>, w: int, i: int, k: int)
    requires w > 0 && |r| == |m| && FloodClosed(m, r, w)
    requires 0 <= i < |m| && IsZeroForm(m[i]) && m[i] <= 0
    requires 0 <= k < |m| && Near(w, PositionOf(w, i), k)
    ensures r[i] > 0 ==> r[k] > 0
  {
    if r[i] > 0 {
      assert Opened(r, w, i);
    }
  }

  /** On the test board, a closed flood fill that revealed any zero tile also revealed the
      corner tile 0: the zero tiles form one connected region. */
  lemma TestBoardToCorner(rb: seq<int>, t: int)
    requires |rb| == 20 && FloodClosed(TestBoard(), rb, 5)
    requires 0 <= t < 20 && TestBoard()[t] == 0 && rb[t] > 0
    ensures rb[0] > 0
  {
    var b := TestBoard();
    assert t in {0, 1, 2, 3, 4, 5, 6, 7, 8, 9, 10, 11, 12, 15, 16, 17};
    Spread(b, rb, 5, 4, 3); Spread(b, rb, 5, 3, 2); Spread(b, rb, 5, 2, 1); Spread(b, rb, 5, 1, 0);
    Spread(b, rb, 5, 9, 8); Spread(b, rb, 5, 8, 7); Spread(b, rb, 5, 7, 6); Spread(b, rb, 5, 6, 5);
    Spread(b, rb, 5, 12, 11); Spread(b, rb, 5, 11, 10);
    Spread(b, rb, 5, 17, 16); Spread(b, rb, 5, 16, 15);
    Spread(b, rb, 5, 15, 10); Spread(b, rb, 5, 10, 5); Spread(b, rb, 5, 5, 0);
  }

  /** On the test board, a closed flood fill that revealed the corner tile revealed every tile
      but the mine. */
  lemma TestBoardFromCorner(rb: seq<int>)
    requires |rb| == 20 && FloodClosed(TestBoard(), rb, 5) && rb[0] > 0
    ensures forall k :: 0 <= k < 19 ==> rb[k] > 0
  {
    var b := TestBoard();
    Spread(b, rb, 5, 0, 1); Spread(b, rb, 5, 1, 2); Spread(b, rb, 5, 2, 3); Spread(b, rb, 5, 3, 4);
    Spread(b, rb, 5, 0, 5); Spread(b, rb, 5, 5, 6); Spread(b, rb, 5, 6, 7); Spread(b, rb, 5, 7, 8);
    Spread(b, rb, 5, 8, 9); Spread(b, rb, 5, 5, 10); Spread(b, rb, 5, 10, 11); Spread(b, rb, 5, 11, 12);
    Spread(b, rb, 5, 10, 15); Spread(b, rb, 5, 15, 16); Spread(b, rb, 5, 16, 17);
    // The three numbered tiles next to the mine.
    Spread(b, rb, 5, 12, 13); Spread(b, rb, 5, 9, 14); Spread(b, rb, 5, 12, 18);
  }

  /** On the test board, a guess on any zero tile loses nothing and opens every tile but the
      mine, which stays a hidden mine. */
  lemma TestBoardFloods(column: int, row: int)
    requires InGrid(5, 4, Position(row, column)) && TileAt(TestBoard(), 5, 4, Position(row, column)) == 0
    ensures var rb := RevealAt(TestBoard(), 5, 4, column, row).board;
      !RevealAt(TestBoard(), 5, 4, column, row).lost && |rb| == 20 && rb[19] == -9 &&
      forall k :: 0 <= k < 19 ==> rb[k] > 0
  {
    var b := TestBoard();
    TestBoardIsLayout();
    LayoutConsistent(5, 4, {Position(3, 4)});
    var r := RevealAt(b, 5, 4, column, row);
    RevealAtLoses(b, 5, 4, column, row);
    RevealAtTarget(b, 5, 4, column, row);
    RevealAtCloses(b, 5, 4, column, row);
    RevealAtFlips(b, 5, 4, column, row);
    IndexInRange(5, 4, Position(row, column));
    TestBoardToCorner(r.board, row * 5 + column);
    TestBoardFromCorner(r.board);
    assert r.board[19] == b[19];
  }

  /** A test board with every tile but the mine opened has no hidden safe tile left. */
  lemma TestBoardCleared(rb: seq<int>)
    requires |rb| == 20 && rb[19] == -9 && forall k :: 0 <= k < 19 ==> rb[k] > 0
    ensures HiddenSafeSet(rb) == {}
  {
    forall i | 0 <= i < 20
      ensures !IsHiddenSafe(rb[i])
    {
    }
  }

  /** Test case 1 (Minesweeper.c:665-685): a guess on any zero tile of the test board (the
      test guesses column 1, row 1) opens every one of the 19 safe tiles, scores 19 and wins. */
  lemma SelfTestWin(column: int, row: int)
    requires InGrid(5, 4, Position(row, column)) && TileAt(TestBoard(), 5, 4, Position(row, column)) == 0
    ensures var r := RevealAt(TestBoard(), 5, 4, column, row);
      !r.lost && r.flipped == 19 && HiddenSafeSet(r.board) == {}
  {
    TestBoardIsLayout();
    LayoutCounts(5, 4, {Position(3, 4)});
    TestBoardFloods(column, row);
    TestBoardCleared(RevealAt(TestBoard(), 5, 4, column, row).board);
  }

  /** The end form of the test board: the mine shows 9, its three neighbours 1 and every
      other tile 10. */
  lemma TestBoardEndForm()
    ensures var e := EndMap(TestBoard());
      |e| == 20 && e[19] == 9 && e[13] == 1 && e[14] == 1 && e[18] == 1 &&
      forall k :: 0 <= k < 20 && k != 13 && k != 14 && k != 18 && k != 19 ==> e[k] == 10
  {
    var b := TestBoard();
    forall k | 0 <= k < 20 && k != 13 && k != 14 && k != 18 && k != 19
      ensures EndMap(b)[k] == 10
    {
      assert b[k] == 0;
    }
  }

  /** Test case 2 (Minesweeper.c:690-696): whatever test case 1 guessed, on the board it left
      guessing column 4, row 3 steps on the mine, and reveal_tile itself flips nothing.
      lose_screen then runs reveal_map and, in test mode, returns (Minesweeper.c:619, 624):
      the board is left in the end form of the test board. */
  lemma SelfTestLose(column: int, row: int)
    ensures var r := RevealAt(TestBoard(), 5, 4, column, row);
      RevealAt(r.board, 5, 4, 4, 3) == Sweep(r.board, 0, true)
    ensures var e := EndMap(RevealAt(TestBoard(), 5, 4, column, row).board);
      |e| == 20 && e[19] == 9 && e[13] == 1 && e[14] == 1 && e[18] == 1 &&
      forall k :: 0 <= k < 20 && k != 13 && k != 14 && k != 18 && k != 19 ==> e[k] == 10
  {
    var b := TestBoard();
    var r := RevealAt(b, 5, 4, column, row);
    RevealAtFlips(b, 5, 4, column, row);
    assert r.board[19] == -9;
    RevealAtTarget(r.board, 5, 4, 4, 3);
    TestBoardIsLayout();
    LayoutConsistent(5, 4, {Position(3, 4)});
    EndMapAfterFlips(b, r.board);
    TestBoardEndForm();
  }
}

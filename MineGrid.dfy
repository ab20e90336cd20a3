/** The Minesweeper board and the operations of Minesweeper.c that rewrite it as a whole:
    initialize_map, plant_mines, generate_map, reveal_map and mark_tile.

    The board is a flat `array<int>` of width*height tiles; the tile in row r and column c
    sits at index r*width + c. Each in-place method is specified by a function on the old
    contents of the array, and the properties the program relies on are lemmas about those
    functions. */
module MineGrid {
  import opened MineTiles

  /** A board coordinate. A planted mine is {row, column} (Minesweeper.c:39-40). */
  datatype Position = Position(row: int, col: int)

  predicate InGrid(w: int, h: int, p: Position) {
    0 <= p.row < h && 0 <= p.col < w
  }

  /** Where a tile lives in the flat array. */
  function Index(w: int, p: Position): int {
    p.row * w + p.col
  }

  function PositionOf(w: int, i: int): Position
    requires w > 0
  {
    Position(i / w, i % w)
  }

  lemma MulMono(a: int, b: int, w: int)
    requires a <= b && w >= 0
    ensures a * w <= b * w
  {
    assert b * w - a * w == (b - a) * w;
  }

  /** Euclidean division has one quotient and one remainder. */
  lemma DivModUnique(i: int, w: int, q: int, r: int)
    requires w > 0 && i == q * w + r && 0 <= r < w
    ensures i / w == q && i % w == r
  {
    var q', r' := i / w, i % w;
    assert i == q' * w + r';
    if q' < q {
      MulMono(q' + 1, q, w);
    } else if q < q' {
      MulMono(q + 1, q', w);
    }
  }

  lemma IndexInRange(w: int, h: int, p: Position)
    requires w > 0 && InGrid(w, h, p)
    ensures 0 <= Index(w, p) < w * h
    ensures PositionOf(w, Index(w, p)) == p
  {
    MulMono(p.row, h - 1, w);
    MulMono(0, p.row, w);
    DivModUnique(Index(w, p), w, p.row, p.col);
  }

  lemma PositionInRange(w: int, h: int, i: int)
    requires w > 0 && 0 <= i < w * h
    ensures InGrid(w, h, PositionOf(w, i)) && Index(w, PositionOf(w, i)) == i
  {
    var q := i / w;
    if q >= h {
      MulMono(h, q, w);
    }
    if q < 0 {
      MulMono(q, -1, w);
    }
  }

  /** The tile at p of a flat board. */
  function TileAt(m: seq<int>, w: int, h: int, p: Position): int
    requires w > 0 && |m| == w * h && InGrid(w, h, p)
  {
    IndexInRange(w, h, p);
    m[Index(w, p)]
  }

  /** Two different tiles that touch horizontally, vertically or diagonally. */
  predicate Adjacent(p: Position, q: Position) {
    p != q && -1 <= p.row - q.row <= 1 && -1 <= p.col - q.col <= 1
  }

  function Has(mines: set<Position>, row: int, col: int): nat {
    if Position(row, col) in mines then 1 else 0
  }

  /** How many of the eight positions around p hold a mine. */
  function MinesAround(mines: set<Position>, p: Position): (n: nat)
    ensures n <= 8
  {
    Has(mines, p.row - 1, p.col - 1) + Has(mines, p.row - 1, p.col) + Has(mines, p.row - 1, p.col + 1) +
    Has(mines, p.row, p.col - 1) + Has(mines, p.row, p.col + 1) +
    Has(mines, p.row + 1, p.col - 1) + Has(mines, p.row + 1, p.col) + Has(mines, p.row + 1, p.col + 1)
  }

  lemma MinesAroundZero(mines: set<Position>, p: Position)
    ensures MinesAround(mines, p) == 0 <==> forall q :: q in mines ==> !Adjacent(q, p)
  {
    if MinesAround(mines, p) == 0 {
      forall q | q in mines
        ensures !Adjacent(q, p)
      {
      }
    }
  }

  /** Adding one mine raises the count around p by one exactly when that mine is new and touches p. */
  lemma MinesAroundAdd(mines: set<Position>, m: Position, p: Position)
    ensures MinesAround(mines + {m}, p) ==
            MinesAround(mines, p) + (if m !in mines && Adjacent(m, p) then 1 else 0)
  {
    var more := mines + {m};
    if m in mines {
      assert more == mines;
    } else {
      forall r, c
        ensures Has(more, r, c) == Has(mines, r, c) + (if m == Position(r, c) then 1 else 0)
      {
      }
    }
  }

  /** The board that generate_map produces on an all-zero board: a mine tile holds -9 and
      every other tile minus the number of distinct mines around it (Minesweeper.c:58). */
  function Layout(w: int, h: int, mines: set<Position>): (m: seq<int>)
    requires w > 0 && h > 0
    ensures |m| == w * h
    ensures forall i :: 0 <= i < |m| ==> -9 <= m[i] <= 0
  {
    seq(w * h, i => var p := PositionOf(w, i); if p in mines then -9 else -(MinesAround(mines, p) as int))
  }

  function Zeros(n: nat): seq<int> {
    seq(n, _ => 0)
  }

  /** initialize_map (Minesweeper.c:201-210): every one of the width*height tiles becomes 0. */
  method InitializeMap(w: int, h: int, board: array<int>)
    requires w > 0 && h > 0 && board.Length == w * h
    modifies board
    ensures board[..] == Zeros(w * h)
  {
    for row := 0 to h
      invariant forall i :: 0 <= i < board.Length && i < row * w ==> board[i] == 0
    {
      for column := 0 to w
        invariant forall i :: 0 <= i < board.Length && i < row * w + column ==> board[i] == 0
      {
        IndexInRange(w, h, Position(row, column));
        board[row * w + column] := 0;
      }
      assert (row + 1) * w == row * w + w;
    }
  }

  ghost predicate AllInGrid(w: int, h: int, ps: seq<Position>) {
    forall k :: 0 <= k < |ps| ==> InGrid(w, h, ps[k])
  }

  /** plant_mines (Minesweeper.c:213-220) with the random numbers supplied: mine k draws its row
      from draws[2k] and its column from draws[2k+1], each reduced modulo the board size, so
      every position lies on the board. Duplicates are kept. */
  method PlantMines(num: nat, w: int, h: int, draws: seq<nat>) returns (positions: seq<Position>)
    requires w > 0 && h > 0 && |draws| == 2 * num
    ensures |positions| == num
    ensures forall k :: 0 <= k < num ==> positions[k] == Position(draws[2 * k] % h, draws[2 * k + 1] % w)
    ensures AllInGrid(w, h, positions)
  {
    positions := [];
    for k := 0 to num
      invariant |positions| == k
      invariant forall k' :: 0 <= k' < k ==> positions[k'] == Position(draws[2 * k'] % h, draws[2 * k' + 1] % w)
      invariant AllInGrid(w, h, positions)
    {
      var row := draws[2 * k] % h;
      var column := draws[2 * k + 1] % w;
      positions := positions + [Position(row, column)];
    }
  }

  /** One round of generate_map's loop (Minesweeper.c:233-271): a position that already holds
      a mine changes nothing; otherwise it becomes a hidden mine and each neighbour on the board
      gains one neighbouring mine. */
  function PlaceMine(m: seq<int>, w: int, h: int, p: Position): (r: seq<int>)
    requires w > 0 && |m| == w * h && InGrid(w, h, p)
    ensures |r| == |m|
    ensures IsMine(TileAt(r, w, h, p))
    ensures forall i :: 0 <= i < |m| && IsMine(m[i]) ==> r[i] == m[i]
    ensures forall i :: 0 <= i < |m| && i != Index(w, p) && !Adjacent(PositionOf(w, i), p) ==> r[i] == m[i]
  {
    IndexInRange(w, h, p);
    var c := Index(w, p);
    if IsMine(m[c]) then m
    else seq(|m|, i requires 0 <= i < |m| =>
               if i == c then -9
               else if Adjacent(PositionOf(w, i), p) then Bump(m[i])
               else m[i])
  }

  /** The board after generate_map has placed every position of ps, in order. */
  function Generated(m: seq<int>, w: int, h: int, ps: seq<Position>): (r: seq<int>)
    requires w > 0 && |m| == w * h && AllInGrid(w, h, ps)
    ensures |r| == |m|
    ensures forall k :: 0 <= k < |ps| ==> IsMine(TileAt(r, w, h, ps[k]))
  {
    if ps == [] then m
    else
      var prev := Generated(m, w, h, ps[..|ps| - 1]);
      PlaceMineKeepsMines(prev, w, h, ps[|ps| - 1], ps[..|ps| - 1]);
      PlaceMine(prev, w, h, ps[|ps| - 1])
  }

  /** Placing a mine keeps the mines already placed at qs, and adds one at p. */
  lemma PlaceMineKeepsMines(m: seq<int>, w: int, h: int, p: Position, qs: seq<Position>)
    requires w > 0 && |m| == w * h && InGrid(w, h, p) && AllInGrid(w, h, qs)
    requires forall k :: 0 <= k < |qs| ==> IsMine(TileAt(m, w, h, qs[k]))
    ensures var r := PlaceMine(m, w, h, p);
      IsMine(TileAt(r, w, h, p)) && forall k :: 0 <= k < |qs| ==> IsMine(TileAt(r, w, h, qs[k]))
  {
    forall k | 0 <= k < |qs|
      ensures IsMine(TileAt(PlaceMine(m, w, h, p), w, h, qs[k]))
    {
      IndexInRange(w, h, qs[k]);
    }
  }

  /** How many positions of ps found a mine already in place: what generate_map adds to
      *free_positions. */
  function Duplicates(m: seq<int>, w: int, h: int, ps: seq<Position>): (n: nat)
    requires w > 0 && |m| == w * h && AllInGrid(w, h, ps)
    ensures n <= |ps|
  {
    if ps == [] then 0
    else
      var prev := Generated(m, w, h, ps[..|ps| - 1]);
      IndexInRange(w, h, ps[|ps| - 1]);
      Duplicates(m, w, h, ps[..|ps| - 1]) + (if IsMine(prev[Index(w, ps[|ps| - 1])]) then 1 else 0)
  }

  /** generate_map (Minesweeper.c:223-274). The source indexes the board without a bounds
      check; plant_mines only produces positions on the board. */
  method GenerateMap(w: int, h: int, freePositions: int, positions: seq<Position>, board: array<int>)
    returns (free: int)
    requires w > 0 && board.Length == w * h && AllInGrid(w, h, positions)
    modifies board
    ensures board[..] == Generated(old(board[..]), w, h, positions)
    ensures free == freePositions + Duplicates(old(board[..]), w, h, positions)
  {
    free := freePositions;
    for k := 0 to |positions|
      invariant board[..] == Generated(old(board[..]), w, h, positions[..k])
      invariant free == freePositions + Duplicates(old(board[..]), w, h, positions[..k])
    {
      var mine := positions[k];
      assert positions[..k + 1][..k] == positions[..k];
      IndexInRange(w, h, mine);
      var tile := mine.row * w + mine.col;
      if board[tile] == -9 || board[tile] == -19 || board[tile] == 9 {
        free := free + 1;
      } else {
        SurroundMine(w, h, mine, board);
      }
    }
    assert positions[..|positions|] == positions;
  }

  /** Offset (dr, dc) comes before (j, k) in the row-major order of generate_map's inner loops. */
  predicate Before(dr: int, dc: int, j: int, k: int) {
    dr < j || (dr == j && dc < k)
  }

  /** Tile t once generate_map has made `mine` a mine and visited the neighbour offsets before (j, k). */
  function SurroundedTile(m0: seq<int>, w: int, mine: Position, j: int, k: int, t: int): int
    requires w > 0 && 0 <= t < |m0|
  {
    var q := PositionOf(w, t);
    if t == Index(w, mine) then -9
    else if Adjacent(q, mine) && Before(q.row - mine.row, q.col - mine.col, j, k) then Bump(m0[t])
    else m0[t]
  }

  ghost predicate SurroundedUpTo(b: seq<int>, m0: seq<int>, w: int, mine: Position, j: int, k: int)
    requires w > 0
  {
    |b| == |m0| && forall t :: 0 <= t < |b| ==> b[t] == SurroundedTile(m0, w, mine, j, k, t)
  }

  /** An offset that is the centre or falls off the board changes nothing. */
  lemma SurroundSkip(b: seq<int>, m0: seq<int>, w: int, h: int, mine: Position, j: int, k: int)
    requires w > 0 && |m0| == w * h && SurroundedUpTo(b, m0, w, mine, j, k)
    requires (j == 0 && k == 0) || !InGrid(w, h, Position(mine.row + j, mine.col + k))
    ensures SurroundedUpTo(b, m0, w, mine, j, k + 1)
  {
    forall t | 0 <= t < |b|
      ensures b[t] == SurroundedTile(m0, w, mine, j, k + 1, t)
    {
      PositionInRange(w, h, t);
    }
  }

  /** A neighbour on the board is visited once, so it still holds its value from before the round. */
  lemma SurroundVisit(b: seq<int>, m0: seq<int>, w: int, h: int, mine: Position, j: int, k: int)
    requires w > 0 && |m0| == w * h && SurroundedUpTo(b, m0, w, mine, j, k)
    requires InGrid(w, h, mine) && -1 <= j <= 1 && -1 <= k <= 1 && !(j == 0 && k == 0)
    requires InGrid(w, h, Position(mine.row + j, mine.col + k))
    ensures var t := Index(w, Position(mine.row + j, mine.col + k));
      0 <= t < |b| && b[t] == m0[t] &&
      SurroundedUpTo(b[t := Bump(b[t])], m0, w, mine, j, k + 1)
  {
    var p := Position(mine.row + j, mine.col + k);
    IndexInRange(w, h, p);
    IndexInRange(w, h, mine);
    var t := Index(w, p);
    var b' := b[t := Bump(b[t])];
    forall t' | 0 <= t' < |b'|
      ensures b'[t'] == SurroundedTile(m0, w, mine, j, k + 1, t')
    {
      PositionInRange(w, h, t');
    }
  }

  /** Making the centre a mine starts the round. */
  lemma SurroundStart(m0: seq<int>, w: int, h: int, mine: Position)
    requires w > 0 && |m0| == w * h && InGrid(w, h, mine)
    ensures var c := Index(w, mine); 0 <= c < |m0| && SurroundedUpTo(m0[c := -9], m0, w, mine, -1, -1)
  {
    IndexInRange(w, h, mine);
  }

  lemma SurroundNextRow(b: seq<int>, m0: seq<int>, w: int, mine: Position, j: int)
    requires w > 0 && SurroundedUpTo(b, m0, w, mine, j, 2)
    ensures SurroundedUpTo(b, m0, w, mine, j + 1, -1)
  {
  }

  lemma SurroundDone(b: seq<int>, m0: seq<int>, w: int, h: int, mine: Position)
    requires w > 0 && |m0| == w * h && InGrid(w, h, mine) && SurroundedUpTo(b, m0, w, mine, 2, -1)
    requires !IsMine(TileAt(m0, w, h, mine))
    ensures b == PlaceMine(m0, w, h, mine)
  {
    IndexInRange(w, h, mine);
    var c := Index(w, mine);
    var r := PlaceMine(m0, w, h, mine);
    assert r == seq(|m0|, i requires 0 <= i < |m0| =>
                      if i == c then -9
                      else if Adjacent(PositionOf(w, i), mine) then Bump(m0[i])
                      else m0[i]);
    forall t | 0 <= t < |b|
      ensures b[t] == r[t]
    {
      assert b[t] == SurroundedTile(m0, w, mine, 2, -1, t);
    }
  }

  /** generate_map's update of one neighbour of a new mine (Minesweeper.c:263-270). */
  method BumpTile(board: array<int>, tile: int)
    requires 0 <= tile < board.Length
    modifies board
    ensures board[..] == old(board[..])[tile := Bump(old(board[tile]))]
  {
    if board[tile] == -9 || board[tile] == -19 || board[tile] == 9 {
    } else if board[tile] <= 0 {
      board[tile] := board[tile] - 1;
    } else if board[tile] == 10 {
      board[tile] := 1;
    } else {
      board[tile] := board[tile] + 1;
    }
  }

  /** The body of generate_map for a position without a mine (Minesweeper.c:240-271). */
  method SurroundMine(w: int, h: int, mine: Position, board: array<int>)
    requires w > 0 && board.Length == w * h && InGrid(w, h, mine)
    requires !IsMine(TileAt(board[..], w, h, mine))
    modifies board
    ensures board[..] == PlaceMine(old(board[..]), w, h, mine)
  {
    ghost var m0 := board[..];
    IndexInRange(w, h, mine);
    SurroundStart(m0, w, h, mine);
    var c := mine.row * w + mine.col;
    board[c] := -9;
    for j := -1 to 2
      invariant SurroundedUpTo(board[..], m0, w, mine, j, -1)
    {
      for k := -1 to 2
        invariant SurroundedUpTo(board[..], m0, w, mine, j, k)
      {
        var row := mine.row + j;
        var column := mine.col + k;
        if !(j == 0 && k == 0) && 0 <= row < h && 0 <= column < w {
          SurroundVisit(board[..], m0, w, h, mine, j, k);
          var tile := row * w + column;
          BumpTile(board, tile);
        } else {
          SurroundSkip(board[..], m0, w, h, mine, j, k);
        }
      }
      SurroundNextRow(board[..], m0, w, mine, j);
    }
    SurroundDone(board[..], m0, w, h, mine);
  }

  /** The distinct positions of a list of planted mines. */
  ghost function SetOf(ps: seq<Position>): set<Position> {
    set p | p in ps
  }

  ghost predicate AllMinesInGrid(w: int, h: int, mines: set<Position>) {
    forall p :: p in mines ==> InGrid(w, h, p)
  }

  /** Indices of the tiles that hold -9. */
  ghost function MineIndices(m: seq<int>): set<int> {
    set i | 0 <= i < |m| && m[i] == -9
  }

  /** Indices of the tiles that are still free positions: hidden or flagged, and not mines. */
  ghost function HiddenSafeSet(m: seq<int>): set<int> {
    set i | 0 <= i < |m| && IsHiddenSafe(m[i])
  }

  ghost predicate WellFormed(m: seq<int>) {
    forall i :: 0 <= i < |m| ==> InEncoding(m[i])
  }

  /** No tile that shows zero neighbouring mines touches a mine. */
  ghost predicate Consistent(m: seq<int>, w: int)
    requires w > 0
  {
    forall i, j ::
      (0 <= i < |m| && 0 <= j < |m| && IsZeroForm(m[i]) && Adjacent(PositionOf(w, i), PositionOf(w, j))) ==>
      !IsMine(m[j])
  }

  lemma ZerosIsEmptyLayout(w: int, h: int)
    requires w > 0 && h > 0
    ensures Zeros(w * h) == Layout(w, h, {})
  {
    var l := Layout(w, h, {});
    forall i | 0 <= i < w * h
      ensures l[i] == 0
    {
    }
  }

  /** Placing a mine on a layout: the position already holds a mine exactly when it is in the
      set, and a new mine gives the layout of the larger set. */
  lemma PlaceMineLayout(w: int, h: int, mines: set<Position>, p: Position)
    requires w > 0 && h > 0 && InGrid(w, h, p)
    ensures IsMine(TileAt(Layout(w, h, mines), w, h, p)) <==> p in mines
    ensures PlaceMine(Layout(w, h, mines), w, h, p) == Layout(w, h, mines + {p})
  {
    IndexInRange(w, h, p);
    var l, l' := Layout(w, h, mines), Layout(w, h, mines + {p});
    var c := Index(w, p);
    assert l[c] == if p in mines then -9 else -(MinesAround(mines, p) as int);
    if p in mines {
      assert mines + {p} == mines;
    } else {
      var r := PlaceMine(l, w, h, p);
      forall t | 0 <= t < w * h
        ensures r[t] == l'[t]
      {
        var q := PositionOf(w, t);
        PositionInRange(w, h, t);
        MinesAroundAdd(mines, p, q);
      }
    }
  }

  /** generate_map on an all-zero board builds the layout of the distinct planted positions,
      and counts as duplicates exactly the positions that repeat an earlier one. */
  lemma {:induction false} GenerateFromZeros(w: int, h: int, ps: seq<Position>)
    requires w > 0 && h > 0 && AllInGrid(w, h, ps)
    ensures Generated(Zeros(w * h), w, h, ps) == Layout(w, h, SetOf(ps))
    ensures Duplicates(Zeros(w * h), w, h, ps) == |ps| - |SetOf(ps)|
  {
    if ps == [] {
      ZerosIsEmptyLayout(w, h);
      assert SetOf(ps) == {};
    } else {
      var init, last := ps[..|ps| - 1], ps[|ps| - 1];
      GenerateFromZeros(w, h, init);
      assert ps == init + [last];
      assert SetOf(ps) == SetOf(init) + {last};
      PlaceMineLayout(w, h, SetOf(init), last);
      IndexInRange(w, h, last);
    }
  }

  /** The tile of a generated board, position by position. */
  lemma GeneratedTile(w: int, h: int, ps: seq<Position>, q: Position)
    requires w > 0 && h > 0 && AllInGrid(w, h, ps) && InGrid(w, h, q)
    ensures TileAt(Generated(Zeros(w * h), w, h, ps), w, h, q) ==
            if q in ps then -9 else -(MinesAround(SetOf(ps), q) as int)
  {
    GenerateFromZeros(w, h, ps);
    IndexInRange(w, h, q);
  }

  lemma {:induction false} ImageOfMines(w: int, h: int, mines: set<Position>)
    requires w > 0 && AllMinesInGrid(w, h, mines)
    ensures |set p | p in mines :: Index(w, p)| == |mines|
  {
    if mines != {} {
      var x :| x in mines;
      var rest := mines - {x};
      ImageOfMines(w, h, rest);
      var img, img' := set p | p in mines :: Index(w, p), set p | p in rest :: Index(w, p);
      assert img == img' + {Index(w, x)};
      if Index(w, x) in img' {
        var y :| y in rest && Index(w, y) == Index(w, x);
        IndexInRange(w, h, x);
        IndexInRange(w, h, y);
      }
    }
  }

  /** `0 <= i < n` as a named predicate: inside a set comprehension it gives the quantifier
      over i a term to trigger on, which a bare comparison does not. */
  predicate Below(i: int, n: int) {
    0 <= i < n
  }

  /** The indices 0..n form a set of n elements. */
  lemma {:induction false} RangeSize(n: nat)
    ensures |set i | 0 <= i < n && Below(i, n)| == n
  {
    if n > 0 {
      var k := n - 1;
      RangeSize(k);
      assert (set i | 0 <= i < n && Below(i, n)) == (set i | 0 <= i < k && Below(i, k)) + {k};
    }
  }

  /** A layout holds exactly one -9 tile per distinct mine, and every other tile is a free position. */
  lemma LayoutCounts(w: int, h: int, mines: set<Position>)
    requires w > 0 && h > 0 && AllMinesInGrid(w, h, mines)
    ensures |MineIndices(Layout(w, h, mines))| == |mines|
    ensures |HiddenSafeSet(Layout(w, h, mines))| == w * h - |mines|
  {
    var l := Layout(w, h, mines);
    var img := set p | p in mines :: Index(w, p);
    forall i | i in MineIndices(l)
      ensures i in img
    {
      PositionInRange(w, h, i);
    }
    forall p | p in mines
      ensures Index(w, p) in MineIndices(l)
    {
      IndexInRange(w, h, p);
    }
    assert MineIndices(l) == img;
    ImageOfMines(w, h, mines);
    var all := set i | 0 <= i < w * h && Below(i, w * h);
    assert HiddenSafeSet(l) == all - MineIndices(l);
    RangeSize(w * h);
  }

  /** What main and generate_map do together (Minesweeper.c:183, 187): starting from
      width*height - num_mines and adding one per duplicate, *free_positions ends equal to
      width*height minus the number of -9 tiles, which is also the number of free positions. */
  lemma FreeAfterGenerate(w: int, h: int, ps: seq<Position>)
    requires w > 0 && h > 0 && AllInGrid(w, h, ps)
    ensures var b := Generated(Zeros(w * h), w, h, ps);
      var free := w * h - |ps| + Duplicates(Zeros(w * h), w, h, ps);
      free == w * h - |MineIndices(b)| && free == |HiddenSafeSet(b)|
  {
    GenerateFromZeros(w, h, ps);
    LayoutCounts(w, h, SetOf(ps));
  }

  /** A layout is a valid encoding and no zero tile touches a mine. */
  lemma LayoutConsistent(w: int, h: int, mines: set<Position>)
    requires w > 0 && h > 0
    ensures WellFormed(Layout(w, h, mines)) && Consistent(Layout(w, h, mines), w)
  {
    var l := Layout(w, h, mines);
    forall i, j | 0 <= i < |l| && 0 <= j < |l| && IsZeroForm(l[i]) && Adjacent(PositionOf(w, i), PositionOf(w, j))
      ensures !IsMine(l[j])
    {
      var pi, pj := PositionOf(w, i), PositionOf(w, j);
      MinesAroundZero(mines, pi);
      assert !Adjacent(pj, pi) || pj !in mines;
    }
  }

  /** reveal_map's result (Minesweeper.c:321-339): every tile in its end-of-game form. */
  function EndMap(m: seq<int>): (r: seq<int>)
    ensures |r| == |m|
    ensures forall i :: 0 <= i < |m| ==> r[i] > 0
    ensures WellFormed(m) ==>
      forall i :: 0 <= i < |m| ==> 1 <= r[i] <= 10 && Decode(r[i]) == Decode(m[i]).(vis := Revealed)
  {
    seq(|m|, i requires 0 <= i < |m| => EndForm(m[i]))
  }

  /** reveal_map applied twice is reveal_map applied once. */
  lemma EndMapIdempotent(m: seq<int>)
    ensures EndMap(EndMap(m)) == EndMap(m)
  {
    var r, r2 := EndMap(m), EndMap(EndMap(m));
    forall i | 0 <= i < |m|
      ensures r2[i] == r[i]
    {
      EndFormIdempotent(m[i]);
    }
  }

  /** Tile t once reveal_map has visited the columns before `column` and, in that column, the rows before `row`. */
  ghost predicate EndMapUpTo(b: seq<int>, m0: seq<int>, w: int, column: int, row: int)
    requires w > 0
  {
    |b| == |m0| &&
    forall t :: 0 <= t < |b| ==>
      b[t] == (var q := PositionOf(w, t); if q.col < column || (q.col == column && q.row < row) then EndForm(m0[t]) else m0[t])
  }

  lemma EndMapVisit(b: seq<int>, m0: seq<int>, w: int, h: int, column: int, row: int)
    requires w > 0 && |m0| == w * h && EndMapUpTo(b, m0, w, column, row) && InGrid(w, h, Position(row, column))
    ensures var t := Index(w, Position(row, column));
      0 <= t < |b| && b[t] == m0[t] && EndMapUpTo(b[t := EndForm(b[t])], m0, w, column, row + 1)
  {
    var p := Position(row, column);
    IndexInRange(w, h, p);
    var t := Index(w, p);
    var b' := b[t := EndForm(b[t])];
    forall t' | 0 <= t' < |b'|
      ensures b'[t'] == (var q := PositionOf(w, t'); if q.col < column || (q.col == column && q.row < row + 1) then EndForm(m0[t']) else m0[t'])
    {
      PositionInRange(w, h, t');
    }
  }

  lemma EndMapNextColumn(b: seq<int>, m0: seq<int>, w: int, h: int, column: int)
    requires w > 0 && |m0| == w * h && EndMapUpTo(b, m0, w, column, h)
    ensures EndMapUpTo(b, m0, w, column + 1, 0)
  {
    forall t | 0 <= t < |b|
      ensures b[t] == (var q := PositionOf(w, t); if q.col < column + 1 then EndForm(m0[t]) else m0[t])
    {
      PositionInRange(w, h, t);
    }
  }

  lemma EndMapDone(b: seq<int>, m0: seq<int>, w: int, h: int)
    requires w > 0 && |m0| == w * h && EndMapUpTo(b, m0, w, w, 0)
    ensures b == EndMap(m0)
  {
    var r := EndMap(m0);
    forall t | 0 <= t < |b|
      ensures b[t] == r[t]
    {
      PositionInRange(w, h, t);
    }
  }

  /** reveal_map (Minesweeper.c:321-339), column by column. */
  method RevealMap(w: int, h: int, board: array<int>)
    requires w > 0 && h > 0 && board.Length == w * h
    modifies board
    ensures board[..] == EndMap(old(board[..]))
  {
    ghost var m0 := board[..];
    for column := 0 to w
      invariant EndMapUpTo(board[..], m0, w, column, 0)
    {
      for row := 0 to h
        invariant EndMapUpTo(board[..], m0, w, column, row)
      {
        EndMapVisit(board[..], m0, w, h, column, row);
        IndexInRange(w, h, Position(row, column));
        var tile := row * w + column;
        if board[tile] >= -19 && board[tile] < -10 {
          board[tile] := -(board[tile] + 10);
        } else if board[tile] < 0 {
          board[tile] := -board[tile];
        } else if board[tile] == -10 || board[tile] == 10 || board[tile] == 0 {
          board[tile] := 10;
        }
      }
      EndMapNextColumn(board[..], m0, w, h, column);
    }
    EndMapDone(board[..], m0, w, h);
  }

  /** The board after mark_tile on a tile of the board. */
  function Marked(m: seq<int>, w: int, h: int, p: Position): (r: seq<int>)
    requires w > 0 && |m| == w * h && InGrid(w, h, p)
    ensures |r| == |m|
    ensures forall i :: 0 <= i < |m| && InEncoding(m[i]) ==>
      (IsMine(r[i]) <==> IsMine(m[i])) && (IsHiddenSafe(r[i]) <==> IsHiddenSafe(m[i]))
  {
    IndexInRange(w, h, p);
    m[Index(w, p) := Toggle(m[Index(w, p)])]
  }

  /** mark_tile (Minesweeper.c:471-490). Note the (row, column) argument order. */
  method MarkTile(row: int, column: int, w: int, h: int, board: array<int>) returns (original: int)
    requires w > 0 && board.Length == w * h
    modifies board
    ensures !InGrid(w, h, Position(row, column)) ==> original == -100 && board[..] == old(board[..])
    ensures InGrid(w, h, Position(row, column)) ==>
      original == TileAt(old(board[..]), w, h, Position(row, column)) &&
      board[..] == Marked(old(board[..]), w, h, Position(row, column))
  {
    if row >= h || column >= w || row < 0 || column < 0 {
      return -100;
    }
    IndexInRange(w, h, Position(row, column));
    var tile := row * w + column;
    original := board[tile];
    if board[tile] >= -9 && board[tile] <= 0 {
      board[tile] := board[tile] - 10;
    } else if board[tile] < -9 {
      board[tile] := board[tile] + 10;
    }
  }

  /** Marking the same tile twice restores the board. */
  lemma MarkTwice(m: seq<int>, w: int, h: int, p: Position)
    requires w > 0 && |m| == w * h && InGrid(w, h, p) && InEncoding(TileAt(m, w, h, p))
    ensures Marked(Marked(m, w, h, p), w, h, p) == m
  {
    IndexInRange(w, h, p);
    ToggleTwice(m[Index(w, p)]);
  }

  /** A mark changes neither the free positions nor which tiles are mines or zeros. */
  lemma MarkKeepsInvariants(m: seq<int>, w: int, h: int, p: Position)
    requires w > 0 && |m| == w * h && InGrid(w, h, p) && WellFormed(m) && Consistent(m, w)
    ensures var r := Marked(m, w, h, p);
      WellFormed(r) && Consistent(r, w) && HiddenSafeSet(r) == HiddenSafeSet(m) &&
      forall i :: 0 <= i < |m| ==> (IsMine(r[i]) <==> IsMine(m[i])) && (IsZeroForm(r[i]) <==> IsZeroForm(m[i]))
  {
    IndexInRange(w, h, p);
    var c := Index(w, p);
    PredicatesDecode(m[c]);
    PredicatesDecode(Toggle(m[c]));
  }
}

/** The signed-integer tile encoding of the Minesweeper grid (Minesweeper.c:50-56) and the
    per-tile rewrites that the grid operations apply.

    One `int` packs four facts: mine or not, hidden / flagged / revealed, and the number of
    neighbouring mines. `Tile` is the same information as a record; `Encode` and `Decode` are
    a bijection between valid records and the thirty values -19..10, and every rewrite below
    is specified by what it does to the decoded record. */
module MineTiles {

  datatype Visibility = Hidden | Flagged | Revealed

  /** A decoded tile. A mine carries no neighbour count. */
  datatype Tile = Tile(mine: bool, vis: Visibility, count: int)

  ghost predicate ValidTile(t: Tile) {
    0 <= t.count <= 8 && (t.mine ==> t.count == 0)
  }

  /** The thirty values the encoding uses. */
  predicate InEncoding(v: int) {
    -19 <= v <= 10
  }

  /** The encoding table: -19 flagged mine, -18..-10 flagged with count -(v+10), -9 hidden
      mine, -8..0 hidden with count -v, 1..8 revealed count, 9 revealed mine, 10 revealed
      with no neighbouring mine. */
  function Encode(t: Tile): (v: int)
    requires ValidTile(t)
    ensures InEncoding(v)
    ensures v > 0 <==> t.vis == Revealed
    ensures v < -9 <==> t.vis == Flagged
  {
    if t.mine then
      match t.vis
      case Hidden => -9
      case Flagged => -19
      case Revealed => 9
    else
      match t.vis
      case Hidden => -t.count
      case Flagged => -t.count - 10
      case Revealed => if t.count == 0 then 10 else t.count
  }

  function Decode(v: int): (t: Tile)
    requires InEncoding(v)
    ensures ValidTile(t) && Encode(t) == v
  {
    if v == -9 then Tile(true, Hidden, 0)
    else if v == -19 then Tile(true, Flagged, 0)
    else if v == 9 then Tile(true, Revealed, 0)
    else if v < -9 then Tile(false, Flagged, -(v + 10))
    else if v <= 0 then Tile(false, Hidden, -v)
    else if v == 10 then Tile(false, Revealed, 0)
    else Tile(false, Revealed, v)
  }

  /** Encoding loses nothing: together with Decode's contract, Encode is a bijection onto -19..10. */
  lemma DecodeEncode(t: Tile)
    requires ValidTile(t)
    ensures Decode(Encode(t)) == t
  {
  }

  lemma EncodeInjective(t: Tile, u: Tile)
    requires ValidTile(t) && ValidTile(u) && Encode(t) == Encode(u)
    ensures t == u
  {
    DecodeEncode(t);
    DecodeEncode(u);
  }

  /** The mine test the source repeats at every use site (Minesweeper.c:234, 263, 285). */
  predicate IsMine(v: int) {
    v == -9 || v == -19 || v == 9
  }

  /** A tile that still counts as a free position: hidden or flagged, and not a mine. */
  predicate IsHiddenSafe(v: int) {
    v <= 0 && !IsMine(v)
  }

  /** The forms of a safe tile with no neighbouring mine: hidden 0, flagged -10, revealed 10. */
  predicate IsZeroForm(v: int) {
    v == 0 || v == -10 || v == 10
  }

  lemma PredicatesDecode(v: int)
    requires InEncoding(v)
    ensures IsMine(v) <==> Decode(v).mine
    ensures IsHiddenSafe(v) <==> !Decode(v).mine && Decode(v).vis != Revealed
    ensures IsZeroForm(v) <==> !Decode(v).mine && Decode(v).count == 0
  {
  }

  /** reveal_tile's rewrite of a hidden safe tile (Minesweeper.c:296-315): the zero forms
      become 10, a flagged tile drops its flag and turns positive, a plain hidden tile turns
      positive. */
  function Flip(v: int): (r: int)
    requires IsHiddenSafe(v)
    ensures r > 0 && !IsMine(r)
    ensures InEncoding(v) ==> InEncoding(r) && (r == 10 <==> IsZeroForm(v))
  {
    if v == 0 || v == -10 then 10
    else if v < -10 then -(v + 10)
    else -v
  }

  /** Flipping reveals the tile and changes nothing else about it. */
  lemma FlipReveals(v: int)
    requires IsHiddenSafe(v) && InEncoding(v)
    ensures Decode(Flip(v)) == Decode(v).(vis := Revealed)
  {
  }

  /** mark_tile's rewrite (Minesweeper.c:481-485). */
  function Toggle(v: int): (r: int)
    ensures InEncoding(v) ==>
      (InEncoding(r) &&
       Decode(r) == (var t := Decode(v);
                     match t.vis
                     case Hidden => t.(vis := Flagged)
                     case Flagged => t.(vis := Hidden)
                     case Revealed => t))
  {
    if -9 <= v <= 0 then v - 10
    else if v < -9 then v + 10
    else v
  }

  /** Marking the same tile twice gives back the value it had. */
  lemma ToggleTwice(v: int)
    requires InEncoding(v)
    ensures Toggle(Toggle(v)) == v
  {
    var t := Decode(v);
    var u := Decode(Toggle(Toggle(v)));
    assert u == t;
    EncodeInjective(t, u);
  }

  /** reveal_map's rewrite of one tile for the end of the game (Minesweeper.c:331-336). */
  function EndForm(v: int): (r: int)
    ensures r > 0
    ensures InEncoding(v) ==> 1 <= r <= 10 && Decode(r) == Decode(v).(vis := Revealed)
  {
    if -19 <= v < -10 then -(v + 10)
    else if v < 0 then -v
    else if v == -10 || v == 10 || v == 0 then 10
    else v
  }

  /** The end-of-game form is already revealed, so a second pass changes nothing. */
  lemma EndFormIdempotent(v: int)
    ensures EndForm(EndForm(v)) == EndForm(v)
  {
  }

  /** generate_map's rewrite of a neighbour of a newly placed mine (Minesweeper.c:263-270):
      a mine stays as it is, every other tile gains one neighbouring mine in whichever of its
      three visibility forms it is. */
  function Bump(v: int): (r: int)
    ensures IsMine(v) ==> r == v
    ensures InEncoding(v) && !IsMine(v) && Decode(v).count < 8 ==>
      (InEncoding(r) && Decode(r) == Decode(v).(count := Decode(v).count + 1))
  {
    if IsMine(v) then v
    else if v <= 0 then v - 1
    else if v == 10 then 1
    else v + 1
  }
}

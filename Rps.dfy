/** The rock-paper-scissors round of RPS.c: the computer player (RPS.c:27-31), its hand
    selection and the scoring of shoot (RPS.c:399-519), and the three counters main keeps
    (RPS.c:179-181). Hands are the characters 'r', 'p' and 's', compared as characters, as
    the source does; the random number a computer player draws is a parameter. */
module Rps {

  /** A computer player: id 1 and 2 pick a hand at random, any other id (the test player)
      keeps the hand it was given. */
  datatype Player = Player(id: int, hand: char)

  datatype Result = Tie | Win | Loss

  predicate IsHand(c: char) {
    c == 'r' || c == 'p' || c == 's'
  }

  /** The computer's throw in shoot (RPS.c:405-438) for the random number `draw`: player 1
      maps draw % 3 to rock, paper, scissors; player 2 maps draw % 4 to rock, paper, paper,
      scissors; any other player keeps its hand. Only the hand changes. */
  function Throw(comp: Player, draw: nat): (thrown: Player)
    ensures thrown.id == comp.id
    ensures comp.id == 1 || comp.id == 2 ==> IsHand(thrown.hand)
    ensures comp.id != 1 && comp.id != 2 ==> thrown == comp
  {
    if comp.id == 1 then
      comp.(hand := match draw % 3 { case 0 => 'r' case 1 => 'p' case _ => 's' })
    else if comp.id == 2 then
      comp.(hand := match draw % 4 { case 0 => 'r' case 1 => 'p' case 2 => 'p' case _ => 's' })
    else comp
  }

  /** How many of the draws d, d+1, ..., d+n-1 make the player throw `hand`. */
  function CountThrows(comp: Player, hand: char, d: nat, n: nat): nat {
    if n == 0 then 0
    else CountThrows(comp, hand, d, n - 1) + (if Throw(comp, d + n - 1).hand == hand then 1 else 0)
  }

  /** Player 1 throws each hand for exactly one of any three consecutive draws. */
  lemma PlayerOneIsEven(hand: char, d: nat, h: char)
    requires IsHand(hand)
    ensures CountThrows(Player(1, h), hand, d, 3) == 1
  {
    var comp := Player(1, h);
    var t0, t1, t2 := Throw(comp, d).hand, Throw(comp, d + 1).hand, Throw(comp, d + 2).hand;
    assert CountThrows(comp, hand, d, 1) == (if t0 == hand then 1 else 0);
    assert CountThrows(comp, hand, d, 2) == CountThrows(comp, hand, d, 1) + (if t1 == hand then 1 else 0);
    assert CountThrows(comp, hand, d, 3) == CountThrows(comp, hand, d, 2) + (if t2 == hand then 1 else 0);
    if d % 3 == 0 {
      assert (d + 1) % 3 == 1 && (d + 2) % 3 == 2;
      assert t0 == 'r' && t1 == 'p' && t2 == 's';
    } else if d % 3 == 1 {
      assert (d + 1) % 3 == 2 && (d + 2) % 3 == 0;
      assert t0 == 'p' && t1 == 's' && t2 == 'r';
    } else {
      assert (d + 1) % 3 == 0 && (d + 2) % 3 == 1;
      assert t0 == 's' && t1 == 'r' && t2 == 'p';
    }
  }

  /** Player 2 throws paper for exactly two of any four consecutive draws, and rock and
      scissors for one each. */
  lemma PlayerTwoFavoursPaper(d: nat, h: char)
    ensures CountThrows(Player(2, h), 'p', d, 4) == 2
    ensures CountThrows(Player(2, h), 'r', d, 4) == 1
    ensures CountThrows(Player(2, h), 's', d, 4) == 1
  {
    var comp := Player(2, h);
    var t := [Throw(comp, d).hand, Throw(comp, d + 1).hand, Throw(comp, d + 2).hand, Throw(comp, d + 3).hand];
    forall hand: char
      ensures CountThrows(comp, hand, d, 4) ==
        (if t[0] == hand then 1 else 0) + (if t[1] == hand then 1 else 0) +
        (if t[2] == hand then 1 else 0) + (if t[3] == hand then 1 else 0)
    {
      assert CountThrows(comp, hand, d, 1) == (if t[0] == hand then 1 else 0);
      assert CountThrows(comp, hand, d, 2) == CountThrows(comp, hand, d, 1) + (if t[1] == hand then 1 else 0);
      assert CountThrows(comp, hand, d, 3) == CountThrows(comp, hand, d, 2) + (if t[2] == hand then 1 else 0);
    }
    if d % 4 == 0 {
      assert (d + 1) % 4 == 1 && (d + 2) % 4 == 2 && (d + 3) % 4 == 3;
      assert t == ['r', 'p', 'p', 's'];
    } else if d % 4 == 1 {
      assert (d + 1) % 4 == 2 && (d + 2) % 4 == 3 && (d + 3) % 4 == 0;
      assert t == ['p', 'p', 's', 'r'];
    } else if d % 4 == 2 {
      assert (d + 1) % 4 == 3 && (d + 2) % 4 == 0 && (d + 3) % 4 == 1;
      assert t == ['p', 's', 'r', 'p'];
    } else {
      assert (d + 1) % 4 == 0 && (d + 2) % 4 == 1 && (d + 3) % 4 == 2;
      assert t == ['s', 'r', 'p', 'p'];
    }
  }

  /** The decision at the end of shoot (RPS.c:503-517): equal hands tie, rock beats
      scissors, paper beats rock and scissors beat paper; everything else is a loss. */
  function Judge(user: char, comp: char): Result {
    if user == comp then Tie
    else if (user == 'r' && comp == 's') || (user == 'p' && comp == 'r') || (user == 's' && comp == 'p') then Win
    else Loss
  }

  /** The usual cyclic order, as an independent reference: each hand beats the one before it
      in rock, paper, scissors. */
  function Rank(c: char): int
    requires IsHand(c)
  {
    if c == 'r' then 0 else if c == 'p' then 1 else 2
  }

  predicate Beats(a: char, b: char)
    requires IsHand(a) && IsHand(b)
  {
    (Rank(a) - Rank(b)) % 3 == 1
  }

  /** On real hands Judge is the cyclic order: a win exactly when the user's hand beats the
      computer's, a loss exactly when it is beaten. */
  lemma JudgeIsCyclic(user: char, comp: char)
    requires IsHand(user) && IsHand(comp)
    ensures Judge(user, comp) == Tie <==> user == comp
    ensures Judge(user, comp) == Win <==> Beats(user, comp)
    ensures Judge(user, comp) == Loss <==> Beats(comp, user)
  {
  }

  /** Swapping the two hands swaps win and loss. */
  lemma JudgeAntisymmetric(user: char, comp: char)
    requires IsHand(user) && IsHand(comp)
    ensures Judge(user, comp) == Win <==> Judge(comp, user) == Loss
    ensures Judge(user, comp) == Tie <==> Judge(comp, user) == Tie
  {
    JudgeIsCyclic(user, comp);
    JudgeIsCyclic(comp, user);
  }

  /** The three counters of main. */
  datatype Counts = Counts(wins: int, rounds: int, ties: int)

  /** What one call of shoot does to the counters: one more round, and one more win or tie
      for a win or a tie. */
  function Tallied(c: Counts, r: Result): Counts {
    Counts(c.wins + (if r == Win then 1 else 0), c.rounds + 1, c.ties + (if r == Tie then 1 else 0))
  }

  /** The counters after a run of rounds from main's zeros. */
  function Play(rs: seq<Result>): Counts {
    if rs == [] then Counts(0, 0, 0) else Tallied(Play(rs[..|rs| - 1]), rs[|rs| - 1])
  }

  function Occurrences(rs: seq<Result>, r: Result): nat {
    if rs == [] then 0 else Occurrences(rs[..|rs| - 1], r) + (if rs[|rs| - 1] == r then 1 else 0)
  }

  /** After any run of rounds the counters hold the number of rounds, wins and ties. */
  lemma {:induction false} PlayCounts(rs: seq<Result>)
    ensures Play(rs) == Counts(Occurrences(rs, Win), |rs|, Occurrences(rs, Tie))
  {
    if rs != [] {
      PlayCounts(rs[..|rs| - 1]);
    }
  }

  /** Wins and ties together never exceed the rounds played. */
  lemma {:induction false} OccurrencesBound(rs: seq<Result>)
    ensures Occurrences(rs, Win) + Occurrences(rs, Tie) <= |rs|
  {
    if rs != [] {
      OccurrencesBound(rs[..|rs| - 1]);
    }
  }

  /** Each round keeps wins + ties <= rounds with both counts non-negative. */
  lemma TalliedKeepsBound(c: Counts, r: Result)
    requires 0 <= c.wins && 0 <= c.ties && c.wins + c.ties <= c.rounds
    ensures var d := Tallied(c, r); 0 <= d.wins && 0 <= d.ties && d.wins + d.ties <= d.rounds
  {
  }

  /** The counters main passes to shoot by pointer. */
  class Tally {
    var wins: int
    var rounds: int
    var ties: int

    function Counters(): Counts
      reads this
    {
      Counts(wins, rounds, ties)
    }

    ghost predicate Valid()
      reads this
    {
      0 <= wins && 0 <= ties && wins + ties <= rounds
    }

    /** main's `int wins = 0, rounds = 0, ties = 0` (RPS.c:179-181). */
    constructor()
      ensures Counters() == Play([]) && Valid()
    {
      wins, rounds, ties := 0, 0, 0;
    }

    /** shoot (RPS.c:399-519) without the animation and the result screens: count the round,
        throw the computer's hand for the random number `draw`, then judge and count. */
    method Shoot(userHand: char, comp: Player, draw: nat) returns (result: Result, thrown: Player)
      modifies this
      ensures thrown == Throw(comp, draw)
      ensures result == Judge(userHand, thrown.hand)
      ensures Counters() == Tallied(old(Counters()), result)
      ensures old(Valid()) ==> Valid()
    {
      rounds := rounds + 1;
      thrown := comp;
      if comp.id == 1 {
        var k := draw % 3;
        if k == 0 {
          thrown := thrown.(hand := 'r');
        } else if k == 1 {
          thrown := thrown.(hand := 'p');
        } else {
          thrown := thrown.(hand := 's');
        }
      } else if comp.id == 2 {
        var k := draw % 4;
        if k == 0 {
          thrown := thrown.(hand := 'r');
        } else if k == 1 || k == 2 {
          thrown := thrown.(hand := 'p');
        } else {
          thrown := thrown.(hand := 's');
        }
      }
      if userHand == thrown.hand {
        ties := ties + 1;
        result := Tie;
      } else if (userHand == 'r' && thrown.hand == 's') || (userHand == 'p' && thrown.hand == 'r') ||
                (userHand == 's' && thrown.hand == 'p') {
        wins := wins + 1;
        result := Win;
      } else {
        result := Loss;
      }
    }
  }
}

/**
 * `Game::GameClass` of greed/game.rb: the players, their banked scores and
 * the shared dice, with the scoring of a roll, the count of dice to roll
 * again, the end-of-game test, the winner and the banking rule of a turn.
 * The interactive turn loop around them (prompts, `gets`, `sleep`) is not
 * modelled.
 */
module Greed {
  import opened Wrappers
  import opened GreedRules
  import opened DiceSets

  /** A turn's points are banked only from this many on, or once the total has reached it. */
  const MIN_SCORE_TO_BANK: int := 300
  /** A banked score of this many starts the final round. */
  const WINNING_SCORE: int := 3000
  /** The dice rolled again when every die scored ("hot dice"). */
  const NUM_INITIAL_DICE_ROLL: int := 5

  /** `Player::PlayerClass` number `i`, named `"Player i"`; players are equal exactly when their names are. */
  datatype Player = Player(number: int)

  /**
   * The banking rule of `play_turn`: the total after a turn that made
   * `turnPoints`. A player's first points must come in one turn of at least
   * 300; after that every turn counts.
   */
  function Banked(total: int, turnPoints: int): (r: int)
    ensures total >= MIN_SCORE_TO_BANK || turnPoints >= MIN_SCORE_TO_BANK ==> r == total + turnPoints
    ensures total < MIN_SCORE_TO_BANK && turnPoints < MIN_SCORE_TO_BANK ==> r == total
    ensures turnPoints >= 0 ==> r >= total
  {
    if total >= MIN_SCORE_TO_BANK || turnPoints >= MIN_SCORE_TO_BANK then total + turnPoints else total
  }

  /** Starting from no points, banking non-negative turns leaves either 0 or at least 300. */
  lemma {:induction false} BankedFromZero(turns: seq<int>)
    requires forall i :: 0 <= i < |turns| ==> turns[i] >= 0
    ensures var total := BankAll(0, turns); total == 0 || total >= MIN_SCORE_TO_BANK
    decreases |turns|
  {
    if |turns| > 0 {
      var init := turns[..|turns| - 1];
      BankedFromZero(init);
    }
  }

  /** The total after banking the given turns one after another. */
  function BankAll(total: int, turns: seq<int>): int
    decreases |turns|
  {
    if |turns| == 0 then total else Banked(BankAll(total, turns[..|turns| - 1]), turns[|turns| - 1])
  }

  /** Dice values stay dice values under any reordering. */
  lemma AllDicePermutation(a: seq<int>, b: seq<int>)
    requires AllDice(a) && multiset(a) == multiset(b)
    ensures AllDice(b)
  {
    forall i | 0 <= i < |b|
      ensures 1 <= b[i] <= 6
    {
      assert b[i] in multiset(a);
    }
  }

  class GameClass {
    /** `@dice`, shared with every player. */
    const dice: Dice
    /** `@players`, in the order they were created (also the order of the `@player_score` hash). */
    var players: seq<Player>
    /** `@player_score`: each player's banked score. */
    var playerScore: map<Player, int>

    /** Players are numbered from 1 in order, each has a score, and scores are never negative. */
    ghost predicate Valid()
      reads this
    {
      && (forall i :: 0 <= i < |players| ==> players[i] == Player(i + 1))
      && (forall p :: p in playerScore <==> p in players)
      && (forall p :: p in playerScore ==> playerScore[p] >= 0)
    }

    /** The banked score of the player at position `i`. */
    function ScoreAt(i: int): int
      reads this
      requires Valid() && 0 <= i < |players|
    {
      playerScore[players[i]]
    }

    /** `initialize(num_players)` once its guard has passed: players 1 to `numPlayers`, all at 0. */
    constructor (numPlayers: int)
      requires numPlayers > 1
      ensures Valid() && |players| == numPlayers && fresh(dice) && dice.values == []
      ensures forall p :: p in playerScore ==> playerScore[p] == 0
    {
      dice := new Dice();
      var ps: seq<Player> := [];
      var scores: map<Player, int> := map[];
      var count := 1;
      while count <= numPlayers
        invariant 1 <= count <= numPlayers + 1 && |ps| == count - 1
        invariant forall i :: 0 <= i < |ps| ==> ps[i] == Player(i + 1)
        invariant forall p :: p in scores <==> p in ps
        invariant forall p :: p in scores ==> scores[p] == 0
      {
        var p := Player(count);
        ps := ps + [p];
        scores := scores[p := 0];
        count := count + 1;
      }
      players := ps;
      playerScore := scores;
    }

    /** `GameClass.new(num_players)`: raises (here: `None`) unless there are at least two players. */
    static method Create(numPlayers: int) returns (game: Option<GameClass>)
      ensures game.None? <==> numPlayers <= 1
      ensures game.Some? ==>
                && fresh(game.value) && game.value.Valid() && |game.value.players| == numPlayers
                && forall p :: p in game.value.playerScore ==> game.value.playerScore[p] == 0
    {
      if numPlayers <= 1 {
        return None;
      }
      var g := new GameClass(numPlayers);
      game := Some(g);
    }

    /**
     * `score`: sort the dice in place, then scan them. A triple (three equal
     * values in a row, the third existing) of 1s scores 1000 and of any other
     * face 100 times the face; a single 1 scores 100 and a single 5 scores 50.
     * For die faces this is the per-face total, so the order of the roll does
     * not matter.
     */
    method Score() returns (currentScore: int)
      modifies dice
      ensures dice.values == Sort(old(dice.values))
      ensures currentScore == Scan(Points, dice.values)
      ensures currentScore % 50 == 0
      ensures AllDice(old(dice.values)) ==>
                currentScore == FaceTotal(Points, multiset(old(dice.values)), 1) && currentScore >= 0
    {
      var v := SortValues(dice.values);
      dice.values := v;
      currentScore := 0;
      var i := 0;
      while i < |v|
        invariant 0 <= i <= |v|
        invariant currentScore + Scan(Points, v[i..]) == Scan(Points, v)
      {
        if i + 2 < |v| && v[i] == v[i + 1] && v[i + 1] == v[i + 2] {
          if v[i] == 1 {
            currentScore := currentScore + 1000;
          } else {
            currentScore := currentScore + v[i] * 100;
          }
          assert v[i..][3..] == v[i + 3..];
          i := i + 3;
        } else {
          if v[i] == 1 {
            currentScore := currentScore + 100;
          } else if v[i] == 5 {
            currentScore := currentScore + 50;
          }
          assert v[i..][1..] == v[i + 1..];
          i := i + 1;
        }
      }
      ScanPointsMultipleOf50(v);
      if AllDice(old(dice.values)) {
        AllDicePermutation(old(dice.values), v);
        ScanOfSortedDice(Points, v, 1);
        FaceTotalPointsNonNegative(multiset(v), 1);
      }
    }

    /**
     * `get_nonscoring_num`: on a sorted copy, count the dice that are neither
     * in a triple nor a 1 or a 5; when there are none, all five dice may be
     * rolled again. The dice themselves are not reordered.
     */
    method NonscoringNum() returns (count: int)
      ensures var c := Scan(Nonscoring, Sort(dice.values)); count == if c == 0 then NUM_INITIAL_DICE_ROLL else c
      ensures 1 <= count <= if |dice.values| > NUM_INITIAL_DICE_ROLL then |dice.values| else NUM_INITIAL_DICE_ROLL
      ensures AllDice(dice.values) ==>
                var c := FaceTotal(Nonscoring, multiset(dice.values), 1);
                count == if c == 0 then NUM_INITIAL_DICE_ROLL else c
    {
      var v := SortValues(dice.values);
      count := 0;
      var i := 0;
      while i < |v|
        invariant 0 <= i <= |v|
        invariant count + Scan(Nonscoring, v[i..]) == Scan(Nonscoring, v)
      {
        if i + 2 < |v| && v[i] == v[i + 1] && v[i + 1] == v[i + 2] {
          assert v[i..][3..] == v[i + 3..];
          i := i + 3;
        } else if v[i] != 1 && v[i] != 5 {
          assert v[i..][1..] == v[i + 1..];
          i := i + 1;
          count := count + 1;
        } else {
          assert v[i..][1..] == v[i + 1..];
          i := i + 1;
        }
      }
      NonscoringAtMostDice(v);
      assert |v| == |multiset(v)| == |multiset(dice.values)| == |dice.values|;
      if AllDice(dice.values) {
        AllDicePermutation(dice.values, v);
        ScanOfSortedDice(Nonscoring, v, 1);
      }
      if count == 0 {
        count := NUM_INITIAL_DICE_ROLL;
      }
    }

    /** `final_round?`: some player has banked at least 3000. */
    method FinalRound() returns (b: bool)
      requires Valid()
      ensures b <==> exists k :: 0 <= k < |players| && ScoreAt(k) >= WINNING_SCORE
    {
      for i := 0 to |players|
        invariant forall k :: 0 <= k < i ==> ScoreAt(k) < WINNING_SCORE
      {
        if playerScore[players[i]] >= WINNING_SCORE {
          assert ScoreAt(i) >= WINNING_SCORE;
          return true;
        }
      }
      return false;
    }

    /**
     * `get_winner`: a running maximum from -1 with a strict comparison, so
     * the winner has the highest score and is the earliest such player; with
     * no players there is none.
     */
    method GetWinner() returns (winner: Option<Player>)
      requires Valid()
      ensures winner.None? <==> |players| == 0
      ensures winner.Some? ==>
                exists k :: 0 <= k < |players| && players[k] == winner.value
                  && (forall j :: 0 <= j < |players| ==> ScoreAt(j) <= ScoreAt(k))
                  && (forall j :: 0 <= j < k ==> ScoreAt(j) < ScoreAt(k))
    {
      var m := -1;
      winner := None;
      ghost var w := -1;
      for i := 0 to |players|
        invariant winner.None? ==> m == -1 && forall j :: 0 <= j < i ==> ScoreAt(j) < 0
        invariant winner.Some? ==>
                    && 0 <= w < i && players[w] == winner.value && m == ScoreAt(w)
                    && (forall j :: 0 <= j < i ==> ScoreAt(j) <= m)
                    && (forall j :: 0 <= j < w ==> ScoreAt(j) < m)
      {
        var v := playerScore[players[i]];
        if m < v {
          m := v;
          winner := Some(players[i]);
          w := i;
        }
      }
      if |players| > 0 {
        assert ScoreAt(0) >= 0;
      }
    }

    /** The banking step at the end of `play_turn`: the turn's points count under the banking rule. */
    method BankTurn(player: Player, turnPoints: int)
      requires Valid() && player in playerScore && turnPoints >= 0
      modifies this
      ensures Valid() && players == old(players)
      ensures playerScore == old(playerScore)[player := Banked(old(playerScore)[player], turnPoints)]
    {
      if playerScore[player] >= MIN_SCORE_TO_BANK || turnPoints >= MIN_SCORE_TO_BANK {
        playerScore := playerScore[player := playerScore[player] + turnPoints];
      }
    }
  }
}

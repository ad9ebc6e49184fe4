/**
 The score sheet of one game of 29: four players holding eight cards each,
 eight rounds of four cards with a winner each, and the trump suit, filled in
 place from input lines of the form `n token`.
 */
module TwentyNine {
  import opened Cards

  const PlayerCount := 4
  const HandSize := 8
  const RoundCount := 8
  const RoundSize := 4

  /** The game record. Its two fixed-size tables hold their entries by value,
      so a setter writes into one entry and leaves every other entry alone. */
  class Game {
    const man: array<Player>
    const rnd: array<Round>
    var trump: char

    /** The shape of the tables: 4 hands of 8 cards, 8 rounds of 4 cards. */
    ghost predicate Valid()
      reads this, man, rnd
    {
      man.Length == PlayerCount && rnd.Length == RoundCount &&
      (forall p :: 0 <= p < PlayerCount ==> |man[p].playerCard| == HandSize) &&
      (forall r :: 0 <= r < RoundCount ==> |rnd[r].roundCard| == RoundSize)
    }

    /** `Game g;` leaves the record's storage uninitialised, so the starting
        contents are whatever the caller supplies. */
    constructor (players: seq<Player>, rounds: seq<Round>, trump0: char)
      requires |players| == PlayerCount && |rounds| == RoundCount
      requires forall p :: 0 <= p < PlayerCount ==> |players[p].playerCard| == HandSize
      requires forall r :: 0 <= r < RoundCount ==> |rounds[r].roundCard| == RoundSize
      ensures Valid() && fresh(man) && fresh(rnd)
      ensures man[..] == players && rnd[..] == rounds && trump == trump0
    {
      man := new Player[PlayerCount](i requires 0 <= i < PlayerCount reads {} => players[i]);
      rnd := new Round[RoundCount](i requires 0 <= i < RoundCount reads {} => rounds[i]);
      trump := trump0;
    }

    /** set_player_card: hand `P` becomes the eight cards of the first sixteen
        characters of `C`; no other hand, no round and not the trump changes. */
    method SetPlayerCard(P: int, C: seq<char>)
      requires Valid() && 0 <= P < PlayerCount && 2 * HandSize <= |C|
      modifies man
      ensures Valid()
      ensures forall k :: 0 <= k < HandSize ==>
                man[P].playerCard[k] == Card(C[2 * k], Digit(C[2 * k + 1]))
      ensures man[P] == Player(DecodeCards(C[..2 * HandSize]))
      ensures forall p :: 0 <= p < PlayerCount && p != P ==> man[p] == old(man[p])
      ensures rnd[..] == old(rnd[..]) && trump == old(trump)
    {
      var itr := 0;
      var i := 0;
      while i < 2 * HandSize
        invariant 0 <= itr <= HandSize && i == 2 * itr
        invariant |man[P].playerCard| == HandSize
        invariant forall k :: 0 <= k < itr ==>
                    man[P].playerCard[k] == Card(C[2 * k], Digit(C[2 * k + 1]))
        invariant forall p :: 0 <= p < PlayerCount && p != P ==> man[p] == old(man[p])
      {
        // writes both fields of card `itr`: the suit, then the number
        man[P] := man[P].(playerCard := man[P].playerCard[itr := Card(C[i], Digit(C[i + 1]))]);
        itr := itr + 1;
        i := i + 2;
      }
      forall k | 0 <= k < HandSize
        ensures man[P].playerCard[k] == DecodeCards(C[..2 * HandSize])[k]
      {
        DecodeCardsAt(C[..2 * HandSize], k);
      }
    }

    /** set_round_card: the cards of round `R` become the four cards of the
        first eight characters of `C`; its winner, every other round, every
        hand and the trump stay as they were. */
    method SetRoundCard(R: int, C: seq<char>)
      requires Valid() && 0 <= R < RoundCount && 2 * RoundSize <= |C|
      modifies rnd
      ensures Valid()
      ensures forall k :: 0 <= k < RoundSize ==>
                rnd[R].roundCard[k] == Card(C[2 * k], Digit(C[2 * k + 1]))
      ensures rnd[R] == Round(DecodeCards(C[..2 * RoundSize]), old(rnd[R].winner))
      ensures forall r :: 0 <= r < RoundCount && r != R ==> rnd[r] == old(rnd[r])
      ensures man[..] == old(man[..]) && trump == old(trump)
    {
      var itr := 0;
      var i := 0;
      while i < 2 * RoundSize
        invariant 0 <= itr <= RoundSize && i == 2 * itr
        invariant |rnd[R].roundCard| == RoundSize
        invariant rnd[R].winner == old(rnd[R].winner)
        invariant forall k :: 0 <= k < itr ==>
                    rnd[R].roundCard[k] == Card(C[2 * k], Digit(C[2 * k + 1]))
        invariant forall r :: 0 <= r < RoundCount && r != R ==> rnd[r] == old(rnd[r])
      {
        // writes both fields of card `itr`: the suit, then the number
        rnd[R] := rnd[R].(roundCard := rnd[R].roundCard[itr := Card(C[i], Digit(C[i + 1]))]);
        itr := itr + 1;
        i := i + 2;
      }
      forall k | 0 <= k < RoundSize
        ensures rnd[R].roundCard[k] == DecodeCards(C[..2 * RoundSize])[k]
      {
        DecodeCardsAt(C[..2 * RoundSize], k);
      }
    }

    /** set_trump: the trump suit becomes `C`; the tables do not change. */
    method SetTrump(C: char)
      requires Valid()
      modifies this
      ensures Valid()
      ensures trump == C
      ensures man[..] == old(man[..]) && rnd[..] == old(rnd[..])
    {
      trump := C;
    }

    /** set_round_winner: the winner of round `R` becomes `C[0] - '0'`; its
        cards, every other round, every hand and the trump stay as they were. */
    method SetRoundWinner(R: int, C: seq<char>)
      requires Valid() && 0 <= R < RoundCount && 1 <= |C|
      modifies rnd
      ensures Valid()
      ensures rnd[R] == Round(old(rnd[R].roundCard), Digit(C[0]))
      ensures forall r :: 0 <= r < RoundCount && r != R ==> rnd[r] == old(rnd[r])
      ensures man[..] == old(man[..]) && trump == old(trump)
    {
      rnd[R] := rnd[R].(winner := Digit(C[0]));
    }
  }

  /** The body of the input loop in main: the length of the token read after
      `n` picks the setter. Eight characters fill round `n`'s cards, sixteen
      fill hand `n`, one sets round `n`'s winner, and a token of any other
      length changes nothing. */
  method Dispatch(g: Game, n: int, str: seq<char>)
    requires g.Valid()
    requires |str| == 2 * RoundSize ==> 0 <= n < RoundCount
    requires |str| == 2 * HandSize ==> 0 <= n < PlayerCount
    requires |str| == 1 ==> 0 <= n < RoundCount
    modifies g.man, g.rnd
    ensures g.Valid() && g.trump == old(g.trump)
    ensures |str| == 2 * RoundSize ==>
              g.man[..] == old(g.man[..]) &&
              g.rnd[n] == Round(DecodeCards(str), old(g.rnd[n].winner)) &&
              forall r :: 0 <= r < RoundCount && r != n ==> g.rnd[r] == old(g.rnd[r])
    ensures |str| == 2 * HandSize ==>
              g.rnd[..] == old(g.rnd[..]) &&
              g.man[n] == Player(DecodeCards(str)) &&
              forall p :: 0 <= p < PlayerCount && p != n ==> g.man[p] == old(g.man[p])
    ensures |str| == 1 ==>
              g.man[..] == old(g.man[..]) &&
              g.rnd[n] == Round(old(g.rnd[n].roundCard), Digit(str[0])) &&
              forall r :: 0 <= r < RoundCount && r != n ==> g.rnd[r] == old(g.rnd[r])
    ensures |str| != 2 * RoundSize && |str| != 2 * HandSize && |str| != 1 ==>
              g.man[..] == old(g.man[..]) && g.rnd[..] == old(g.rnd[..])
  {
    var l := |str|;
    if l == 2 * RoundSize {
      g.SetRoundCard(n, str);
      assert str[..2 * RoundSize] == str;
    } else if l == 2 * HandSize {
      g.SetPlayerCard(n, str);
      assert str[..2 * HandSize] == str;
    } else if l == 1 {
      g.SetRoundWinner(n, str);
    }
  }
}

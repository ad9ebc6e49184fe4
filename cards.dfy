/**
 The records of the 29 score keeper and the card-string format its input
 uses. A card string is a run of two-character tokens: the suit character
 followed by a digit character whose value, `c - '0'`, is the card's number.
 */
module Cards {

  /** One card: its suit character and its number. */
  datatype Card = Card(typ: char, no: int)

  /** One player's hand: eight cards. */
  datatype Player = Player(playerCard: seq<Card>)

  /** One round: the four cards thrown, one per player, and the index of the
      player who won it. */
  datatype Round = Round(roundCard: seq<Card>, winner: int)

  /** `c - '0'` on a character promoted to `int`: the value of a digit
      character, and some other number for any other character. */
  function Digit(c: char): (n: int)
    ensures '0' <= c <= '9' <==> 0 <= n <= 9
  {
    c as int - '0' as int
  }

  /** `n` is the value `Digit` gives to some character. */
  predicate IsDigitValue(n: int)
  {
    var code := n + '0' as int;
    0 <= code < 0xD800 || 0xE000 <= code < 0x11_0000
  }

  /** The character holding card number `n`: the inverse of `Digit`. */
  function DigitChar(n: int): (c: char)
    requires IsDigitValue(n)
    ensures Digit(c) == n
  {
    (n + '0' as int) as char
  }

  lemma DigitCharOfDigit(c: char)
    ensures IsDigitValue(Digit(c)) && DigitChar(Digit(c)) == c
  {
  }

  /** The cards a card string holds, token by token: card `k` is made of
      characters `2k` and `2k + 1`. */
  function DecodeCards(s: seq<char>): (cards: seq<Card>)
    requires |s| % 2 == 0
    ensures |cards| == |s| / 2
  {
    if s == [] then [] else [Card(s[0], Digit(s[1]))] + DecodeCards(s[2..])
  }

  /** Card `k` of a decoded string has suit `s[2k]` and number `s[2k+1] - '0'`. */
  lemma {:induction false} DecodeCardsAt(s: seq<char>, k: nat)
    requires |s| % 2 == 0 && k < |s| / 2
    ensures DecodeCards(s)[k] == Card(s[2 * k], Digit(s[2 * k + 1]))
  {
    if k != 0 {
      DecodeCardsAt(s[2..], k - 1);
    }
  }

  /** Every card's number can be written as one character. */
  ghost predicate Writable(cards: seq<Card>)
  {
    forall i :: 0 <= i < |cards| ==> IsDigitValue(cards[i].no)
  }

  /** The card string that holds `cards`, two characters per card. */
  function EncodeCards(cards: seq<Card>): (s: seq<char>)
    requires Writable(cards)
    ensures |s| == 2 * |cards|
  {
    if cards == [] then []
    else [cards[0].typ, DigitChar(cards[0].no)] + EncodeCards(cards[1..])
  }

  /** Decoding the string written for some cards gives those cards back. */
  lemma {:induction false} DecodeEncode(cards: seq<Card>)
    requires Writable(cards)
    ensures DecodeCards(EncodeCards(cards)) == cards
  {
    if cards != [] {
      var s := EncodeCards(cards);
      assert s[2..] == EncodeCards(cards[1..]);
      DecodeEncode(cards[1..]);
    }
  }

  /** Every decoded card can be written back, and writing the cards decoded
      from a string gives that string back: the format loses nothing. */
  lemma {:induction false} EncodeDecode(s: seq<char>)
    requires |s| % 2 == 0
    ensures Writable(DecodeCards(s))
    ensures EncodeCards(DecodeCards(s)) == s
  {
    if s != [] {
      EncodeDecode(s[2..]);
      DigitCharOfDigit(s[1]);
      var cards := DecodeCards(s);
      assert cards[1..] == DecodeCards(s[2..]);
      assert s == [s[0], s[1]] + s[2..];
    }
  }
}

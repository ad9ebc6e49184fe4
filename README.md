# 29 score keeper — a Dafny model

`29-game/source.cpp` is a small C++ program that records one game of the
four-player card game 29. It reads whitespace-separated pairs `n token` from
standard input. The length of each token decides what it fills in:

- an 8-character token holds the four cards thrown in round `n`;
- a 16-character token holds the eight cards dealt to player `n`;
- a 1-character token holds the winner of round `n`.

A card is written as two characters: the suit, then a digit whose value
`c - '0'` is the card's number. The program also carries a block of
general integer helper templates: `gcd`, `lcm`, `maxt`, `mint`, `power` and
`bigmod`.

The model has three modules:

- `IntTemplates` (`int_templates.dfy`) holds the helpers over unbounded
  integers. C++ truncating `/` and `%` are written out as `Quot` and `Rem`.
  `Gcd` and `Lcm` are functions, as in the source. `Power` and `Bigmod` are
  methods with the source's square-and-multiply loops. Each is proved
  against the recursive power `Pow`. The proofs use Bezout coefficients for
  the gcd and modular congruence lemmas for the loop.
- `Cards` (`cards.dfy`) holds the records `Card`, `Player` and `Round`. It
  also holds the card-string format: `DecodeCards` is what the setters' loops
  compute, and `EncodeCards` is its proved inverse.
- `TwentyNine` (`game.dfy`) holds the class `Game`. The class has the fixed
  tables `man` (4 hands of 8 cards) and `rnd` (8 rounds of 4 cards and a
  winner), and the field `trump`. Its four setters write in place and state
  what they change and that nothing else changes. `Dispatch` is the length
  test in `main`'s input loop.

## Model

| member | source | states |
|---|---|---|
| `IntTemplates.Rem` | 29-game/source.cpp:21 | C++ `%`: the result is smaller than the divisor in magnitude, has the dividend's sign (or is 0), and differs from the dividend by a multiple of the divisor; on non-negative operands it equals Euclidean `%` |
| `IntTemplates.Quot` | 29-game/source.cpp:22 | C++ `/`: the quotient's magnitude is `|x| / |y|` rounded down, and a non-zero quotient is negative exactly when the operands have opposite signs, so it truncates toward zero |
| `IntTemplates.Gcd` | 29-game/source.cpp:21 | Euclid's recursion with C++ `%`: the result divides both arguments, is 0 exactly when both arguments are 0, and is non-negative for non-negative arguments |
| `IntTemplates.GcdGreatest` | 29-game/source.cpp:21 | every common divisor of `x` and `y` divides `gcd(x, y)` |
| `IntTemplates.Bezout` | 29-game/source.cpp:21 | `gcd(x, y)` equals `s*x + t*y` for integer coefficients computed along the recursion |
| `IntTemplates.Lcm` | 29-game/source.cpp:22 | `(x / gcd) * y` with C++ `/` is a common multiple of `x` and `y`; its product with the gcd is `x*y`; it is positive for positive arguments; both arguments zero (division by zero) is excluded |
| `IntTemplates.LcmLeast` | 29-game/source.cpp:22 | every common multiple of `x` and `y` is a multiple of `lcm(x, y)` |
| `IntTemplates.Maxt` | 29-game/source.cpp:23 | the result is at least both arguments and is one of them |
| `IntTemplates.Mint` | 29-game/source.cpp:24 | the result is at most both arguments and is one of them |
| `IntTemplates.PowSquare` | 29-game/source.cpp:25 | squaring the base (`a*=a`) halves the exponent: `(b*b)^k == b^(2k)` |
| `IntTemplates.PowHalve` | 29-game/source.cpp:25 | `b^e` is the low-bit factor (`y&1`) times `(b*b)^(e/2)` (`y>>=1`) |
| `IntTemplates.Power` | 29-game/source.cpp:25 | for a non-negative exponent the loop returns `x^y`; the loop keeps `res * a^y == x^y0` and `y` halves on each pass |
| `IntTemplates.PowMod` | 29-game/source.cpp:26 | reducing the base by `mod` does not change `b^e % mod` |
| `IntTemplates.BigmodStep` | 29-game/source.cpp:26 | one pass of bigmod's loop keeps `res * a^y` congruent to `x^y0` modulo `mod`, keeps all values non-negative, and leaves `res` reduced on the last pass |
| `IntTemplates.Bigmod` | 29-game/source.cpp:26 | for `x >= 0` and `mod > 0`: exponent 0 returns 1 unreduced; a positive exponent returns `x^y % mod`, which lies in `[0, mod)` |
| `Cards.Digit` | 29-game/source.cpp:77 | `c - '0'` (also at lines 85 and 94): the value lies in 0..9 exactly when `c` is a digit character |
| `Cards.DigitChar` | 29-game/source.cpp:77 | the character written for card number `n` is the one that `c - '0'` maps back to `n` |
| `Cards.DecodeCards` | 29-game/source.cpp:75-78 | a card string of `2k` characters decodes to `k` cards |
| `Cards.DecodeCardsAt` | 29-game/source.cpp:76-77 | decoded card `k` has suit `s[2k]` and number `s[2k+1] - '0'` |
| `Cards.DecodeEncode` | 29-game/source.cpp:75-78 | decoding the string written for some cards gives those cards back |
| `Cards.EncodeDecode` | 29-game/source.cpp:75-78 | every decoded card can be written back, and re-encoding the cards decoded from a string gives the same string: the token format loses nothing |
| `TwentyNine.Game.constructor` | 29-game/source.cpp:57-60 | a game has 4 hands of 8 cards, 8 rounds of 4 cards and a trump; the starting contents are whatever the caller supplies, since `Game g;` leaves them uninitialised |
| `TwentyNine.Game.SetPlayerCard` | 29-game/source.cpp:73-79 | card `k` of hand `P` becomes `(C[2k], C[2k+1] - '0')` for `k` in 0..7, that is the decoding of `C[..16]`; other hands, all rounds and the trump are unchanged |
| `TwentyNine.Game.SetRoundCard` | 29-game/source.cpp:81-87 | card `k` of round `R` becomes `(C[2k], C[2k+1] - '0')` for `k` in 0..3; round `R`'s winner, other rounds, all hands and the trump are unchanged |
| `TwentyNine.Game.SetTrump` | 29-game/source.cpp:89-91 | only the trump changes, to `C` |
| `TwentyNine.Game.SetRoundWinner` | 29-game/source.cpp:93-95 | only round `R`'s winner changes, to `C[0] - '0'` |
| `TwentyNine.Dispatch` | 29-game/source.cpp:127-140 | a token of length 8 updates only round `n`'s cards, 16 only hand `n`, 1 only round `n`'s winner; any other length leaves the game unchanged; the trump never changes |

## Left out

- `card_draw_debug` and `round_debug` (29-game/source.cpp:97-114) only print the tables; output is not modelled.
- The read loop of `main`, `cin >> n >> str` and `freopen` (29-game/source.cpp:117-126), is input; only the dispatch on each token is modelled. The token is a character sequence, and `strlen` is its length.
- The 30-byte token buffer `char str[30]` overflows on tokens longer than 29 characters; that is not modelled.
- The `pi` macro (floating point), the unused macros `scan`, `sf`, `pf`, `pb`, `memoclr`, `INF`, `foo`, `ffoo`, and the unused `dir` table (29-game/source.cpp:7-15, 29-36) are not modelled.
- The templates are instantiated here at unbounded `int` only; fixed-width overflow of `int` or `LLI` is not modelled.
- IntTemplates.Power: requires a non-negative exponent; on a negative one the source's `y >>= 1` reaches -1 and the loop never ends.
- IntTemplates.Bigmod: requires `x >= 0` and `mod > 0`; C++ `%` on a negative base or modulus and a zero modulus (undefined behaviour) are not modelled.
- IntTemplates.Lcm: requires that not both arguments are zero, because then the source divides by zero.
- TwentyNine.Game.SetPlayerCard, TwentyNine.Game.SetRoundCard, TwentyNine.Game.SetRoundWinner: require an in-range index and a long enough string; the source does no bounds check and reads or writes outside its arrays otherwise.
- TwentyNine.Dispatch: requires that `n` is in range for the table its token length selects, for the same reason.
- Cards.Digit: characters are Unicode scalar values; the source's signed 8-bit `char` gives negative numbers for bytes above 127, and that is not modelled.
- Each setter writes the suit and the number of a card as two C++ statements; the model writes the whole card in one step, which gives the same state after each card.
- The Pac-Man ghost sources of the repository (path search, ghost motion, release timer) are not part of this model.

# Mastermind rule engine in Dafny

This project models the rule engine of a terminal Mastermind game, the
`Mastermind` class of `Mastermind.h`. A secret code of `codeLength` colors is
kept in the map `answer`, keyed by position. The player types guesses at a
prompt. Each guess is split at single spaces and lower-cased, then checked
for validity: the right number of tokens, each one of eight color names. A
valid guess is scored as a pair (red, white). The guess goes onto a queue and
its score onto a stack. The game stops at the first win or after `turns`
turns.

The files:

- `tokenizer.dfy` (module `Tokenizer`) covers the prompt's tokenising. The
  pure functions `Split`, `Lower` and `Tokens` state what a line becomes. The
  method `Tokenize` is the find/substr/erase loop, proved to compute `Tokens`.
  The lemma `TokensShape` gives the token count and shows that no token holds
  a space or an upper-case letter. It also shows that the tokens joined with
  single spaces give back the line lower-cased, so the line itself only up to
  case.
- `rules.dfy` (module `Rules`) holds the rules as values. These are the color
  names in `std::set` iteration order, validity, the red and white counts
  (`Red`, `White`, `Score`), what `map::insert` does (`Insert`), and the
  answer after generation (`Filled`). It also has the guess prompt
  (`NextGuess`, `ReadGuess`) and the whole turn sequence of one game (`Play`).
- `scoring_facts.dfy` (module `ScoringFacts`) states what the counts mean and
  works through examples of the unpegged white count.
- `game_facts.dfy` (module `GameFacts`) has the lemmas about answer
  generation and the turn loop.
- `mastermind.dfy` (module `MastermindGame`) holds the class `Mastermind`. Its
  fields are the source's fields except `colors`. That set never changes, so it
  is the constant `Rules.Colors`. The guess queue and the result stack are
  sequences, front first and top last. The constructor and the three setters
  state the fields they set. `GenAnswer`, `ValidGuess`, `CheckGuess`,
  `CheckWin` and `GameLoop` are proved against the functions of `Rules`. So
  are the methods that model parts of them: the two branches of `genAnswer`
  (`InsertDraws`, `InsertRedrawn`), the inner count of `checkGuess`
  (`CountSlots`), and the guess prompt, one turn and the turn loop of
  `gameLoop` (`ReadValidGuess`, `TakeTurn`, `PlayTurns`).

Inputs from outside the class are parameters. The values of `rand()` come in
as `draws`, where `draws[i]` lists the values drawn while position `i` is
filled. The lines typed at the guess prompt come in already tokenised, as
`candidates`. The tokens of a line are `Tokenizer.Tokens(line)`, which the
tokenising loop `Tokenizer.Tokenize` computes.

Sometimes the intended rules of the game differ from what the code does. In
each such case the model follows the code:

- The win test compares the red count with the literal 4, not with
  `codeLength` (`Mastermind.h:164`). `ScoringFacts.PerfectGuessWinsOnlyAtFour`
  shows the result: guessing the answer itself wins only when the code has
  four slots. With six or eight slots it goes the other way too: a wrong guess
  with four positions right wins (`ScoringFacts.FourOfSixWins`).
- Each miss adds one white for every answer slot that holds the guessed color.
  Slots are never used up, so white can be larger than the number of missed
  positions (`ScoringFacts.UnpeggedWhiteExceedsMisses`).
- The color check is exact membership in a `std::set<string>`. It does no case
  folding and has no approximate-membership filter. Lower-casing happens only
  in the tokeniser.
- Without duplicates, generation does not make the colors pairwise distinct.
  The retry loop compares a draw only with the value already stored at the
  same position (see "Left out").

## Model

| member | source | states |
|---|---|---|
| `MastermindGame.Mastermind.constructor` | Mastermind.h:45-50 | the defaults: no duplicates, code length 4, 10 turns, empty answer and history |
| `MastermindGame.Mastermind.SetCodeLength` | Mastermind.h:64-67 | the code length becomes the argument; nothing else changes |
| `MastermindGame.Mastermind.SetDuplicates` | Mastermind.h:69-72 | the duplicates flag becomes the argument; nothing else changes |
| `MastermindGame.Mastermind.SetTurns` | Mastermind.h:74-77 | the turn budget becomes the argument; nothing else changes |
| `Rules.ColorAt` | Mastermind.h:85-87 | advancing the set's begin iterator by a `rand()` value modulo 8 always lands on one of the eight colors |
| `MastermindGame.Mastermind.GenAnswer` | Mastermind.h:79-109 | the new answer is the old one with positions 0 .. codeLength-1 inserted (`Filled`), whichever branch runs; the returned map is the new answer |
| `MastermindGame.Mastermind.InsertDraws` | Mastermind.h:81-90 | the duplicates branch leaves the answer `Filled` with each position's first draw |
| `MastermindGame.Mastermind.InsertRedrawn` | Mastermind.h:91-106 | the no-duplicates branch, with its redraw loop, leaves the same map as the duplicates branch |
| `Rules.Insert` | Mastermind.h:88 | `map::insert`: the pair goes in only when the key is absent, and a present key keeps its value |
| `GameFacts.InsertNeverOverwrites` | Mastermind.h:88 | an unfolding of `Insert`, spelt out for the proofs: its keys are the old ones plus the new key, and only an absent key takes the new color |
| `Rules.Filled` | Mastermind.h:79-109 | the answer after generation: positions 0 .. n-1 inserted in order, each with its first draw's color; no key present before is lost |
| `GameFacts.FilledKeys` | Mastermind.h:83-88 | generation adds exactly keys 0 .. n-1 to the keys already present, and every present key keeps its value |
| `GameFacts.FilledFresh` | Mastermind.h:83-88 | a position that was absent holds the color of its first draw |
| `GameFacts.FilledFromEmpty` | Mastermind.h:83-88 | from an empty answer, the keys are exactly 0 .. n-1 and each maps to one of the eight colors, the one its draw picks |
| `GameFacts.FilledOnCovered` | Mastermind.h:104 | generating over an answer that already holds positions 0 .. n-1 changes nothing |
| `GameFacts.FilledIdempotent` | Mastermind.h:226 | generating a second time, with any draws, returns the same map |
| `Rules.AllColors` | Mastermind.h:119-130 | the color check from the front: every token, in order, is one of the color names |
| `Rules.IsValidGuess` | Mastermind.h:111-131 | validity: exactly codeLength tokens, all passing the color check |
| `Rules.AllColorsIff` | Mastermind.h:119-130 | checking the tokens front to back, stopping at the first non-color, accepts exactly when every token is a color |
| `MastermindGame.Mastermind.ValidGuess` | Mastermind.h:111-131 | valid iff the guess has exactly codeLength tokens and each is one of the eight color names, spelt exactly; a wrong length is invalid whatever the tokens |
| `Rules.White` | Mastermind.h:146-155 | white: every missed position adds the number of answer slots holding its color; the total is at most one per position and slot |
| `Rules.Score` | Mastermind.h:133-160 | the score pairs red and white; red is at most the guess length, white at most the guess length times the answer size |
| `Rules.Red` | Mastermind.h:139-145 | red never exceeds the guess length |
| `Rules.Occurrences` | Mastermind.h:148-154 | the answer slots holding a color number at most the size of the answer |
| `MastermindGame.Mastermind.CountSlots` | Mastermind.h:148-154 | the inner loop counts the answer entries holding the guessed color, reading nothing but the answer |
| `MastermindGame.Mastermind.CheckGuess` | Mastermind.h:133-160 | when keys 0 .. \|guess\|-1 are all present, the score is (Red, White) of the guess and nothing is modified; otherwise `map::at` throws at the first missing key |
| `ScoringFacts.ScoreStep` | Mastermind.h:139-157 | an unfolding of `Red` and `White` for a guess one token longer, used by the worked examples: one more red for a match, or the occurrences of the guessed color for a miss |
| `ScoringFacts.RedCountsMatches` | Mastermind.h:139-145 | red is the number of positions where the guess holds the answer's color |
| `ScoringFacts.RedFullIffAllMatch` | Mastermind.h:139-145 | red equals the guess length iff every position matches |
| `ScoringFacts.WhiteOfPerfectGuess` | Mastermind.h:146-155 | a guess matching everywhere scores no white |
| `ScoringFacts.SelfScore` | Mastermind.h:139-159 | scoring the answer itself gives (codeLength, 0) |
| `ScoringFacts.OccursIffValue` | Mastermind.h:148-154 | a color is counted in some slot iff it is one of the answer's values |
| `ScoringFacts.WhiteZeroIff` | Mastermind.h:146-155 | white is zero iff every missed position guesses a color the answer does not hold |
| `ScoringFacts.WhiteBound` | Mastermind.h:146-155 | white is at most misses × (answer size − 1): a missed position never counts its own slot, which holds another color |
| `ScoringFacts.SingleSlot` | Mastermind.h:148-154 | a color held by exactly one slot is counted once |
| `ScoringFacts.NoSlot` | Mastermind.h:148-154 | a color the answer does not hold is counted zero times |
| `ScoringFacts.AllRedAgainstRgby` | Mastermind.h:139-159 | red×4 against red, green, blue, yellow scores (1, 3): each of the three misses counts the single red slot again |
| `ScoringFacts.SwappedPairAgainstRgby` | Mastermind.h:139-159 | green, red, blue, yellow against red, green, blue, yellow scores (2, 2) |
| `ScoringFacts.AllWhiteAgainstRgby` | Mastermind.h:139-159 | white×4 against red, green, blue, yellow scores (0, 0) |
| `ScoringFacts.GreenTwiceInRggy` | Mastermind.h:148-154 | green occupies two slots of red, green, green, yellow |
| `ScoringFacts.UnpeggedWhiteExceedsMisses` | Mastermind.h:146-155 | green×4 against red, green, green, yellow scores (2, 4): more whites than missed positions |
| `MastermindGame.Mastermind.CheckWin` | Mastermind.h:162-172 | with a non-empty result stack, the game is won iff the top result has exactly 4 reds, whatever the code length |
| `Rules.Wins` | Mastermind.h:164 | the win test: exactly four reds, whatever the code length |
| `ScoringFacts.PerfectGuessWinsOnlyAtFour` | Mastermind.h:164 | guessing the answer exactly wins iff the code has four slots |
| `ScoringFacts.FourMatchesWin` | Mastermind.h:164 | any guess with four matching positions wins, whatever the code length and whatever the other positions hold |
| `ScoringFacts.FourOfSixWins` | Mastermind.h:164 | with six slots, a valid guess that misses two positions still wins |
| `Rules.NextGuess` | Mastermind.h:232-261 | the accepted guess is a candidate that passed validation, and it is the last of the candidates read |
| `Rules.ReadGuess` | Mastermind.h:231-232 | a turn's guess is valid and reads no more candidates than there are |
| `GameFacts.NextGuessSkipsInvalid` | Mastermind.h:256-260 | every candidate read before the accepted one was invalid, and all were when none is accepted |
| `GameFacts.NextGuessTakesFirstCandidate` | Mastermind.h:231-261 | the accepted guess is the first valid candidate, and none is accepted only when no candidate is valid |
| `MastermindGame.Mastermind.ReadValidGuess` | Mastermind.h:231-261 | the current guess is emptied and refilled until valid; it ends holding the guess `ReadGuess` picks, or empty when the input runs out |
| `MastermindGame.Mastermind.TakeTurn` | Mastermind.h:231-270 | one turn pushes the valid guess onto the queue and its score onto the stack, and reports the win test on that score; nothing is recorded when the input runs out; the queue and the stack stay the same size |
| `MastermindGame.Mastermind.PlayTurns` | Mastermind.h:229-271 | the loop leaves the queue and the stack extended by exactly the guesses and scores of `Play`, and ends the way `Play` ends; the queue and the stack stay the same size |
| `MastermindGame.Mastermind.GameLoop` | Mastermind.h:224-271 | the answer is generated, then the turns are played; the queue and the stack stay the same size; an answer already filled is kept |
| `Rules.Play` | Mastermind.h:229-270 | the turn sequence of one game: each turn reads a valid guess and scores it; the game stops at the first win, after the last turn, or when the input runs out |
| `GameFacts.PlayStep` | Mastermind.h:229-270 | an unfolding of `Play` for one turn, used by the proofs: the first valid guess is scored, then the game is won or goes on with one turn fewer from the next candidate |
| `GameFacts.PlayRecordsValidTurns` | Mastermind.h:229-264 | at most `turns` turns are recorded; each holds a guess that passed validation and that guess's score; no more input is read than there is |
| `GameFacts.PlayStopsAtFirstWin` | Mastermind.h:266-270 | no recorded turn but the last wins, and the game is won iff its last turn wins |
| `GameFacts.PlayEnds` | Mastermind.h:229-271 | a lost game used all its turns; a game that ran out of input read every candidate and had turns to spare |
| `GameFacts.PlayKeepsValidCandidates` | Mastermind.h:231-264 | invalid candidates are discarded: the recorded guesses are exactly the valid candidates among those read |
| `Tokenizer.LowerChar` | Mastermind.h:249 | `tolower` turns each upper-case letter into its own lower-case letter ('R' into 'r'), changes nothing else, and maps a space to a space only |
| `Tokenizer.Lower` | Mastermind.h:249 | lower-casing a string keeps its length and applies `tolower` to each character |
| `Tokenizer.Find` | Mastermind.h:247 | `find` gives the first index holding the character, or the length when there is none |
| `Tokenizer.Split` | Mastermind.h:247-254 | cutting at single spaces always gives at least one piece |
| `Tokenizer.LowerAll` | Mastermind.h:249-253 | each piece is lower-cased, in order |
| `Tokenizer.Tokens` | Mastermind.h:244-254 | the tokens of one line: the pieces between single spaces, lower-cased; a line with k spaces gives k + 1 tokens |
| `Tokenizer.Tokenize` | Mastermind.h:244-254 | the find/substr/erase loop pushes exactly `Tokens(line)` |
| `Tokenizer.SplitCount` | Mastermind.h:247-254 | a line with k spaces gives k + 1 pieces, including empty ones between adjacent spaces |
| `Tokenizer.SplitHasNoSpaces` | Mastermind.h:247-254 | no piece contains a space |
| `Tokenizer.JoinSplit` | Mastermind.h:247-254 | joining the pieces with single spaces gives the line back |
| `Tokenizer.JoinLowerAll` | Mastermind.h:249-253 | lower-casing the pieces and joining them is lower-casing the joined line |
| `Tokenizer.TokensShape` | Mastermind.h:244-254 | a line gives (spaces + 1) tokens; none holds a space or an upper-case letter; joined with single spaces they are the line lower-cased |

## Left out

- Console I/O is left out: the prompts and reads of `preGame` (`Mastermind.h:174-222`), the prompts and final printing of `gameLoop` (`Mastermind.h:236-243`, `Mastermind.h:273-287`) and `outputVisuals` (`Mastermind.h:290-312`). Of `preGame`'s input checks, only the turn check becomes a precondition: `turns > 0` on `GameLoop` and `PlayTurns`. The duplicates check (`Mastermind.h:182`) and the length check to 4, 6 or 8 (`Mastermind.h:199`) are not modelled: the model is stated for every `codeLength`.
- `main.cpp` is menu plumbing and is not part of this model.
- The destructor (`Mastermind.h:52-62`) only clears containers and is not modelled.
- `rand()` becomes the supplied `draws`. Its distribution and seeding are not modelled.
- `getline` becomes a sequence of candidates that are already tokenised. `Tokenizer.Tokenize` is proved to compute the tokens of one line. The turn loop is stated over the candidates, not over raw lines.
- Running out of input ends the modelled game as `InputExhausted`. The source has no end of input: at end of file it would keep prompting.
- `MastermindGame.Mastermind.InsertRedrawn`: at a position not yet in the answer, the source's retry loop dereferences `answer.find(i)`, the end iterator, which is undefined behaviour. The model reads that as "no collision", so the first draw is kept. A redraw then happens only at a present key, where the insert changes nothing. The model also stops redrawing when `draws[i]` runs out, where the source would keep calling `rand()`. Because of all this, pairwise-distinct colors are not claimed.
- The source's `std::string` is a string of bytes, and `::tolower` is called on plain `char` values. On a non-ASCII byte that value is negative where `char` is signed, which is undefined behaviour. The model's strings are sequences of Unicode characters, and `LowerChar` changes only 'A' to 'Z'.
- The `int` counters `red`, `white` and the loop index are unbounded integers here. They cannot overflow at the sizes this game uses.

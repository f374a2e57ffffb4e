/**
 * The rules of the game as values: the color names, what a valid guess is,
 * how a guess is scored against the answer, what answer generation leaves in
 * the answer map, and the whole turn sequence of one game.  The class in
 * mastermind.dfy is proved to compute exactly these.
 */
module Rules {

  datatype Option<T> = None | Some(value: T)

  /**
   * The eight color names in the order a `std::set<string>` visits them,
   * which is lexicographic: advancing the set's begin iterator by k steps
   * reaches Colors[k].
   */
  const Colors: seq<string> := ["black", "blue", "brown", "green", "orange", "red", "white", "yellow"]

  /** The color picked by `advance(colors.cbegin(), v % colors.size())` for a `rand()` value v. */
  function ColorAt(v: nat): (c: string)
    ensures c in Colors
  {
    Colors[v % |Colors|]
  }

  /** The (red, white) pair of the scorer: red for right color in the right slot, white for the rest. */
  datatype Feedback = Feedback(red: nat, white: nat)

  /** What scoring a guess gives: a score, or the `std::out_of_range` that `map::at` throws for a missing key. */
  datatype CheckOutcome = Scored(feedback: Feedback) | OutOfRange(index: int)

  /** How a game ends; the model also stops when the supplied input candidates run out. */
  datatype GameEnd = Won | Lost | InputExhausted

  /** One completed turn: the guess pushed on the guess queue and the score pushed on the result stack. */
  datatype Turn = Turn(guess: seq<string>, feedback: Feedback)

  /** A whole game: its turns in order, how it ended, and how many input candidates it read. */
  datatype Game = Game(turns: seq<Turn>, end: GameEnd, consumed: nat)

  /** Every token is one of the color names, exactly as spelt, checked from the front. */
  predicate AllColors(guess: seq<string>)
    decreases |guess|
  {
    guess == [] || (guess[0] in Colors && AllColors(guess[1..]))
  }

  /** The check from the front holds exactly when each token is a color. */
  lemma {:induction false} AllColorsIff(guess: seq<string>)
    ensures AllColors(guess) <==> forall i :: 0 <= i < |guess| ==> guess[i] in Colors
    decreases |guess|
  {
    if guess != [] {
      AllColorsIff(guess[1..]);
      assert forall i :: 1 <= i < |guess| ==> guess[i] == guess[1..][i - 1];
    }
  }

  /** A guess is valid when it has exactly `codeLength` tokens and each is one of the color names. */
  predicate IsValidGuess(guess: seq<string>, codeLength: int)
  {
    |guess| == codeLength && AllColors(guess)
  }

  /** Every position 0 .. n-1 is a key of the answer, so `answer.at(i)` does not throw for them. */
  predicate Covers(answer: map<int, string>, n: int)
  {
    forall i :: 0 <= i < n ==> i in answer
  }

  /** The answer entries (key, color) whose color is `c`. */
  function SlotsOf(answer: map<int, string>, c: string): (slots: set<(int, string)>)
    ensures slots <= answer.Items
    ensures forall p :: p in slots <==> p in answer.Items && p.1 == c
  {
    set p | p in answer.Items && p.1 == c
  }

  /** How many answer slots hold `c`; never more than the size of the answer. */
  function Occurrences(answer: map<int, string>, c: string): (count: nat)
    ensures count <= |answer|
  {
    SubsetCardinality(SlotsOf(answer, c), answer.Items);
    |SlotsOf(answer, c)|
  }

  lemma SubsetCardinality<T>(a: set<T>, b: set<T>)
    requires a <= b
    ensures |a| <= |b|
  {
    assert b == a + (b - a);
    assert a * (b - a) == {};
  }

  /** Red: the positions where the guess holds the answer's color. */
  function Red(guess: seq<string>, answer: map<int, string>): (red: nat)
    requires Covers(answer, |guess|)
    ensures red <= |guess|
    decreases |guess|
  {
    if guess == [] then 0
    else
      var i := |guess| - 1;
      Red(guess[..i], answer) + (if guess[i] == answer[i] then 1 else 0)
  }

  /**
   * White: for every position where the guess misses, the number of answer
   * slots holding the guessed color.  Slots are never used up, so a repeated
   * guess color is counted again for each position it stands in.
   */
  function White(guess: seq<string>, answer: map<int, string>): (white: nat)
    requires Covers(answer, |guess|)
    ensures white <= |guess| * |answer|
    decreases |guess|
  {
    if guess == [] then 0
    else
      var i := |guess| - 1;
      assert |guess| * |answer| == i * |answer| + |answer|;
      White(guess[..i], answer) + (if guess[i] == answer[i] then 0 else Occurrences(answer, guess[i]))
  }

  /** The score of a guess: at most one red per position, at most one white per position and answer slot. */
  function Score(guess: seq<string>, answer: map<int, string>): (f: Feedback)
    requires Covers(answer, |guess|)
    ensures f.red <= |guess| && f.white <= |guess| * |answer|
  {
    Feedback(Red(guess, answer), White(guess, answer))
  }

  /** The win test: exactly four reds, whatever the code length. */
  predicate Wins(f: Feedback)
  {
    f.red == 4
  }

  /** `map::insert`: the pair is added only when the key is absent; a present key keeps its value. */
  function Insert(m: map<int, string>, k: int, v: string): map<int, string>
  {
    if k in m then m else m[k := v]
  }

  /**
   * The supplied `rand()` values reach every position filled: draws[i] lists
   * the values drawn, in order, while position i is filled.
   */
  predicate DrawsSuffice(draws: seq<seq<nat>>, n: int)
  {
    n <= |draws| && forall i :: 0 <= i < n ==> |draws[i]| > 0
  }

  /**
   * The answer map after generation: positions 0 .. n-1 are inserted in
   * order, each absent one with the color of its first draw.  Keys already
   * present, and keys outside 0 .. n-1, keep their values.
   */
  function Filled(m: map<int, string>, n: int, draws: seq<seq<nat>>): (r: map<int, string>)
    requires DrawsSuffice(draws, n)
    ensures m.Keys <= r.Keys
    decreases if n < 0 then 0 else n
  {
    if n <= 0 then m else Insert(Filled(m, n - 1, draws), n - 1, ColorAt(draws[n - 1][0]))
  }

  /** Adds k to the count of candidates read. */
  function Shift(r: Option<(seq<string>, nat)>, k: nat): Option<(seq<string>, nat)>
  {
    match r
    case None => None
    case Some((g, u)) => Some((g, u + k))
  }

  /**
   * The guess prompt, fed one tokenised input line (a candidate) at a time:
   * the first candidate that forms a valid guess, with the number of
   * candidates read up to and including it; None when none does.
   */
  function NextGuess(codeLength: int, candidates: seq<seq<string>>): (r: Option<(seq<string>, nat)>)
    ensures r.Some? ==> 0 < r.value.1 <= |candidates| && r.value.0 == candidates[r.value.1 - 1]
    ensures r.Some? ==> IsValidGuess(r.value.0, codeLength)
    decreases |candidates|
  {
    if candidates == [] then None
    else if IsValidGuess(candidates[0], codeLength) then Some((candidates[0], 1))
    else Shift(NextGuess(codeLength, candidates[1..]), 1)
  }

  /**
   * One turn's guess: the emptied current guess when that is already valid
   * (only for code length 0), otherwise the next valid candidate.
   */
  function ReadGuess(codeLength: int, candidates: seq<seq<string>>): (r: Option<(seq<string>, nat)>)
    ensures r.Some? ==> IsValidGuess(r.value.0, codeLength) && r.value.1 <= |candidates|
  {
    if IsValidGuess([], codeLength) then Some(([], 0)) else NextGuess(codeLength, candidates)
  }

  /**
   * The turn loop: up to `turnsLeft` turns, each reading a valid guess,
   * scoring it and stopping at the first win.
   */
  function Play(answer: map<int, string>, codeLength: int, turnsLeft: nat, candidates: seq<seq<string>>): Game
    requires Covers(answer, codeLength)
    decreases turnsLeft
  {
    if turnsLeft == 0 then Game([], Lost, 0)
    else
      match ReadGuess(codeLength, candidates)
      case None => Game([], InputExhausted, |candidates|)
      case Some((g, used)) =>
        var f := Score(g, answer);
        if Wins(f) then Game([Turn(g, f)], Won, used)
        else
          var rest := Play(answer, codeLength, turnsLeft - 1, candidates[used..]);
          Game([Turn(g, f)] + rest.turns, rest.end, used + rest.consumed)
  }

  /** The game `g` with `played` turns and `consumed` candidates read before it. */
  function Prepend(played: seq<Turn>, consumed: nat, g: Game): Game
  {
    Game(played + g.turns, g.end, consumed + g.consumed)
  }

  function GuessesOf(turns: seq<Turn>): (r: seq<seq<string>>)
    ensures |r| == |turns|
    ensures forall i :: 0 <= i < |turns| ==> r[i] == turns[i].guess
  {
    seq(|turns|, i requires 0 <= i < |turns| => turns[i].guess)
  }

  function FeedbackOf(turns: seq<Turn>): (r: seq<Feedback>)
    ensures |r| == |turns|
    ensures forall i :: 0 <= i < |turns| ==> r[i] == turns[i].feedback
  {
    seq(|turns|, i requires 0 <= i < |turns| => turns[i].feedback)
  }

  /** The current guess the loop leaves behind: the last recorded guess, or empty when input ran out. */
  function LastGuess(turns: seq<Turn>, end: GameEnd): seq<string>
  {
    if end == InputExhausted || turns == [] then [] else turns[|turns| - 1].guess
  }
}

/**
 * The game object: its settings, the answer map, the current guess, the
 * queue of past guesses and the stack of their scores, and the operations
 * that update them.  Each line typed at the guess prompt arrives already
 * split into its tokens (see module Tokenizer), as a candidate guess; the
 * values of `rand()` arrive as a supplied sequence; nothing is printed.
 */
module MastermindGame {
  import opened Rules
  import GameFacts

  class Mastermind {
    var allowDuplicates: bool
    var codeLength: int
    var turns: int
    var answer: map<int, string>
    var currentGuess: seq<string>
    /** The result stack; its top is the last element. */
    var guessResults: seq<Feedback>
    /** The guess queue; its front is the first element. */
    var guesses: seq<seq<string>>

    /** Every recorded guess has its score: the queue and the stack have the same size. */
    predicate HistoryAligned()
      reads this
    {
      |guesses| == |guessResults|
    }

    /** The defaults: no duplicates, four slots, ten turns, and nothing generated or played yet. */
    constructor ()
      ensures !allowDuplicates && codeLength == 4 && turns == 10
      ensures answer == map[] && currentGuess == [] && guessResults == [] && guesses == []
      ensures HistoryAligned()
    {
      allowDuplicates := false;
      codeLength := 4;
      turns := 10;
      answer := map[];
      currentGuess := [];
      guessResults := [];
      guesses := [];
    }

    method SetCodeLength(length: int)
      modifies this`codeLength
      ensures codeLength == length
    {
      codeLength := length;
    }

    method SetDuplicates(duplicates: bool)
      modifies this`allowDuplicates
      ensures allowDuplicates == duplicates
    {
      allowDuplicates := duplicates;
    }

    method SetTurns(turns: int)
      modifies this`turns
      ensures this.turns == turns
    {
      this.turns := turns;
    }

    /**
     * Fills positions 0 .. codeLength-1 of the answer with `map::insert`,
     * by one of the two branches below, and returns a copy of the answer.
     * Since an insert never overwrites, both branches leave the same map.
     */
    method GenAnswer(draws: seq<seq<nat>>) returns (r: map<int, string>)
      requires DrawsSuffice(draws, codeLength)
      modifies this`answer
      ensures answer == Filled(old(answer), codeLength, draws)
      ensures r == answer
    {
      if allowDuplicates {
        InsertDraws(draws);
      } else {
        InsertRedrawn(draws);
      }
      r := answer;
    }

    /** With duplicates allowed, each position is inserted with the color of its first draw. */
    method InsertDraws(draws: seq<seq<nat>>)
      requires DrawsSuffice(draws, codeLength)
      modifies this`answer
      ensures answer == Filled(old(answer), codeLength, draws)
    {
      ghost var start := answer;
      var i := 0;
      while i < codeLength
        invariant 0 <= i && (i <= codeLength || i == 0)
        invariant answer == Filled(start, i, draws)
      {
        var color := ColorAt(draws[i][0]);
        GameFacts.FilledStep(start, i, draws);
        answer := Insert(answer, i, color);
        i := i + 1;
      }
    }

    /**
     * Without duplicates, a draw is redrawn while it equals the color
     * already stored at its position.  For a position not yet stored the
     * source dereferences the end iterator; this model reads that as no
     * collision, so a fresh position takes its first draw, and a redraw
     * happens only where the insert would not change the map anyway.
     */
    method InsertRedrawn(draws: seq<seq<nat>>)
      requires DrawsSuffice(draws, codeLength)
      modifies this`answer
      ensures answer == Filled(old(answer), codeLength, draws)
    {
      ghost var start := answer;
      var i := 0;
      while i < codeLength
        invariant 0 <= i && (i <= codeLength || i == 0)
        invariant answer == Filled(start, i, draws)
      {
        GameFacts.FilledStep(start, i, draws);
        var k := 0;
        var color := ColorAt(draws[i][0]);
        while k + 1 < |draws[i]| && i in answer && answer[i] == color
          invariant 0 <= k < |draws[i]|
          invariant i !in answer ==> color == ColorAt(draws[i][0])
          decreases |draws[i]| - k
        {
          k := k + 1;
          color := ColorAt(draws[i][k]);
        }
        answer := Insert(answer, i, color);
        i := i + 1;
      }
    }

    /** Length first, then each token in turn, returning false at the first that is not a color. */
    method ValidGuess(guess: seq<string>) returns (valid: bool)
      ensures valid <==> |guess| == codeLength && forall i :: 0 <= i < |guess| ==> guess[i] in Colors
      ensures valid == IsValidGuess(guess, codeLength)
    {
      AllColorsIff(guess);
      if |guess| != codeLength {
        return false;
      }
      var i := 0;
      while i < |guess|
        invariant 0 <= i <= |guess|
        invariant forall j :: 0 <= j < i ==> guess[j] in Colors
      {
        if guess[i] !in Colors {
          return false;
        }
        i := i + 1;
      }
      return true;
    }

    /**
     * Scores a guess position by position: a match in place adds one red;
     * a miss adds one white for every answer entry holding the guessed color.
     * `answer.at(i)` throws at the first position that is not a key.
     */
    method CheckGuess(guess: seq<string>) returns (r: CheckOutcome)
      ensures r.Scored? <==> Covers(answer, |guess|)
      ensures r.Scored? ==> r.feedback == Score(guess, answer)
      ensures r.OutOfRange? ==> 0 <= r.index < |guess| && r.index !in answer && Covers(answer, r.index)
    {
      var red, white := 0, 0;
      var i := 0;
      while i < |guess|
        invariant 0 <= i <= |guess|
        invariant Covers(answer, i)
        invariant red == Red(guess[..i], answer) && white == White(guess[..i], answer)
      {
        if i !in answer {
          return OutOfRange(i);
        }
        assert guess[..i + 1][..i] == guess[..i];
        assert Red(guess[..i + 1], answer) == Red(guess[..i], answer) + (if guess[i] == answer[i] then 1 else 0);
        assert White(guess[..i + 1], answer) == White(guess[..i], answer) + (if guess[i] == answer[i] then 0 else Occurrences(answer, guess[i]));
        if answer[i] == guess[i] {
          red := red + 1;
        } else {
          var count := CountSlots(guess[i]);
          white := white + count;
        }
        i := i + 1;
      }
      assert guess[..i] == guess;
      r := Scored(Feedback(red, white));
    }

    /** The inner loop of the scorer: one pass over every answer entry, counting those holding `color`. */
    method CountSlots(color: string) returns (count: nat)
      ensures count == Occurrences(answer, color)
    {
      count := 0;
      var unvisited := answer.Items;
      while unvisited != {}
        invariant unvisited <= answer.Items
        invariant count == |SlotsOf(answer, color) - unvisited|
        decreases |unvisited|
      {
        var entry :| entry in unvisited;
        ghost var seen := SlotsOf(answer, color) - unvisited;
        if entry.1 == color {
          assert entry !in seen;
          assert SlotsOf(answer, color) - (unvisited - {entry}) == seen + {entry};
          count := count + 1;
        } else {
          assert SlotsOf(answer, color) - (unvisited - {entry}) == seen;
        }
        unvisited := unvisited - {entry};
      }
      assert SlotsOf(answer, color) - {} == SlotsOf(answer, color);
    }

    /** The win test reads the top of the result stack. */
    function CheckWin(): (win: bool)
      reads this
      requires guessResults != []
      ensures win <==> guessResults[|guessResults| - 1].red == 4
    {
      Wins(guessResults[|guessResults| - 1])
    }

    /**
     * The guess prompt of one turn: the current guess is emptied, then the
     * tokens of one candidate after another are pushed onto it until it is
     * valid, emptying it again after each invalid candidate.
     */
    method ReadValidGuess(candidates: seq<seq<string>>) returns (found: bool, used: nat)
      modifies this`currentGuess
      ensures used <= |candidates|
      ensures ReadGuess(codeLength, candidates) == if found then Some((currentGuess, used)) else None
      ensures !found ==> currentGuess == []
    {
      currentGuess := [];
      found := ValidGuess(currentGuess);
      used := 0;
      assert candidates[0..] == candidates;
      while !found && used < |candidates|
        invariant used <= |candidates|
        invariant found ==> ReadGuess(codeLength, candidates) == Some((currentGuess, used))
        invariant !found ==> currentGuess == []
        invariant !found ==> ReadGuess(codeLength, candidates) == Shift(NextGuess(codeLength, candidates[used..]), used)
        decreases |candidates| - used
      {
        ghost var remaining := candidates[used..];
        assert remaining[0] == candidates[used] && remaining[1..] == candidates[used + 1..];
        var tokens := candidates[used];
        assert currentGuess + tokens == tokens;
        currentGuess := currentGuess + tokens;
        used := used + 1;
        found := ValidGuess(currentGuess);
        if found {
          assert NextGuess(codeLength, remaining) == Some((tokens, 1));
        } else {
          assert NextGuess(codeLength, remaining) == Shift(NextGuess(codeLength, candidates[used..]), 1);
          currentGuess := [];
        }
      }
    }

    /**
     * One turn of the game loop: a valid guess is read into the current
     * guess, pushed onto the guess queue, scored, its score pushed onto the
     * result stack, and the win test applied to it.  Nothing is recorded when
     * the input runs out first.
     */
    method TakeTurn(candidates: seq<seq<string>>) returns (found: bool, used: nat, feedback: Feedback, win: bool)
      requires Covers(answer, codeLength)
      modifies this`currentGuess, this`guesses, this`guessResults
      ensures used <= |candidates|
      ensures !found ==> ReadGuess(codeLength, candidates) == None && currentGuess == []
      ensures !found ==> guesses == old(guesses) && guessResults == old(guessResults)
      ensures found ==> ReadGuess(codeLength, candidates) == Some((currentGuess, used)) && Covers(answer, |currentGuess|)
      ensures found ==> feedback == Score(currentGuess, answer) && win == Wins(feedback)
      ensures found ==> guesses == old(guesses) + [currentGuess] && guessResults == old(guessResults) + [feedback]
      ensures old(HistoryAligned()) ==> HistoryAligned()
    {
      found, used := ReadValidGuess(candidates);
      feedback, win := Feedback(0, 0), false;
      if found {
        guesses := guesses + [currentGuess];
        var checked := CheckGuess(currentGuess);
        feedback := checked.feedback;
        guessResults := guessResults + [feedback];
        win := CheckWin();
      }
    }

    /**
     * The game: the answer is generated (and assigned to itself, as the
     * source does), then the turns are played.
     */
    method GameLoop(draws: seq<seq<nat>>, candidates: seq<seq<string>>) returns (end: GameEnd)
      requires turns > 0
      requires DrawsSuffice(draws, codeLength)
      modifies this`answer, this`currentGuess, this`guesses, this`guessResults
      ensures answer == Filled(old(answer), codeLength, draws)
      ensures Covers(old(answer), codeLength) ==> answer == old(answer)
      ensures Covers(answer, codeLength)
      ensures end == Play(answer, codeLength, turns, candidates).end
      ensures guesses == old(guesses) + GuessesOf(Play(answer, codeLength, turns, candidates).turns)
      ensures guessResults == old(guessResults) + FeedbackOf(Play(answer, codeLength, turns, candidates).turns)
      ensures currentGuess == LastGuess(Play(answer, codeLength, turns, candidates).turns, Play(answer, codeLength, turns, candidates).end)
      ensures old(HistoryAligned()) ==> HistoryAligned()
    {
      var generated := GenAnswer(draws);
      answer := generated;
      GameFacts.FilledKeys(old(answer), codeLength, draws);
      if Covers(old(answer), codeLength) {
        GameFacts.FilledOnCovered(old(answer), codeLength, draws);
      }
      end := PlayTurns(candidates);
    }

    /**
     * The turn loop of the game: for up to `turns` turns a valid guess is
     * read, pushed onto the guess queue, scored, its score pushed onto the
     * result stack, and the loop stops at the first win.
     */
    method PlayTurns(candidates: seq<seq<string>>) returns (end: GameEnd)
      requires turns > 0
      requires Covers(answer, codeLength)
      modifies this`currentGuess, this`guesses, this`guessResults
      ensures end == Play(answer, codeLength, turns, candidates).end
      ensures guesses == old(guesses) + GuessesOf(Play(answer, codeLength, turns, candidates).turns)
      ensures guessResults == old(guessResults) + FeedbackOf(Play(answer, codeLength, turns, candidates).turns)
      ensures currentGuess == LastGuess(Play(answer, codeLength, turns, candidates).turns, Play(answer, codeLength, turns, candidates).end)
      ensures old(HistoryAligned()) ==> HistoryAligned()
    {
      ghost var a, n := answer, codeLength;
      var t := turns;
      ghost var game := Play(a, n, t, candidates);
      var i := 0;
      var rest := candidates;
      // The turns played so far, the candidates they read, and the turns left.
      ghost var played: seq<Turn> := [];
      ghost var consumed: nat := 0;
      ghost var left: nat := t;
      end := Lost;
      GameFacts.AccountsInitially(a, n, t, candidates, guesses, guessResults, currentGuess);
      while i < t && end == Lost
        invariant 0 <= i <= t && left == t - i
        invariant end == Lost ==> |played| == i
        invariant GameFacts.Accounts(game, a, n, played, consumed, left, rest, end,
                                     old(guesses), old(guessResults), guesses, guessResults, currentGuess)
        decreases t - i, if end == Lost then 1 else 0
      {
        ghost var playedBefore, consumedBefore, leftBefore, restBefore := played, consumed, left, rest;
        ghost var guessesBefore, resultsBefore, currentBefore := guesses, guessResults, currentGuess;
        var found, used, feedback, win := TakeTurn(rest);
        if !found {
          end := InputExhausted;
          GameFacts.AccountsExhausted(game, a, n, played, consumed, left, rest, old(guesses), old(guessResults),
                                      guesses, guessResults, currentBefore, currentGuess);
        } else {
          played := played + [Turn(currentGuess, feedback)];
          consumed := consumed + used;
          if win {
            end := Won;
          } else {
            rest := rest[used..];
            i := i + 1;
            left := left - 1;
          }
          GameFacts.AccountsTurn(game, a, n, playedBefore, consumedBefore, leftBefore, restBefore,
                                 old(guesses), old(guessResults), guessesBefore, resultsBefore, currentBefore,
                                 currentGuess, used, played, consumed, left, rest, end, guesses, guessResults);
        }
      }
      GameFacts.AccountsFinally(game, a, n, played, consumed, left, rest, end, old(guesses), old(guessResults),
                                guesses, guessResults, currentGuess);
      GameFacts.HistoryStaysAligned(old(guesses), old(guessResults), game.turns);
    }
  }
}

/**
 * Properties of answer generation and of the turn loop, stated on the
 * functions of module Rules.
 */
module GameFacts {
  import opened Rules

  /** An insert adds its key, and overwrites nothing: only an absent key takes the new value. */
  lemma InsertNeverOverwrites(m: map<int, string>, k: int, v: string)
    ensures Insert(m, k, v).Keys == m.Keys + {k}
    ensures forall j :: j in m ==> Insert(m, k, v)[j] == m[j]
    ensures k !in m ==> Insert(m, k, v)[k] == v
  {
  }

  /**
   * Generation leaves keys 0 .. n-1 besides the keys already present, and
   * every key already present keeps its value.
   */
  lemma {:induction false} FilledKeys(m: map<int, string>, n: int, draws: seq<seq<nat>>)
    requires DrawsSuffice(draws, n)
    ensures forall k :: k in Filled(m, n, draws) <==> k in m || 0 <= k < n
    ensures forall k :: k in m ==> Filled(m, n, draws)[k] == m[k]
    decreases if n < 0 then 0 else n
  {
    if n > 0 {
      FilledKeys(m, n - 1, draws);
      InsertNeverOverwrites(Filled(m, n - 1, draws), n - 1, ColorAt(draws[n - 1][0]));
    }
  }

  /** Filling one more position inserts it, with the color of its first draw, into the map filled so far. */
  lemma FilledStep(m: map<int, string>, i: nat, draws: seq<seq<nat>>)
    requires DrawsSuffice(draws, i + 1)
    ensures DrawsSuffice(draws, i)
    ensures Filled(m, i + 1, draws) == Insert(Filled(m, i, draws), i, ColorAt(draws[i][0]))
  {
  }

  /** Generating over an answer that already holds every position changes nothing. */
  lemma {:induction false} FilledOnCovered(m: map<int, string>, n: int, draws: seq<seq<nat>>)
    requires DrawsSuffice(draws, n)
    requires Covers(m, n)
    ensures Filled(m, n, draws) == m
    decreases if n < 0 then 0 else n
  {
    if n > 0 {
      FilledOnCovered(m, n - 1, draws);
    }
  }

  /** A position generation fills is given the color of its first draw. */
  lemma {:induction false} FilledFresh(m: map<int, string>, n: int, draws: seq<seq<nat>>, k: int)
    requires DrawsSuffice(draws, n)
    requires 0 <= k < n && k !in m
    ensures k in Filled(m, n, draws) && Filled(m, n, draws)[k] == ColorAt(draws[k][0])
    decreases n
  {
    if k < n - 1 {
      FilledFresh(m, n - 1, draws, k);
      FilledKeys(m, n - 1, draws);
    } else {
      FilledKeys(m, n - 1, draws);
    }
  }

  /**
   * From an empty answer, generation leaves exactly the keys 0 .. n-1, each
   * holding one of the eight colors, the one its first draw picks.
   */
  lemma FilledFromEmpty(n: int, draws: seq<seq<nat>>)
    requires DrawsSuffice(draws, n)
    ensures forall k :: k in Filled(map[], n, draws) <==> 0 <= k < n
    ensures forall k :: 0 <= k < n ==> Filled(map[], n, draws)[k] == ColorAt(draws[k][0])
    ensures forall k :: k in Filled(map[], n, draws) ==> Filled(map[], n, draws)[k] in Colors
  {
    FilledKeys(map[], n, draws);
    forall k | 0 <= k < n
      ensures Filled(map[], n, draws)[k] == ColorAt(draws[k][0])
    {
      FilledFresh(map[], n, draws, k);
    }
  }

  /** Generating a second time, whatever is drawn, returns the same map. */
  lemma FilledIdempotent(m: map<int, string>, n: int, first: seq<seq<nat>>, again: seq<seq<nat>>)
    requires DrawsSuffice(first, n) && DrawsSuffice(again, n)
    ensures Filled(Filled(m, n, first), n, again) == Filled(m, n, first)
  {
    FilledKeys(m, n, first);
    FilledOnCovered(Filled(m, n, first), n, again);
  }

  /** The guess prompt discards every candidate before the one it accepts, and all of them when it accepts none. */
  lemma {:induction false} NextGuessSkipsInvalid(n: int, candidates: seq<seq<string>>)
    ensures NextGuess(n, candidates).Some? ==>
      forall j :: 0 <= j < NextGuess(n, candidates).value.1 - 1 ==> !IsValidGuess(candidates[j], n)
    ensures NextGuess(n, candidates).None? ==>
      forall j :: 0 <= j < |candidates| ==> !IsValidGuess(candidates[j], n)
    decreases |candidates|
  {
    if candidates != [] && !IsValidGuess(candidates[0], n) {
      NextGuessSkipsInvalid(n, candidates[1..]);
      assert forall j :: 1 <= j < |candidates| ==> candidates[j] == candidates[1..][j - 1];
    }
  }

  /** One turn of the loop: a guess read with `used` candidates, then either the win or the rest of the game. */
  lemma PlayStep(answer: map<int, string>, n: int, t: nat, candidates: seq<seq<string>>, g: seq<string>, used: nat)
    requires Covers(answer, n) && t > 0
    requires ReadGuess(n, candidates) == Some((g, used))
    ensures used <= |candidates| && Covers(answer, |g|)
    ensures Wins(Score(g, answer)) ==> Play(answer, n, t, candidates) == Game([Turn(g, Score(g, answer))], Won, used)
    ensures !Wins(Score(g, answer)) ==>
      Play(answer, n, t, candidates) == Prepend([Turn(g, Score(g, answer))], used, Play(answer, n, t - 1, candidates[used..]))
  {
  }

  lemma PrependTwice(p: seq<Turn>, c: nat, q: seq<Turn>, d: nat, g: Game)
    ensures Prepend(p, c, Prepend(q, d, g)) == Prepend(p + q, c + d, g)
  {
    assert p + (q + g.turns) == (p + q) + g.turns;
  }

  /**
   * The turn loop's account of a game after the `played` turns, which read
   * `consumed` candidates.  While the game is on (`end == Lost`) the rest of it is
   * the game from `rest` with `left` turns to go; once it has ended the
   * played turns are all of it.  The guess queue and the result stack hold,
   * after what they held before the loop, the guesses and the scores of the
   * played turns, and the current guess is the one the game leaves behind.
   */
  predicate Accounts(game: Game, a: map<int, string>, n: int, played: seq<Turn>, consumed: nat, left: nat,
                     rest: seq<seq<string>>, end: GameEnd, guesses0: seq<seq<string>>, results0: seq<Feedback>,
                     guesses: seq<seq<string>>, results: seq<Feedback>, current: seq<string>)
  {
    && Covers(a, n)
    && (end == Lost ==> game == Prepend(played, consumed, Play(a, n, left, rest)))
    && (end != Lost ==> game.turns == played && game.end == end)
    && (end == Won ==> played != [])
    && guesses == guesses0 + GuessesOf(played)
    && results == results0 + FeedbackOf(played)
    && (played != [] || end == InputExhausted ==> current == LastGuess(played, end))
  }

  /** Before the first turn the whole game is still to come and nothing is recorded. */
  lemma AccountsInitially(a: map<int, string>, n: int, t: nat, candidates: seq<seq<string>>,
                          guesses0: seq<seq<string>>, results0: seq<Feedback>, current: seq<string>)
    requires Covers(a, n)
    ensures Accounts(Play(a, n, t, candidates), a, n, [], 0, t, candidates, Lost, guesses0, results0, guesses0, results0, current)
  {
    assert [] + Play(a, n, t, candidates).turns == Play(a, n, t, candidates).turns;
    assert guesses0 + [] == guesses0 && results0 + [] == results0;
  }

  /** When no candidate left forms a valid guess, the game ends with the turns played and an empty current guess. */
  lemma AccountsExhausted(game: Game, a: map<int, string>, n: int, played: seq<Turn>, consumed: nat, left: nat,
                          rest: seq<seq<string>>, guesses0: seq<seq<string>>, results0: seq<Feedback>,
                          guesses: seq<seq<string>>, results: seq<Feedback>, current: seq<string>,
                          nextCurrent: seq<string>)
    requires Accounts(game, a, n, played, consumed, left, rest, Lost, guesses0, results0, guesses, results, current)
    requires left > 0 && ReadGuess(n, rest) == None && nextCurrent == []
    ensures Accounts(game, a, n, played, consumed, left, rest, InputExhausted, guesses0, results0, guesses, results, nextCurrent)
  {
    assert played + [] == played;
  }

  /** The game side of one more turn: its guess joins the played turns and the game is won or goes on. */
  lemma GameAfterTurn(game: Game, a: map<int, string>, n: int, played: seq<Turn>, consumed: nat, left: nat,
                      rest: seq<seq<string>>, g: seq<string>, used: nat)
    requires Covers(a, n) && game == Prepend(played, consumed, Play(a, n, left, rest))
    requires left > 0 && ReadGuess(n, rest) == Some((g, used))
    ensures Covers(a, |g|)
    ensures Wins(Score(g, a)) ==> game.turns == played + [Turn(g, Score(g, a))] && game.end == Won
    ensures !Wins(Score(g, a)) ==>
      game == Prepend(played + [Turn(g, Score(g, a))], consumed + used, Play(a, n, left - 1, rest[used..]))
  {
    var turn := Turn(g, Score(g, a));
    var next := if Wins(turn.feedback) then Game([], Won, 0) else Play(a, n, left - 1, rest[used..]);
    PlayStep(a, n, left, rest, g, used);
    assert Play(a, n, left, rest) == Prepend([turn], used, next);
    PrependTwice(played, consumed, [turn], used, next);
    assert played + [turn] + [] == played + [turn];
  }

  /** The record side of one more turn: the queue and the stack grow by its guess and its score. */
  lemma HistoryAfterTurn(guesses0: seq<seq<string>>, results0: seq<Feedback>, played: seq<Turn>, turn: Turn)
    ensures guesses0 + GuessesOf(played) + [turn.guess] == guesses0 + GuessesOf(played + [turn])
    ensures results0 + FeedbackOf(played) + [turn.feedback] == results0 + FeedbackOf(played + [turn])
  {
    assert GuessesOf(played + [turn]) == GuessesOf(played) + [turn.guess];
    assert FeedbackOf(played + [turn]) == FeedbackOf(played) + [turn.feedback];
  }

  /** Pushing the guesses and scores of the same turns keeps the queue and the stack the same size. */
  lemma HistoryStaysAligned(guesses0: seq<seq<string>>, results0: seq<Feedback>, turns: seq<Turn>)
    ensures |guesses0 + GuessesOf(turns)| - |results0 + FeedbackOf(turns)| == |guesses0| - |results0|
  {
  }

  /**
   * One more turn: the guess `g` read from `rest` and its score join the
   * played turns, the queue and the stack, and either the game is won with it
   * or, with one turn fewer, it goes on from the candidates after the guess.
   */
  lemma AccountsTurn(game: Game, a: map<int, string>, n: int, played: seq<Turn>, consumed: nat, left: nat,
                     rest: seq<seq<string>>, guesses0: seq<seq<string>>, results0: seq<Feedback>,
                     guesses: seq<seq<string>>, results: seq<Feedback>, current: seq<string>,
                     g: seq<string>, used: nat,
                     nextPlayed: seq<Turn>, nextConsumed: nat, nextLeft: nat, nextRest: seq<seq<string>>, nextEnd: GameEnd,
                     nextGuesses: seq<seq<string>>, nextResults: seq<Feedback>)
    requires Accounts(game, a, n, played, consumed, left, rest, Lost, guesses0, results0, guesses, results, current)
    requires left > 0 && ReadGuess(n, rest) == Some((g, used))
    requires nextPlayed == played + [Turn(g, Score(g, a))] && nextConsumed == consumed + used
    requires nextGuesses == guesses + [g] && nextResults == results + [Score(g, a)]
    requires nextEnd == (if Wins(Score(g, a)) then Won else Lost)
    requires nextEnd == Lost ==> nextLeft == left - 1 && nextRest == rest[used..]
    ensures Accounts(game, a, n, nextPlayed, nextConsumed, nextLeft, nextRest, nextEnd, guesses0, results0,
                     nextGuesses, nextResults, g)
  {
    GameAfterTurn(game, a, n, played, consumed, left, rest, g, used);
    HistoryAfterTurn(guesses0, results0, played, Turn(g, Score(g, a)));
    assert nextPlayed[|nextPlayed| - 1].guess == g;
  }

  /** When the loop stops, its account is the whole game. */
  lemma AccountsFinally(game: Game, a: map<int, string>, n: int, played: seq<Turn>, consumed: nat, left: nat,
                        rest: seq<seq<string>>, end: GameEnd, guesses0: seq<seq<string>>, results0: seq<Feedback>,
                        guesses: seq<seq<string>>, results: seq<Feedback>, current: seq<string>)
    requires Accounts(game, a, n, played, consumed, left, rest, end, guesses0, results0, guesses, results, current)
    requires end == Lost ==> left == 0 && played != []
    ensures game.end == end
    ensures guesses == guesses0 + GuessesOf(game.turns) && results == results0 + FeedbackOf(game.turns)
    ensures current == LastGuess(game.turns, game.end)
  {
    if end == Lost {
      assert played + [] == played;
    }
    assert game.turns == played;
  }

  /** Each turn holds a guess that passed validation, scored against the answer. */
  predicate RecordsValid(a: map<int, string>, n: int, turns: seq<Turn>)
  {
    forall k :: 0 <= k < |turns| ==>
      IsValidGuess(turns[k].guess, n) && Covers(a, |turns[k].guess|) && turns[k].feedback == Score(turns[k].guess, a)
  }

  lemma RecordsValidPrepend(a: map<int, string>, n: int, turn: Turn, turns: seq<Turn>)
    requires RecordsValid(a, n, [turn]) && RecordsValid(a, n, turns)
    ensures RecordsValid(a, n, [turn] + turns)
  {
    assert forall k :: 1 <= k < |[turn] + turns| ==> ([turn] + turns)[k] == turns[k - 1];
  }

  /**
   * Every recorded turn holds a guess that passed validation and the score
   * of that guess; at most `t` turns are recorded and no more candidates are read
   * than there are.
   */
  lemma {:induction false} PlayRecordsValidTurns(a: map<int, string>, n: int, t: nat, candidates: seq<seq<string>>)
    requires Covers(a, n)
    ensures |Play(a, n, t, candidates).turns| <= t
    ensures Play(a, n, t, candidates).consumed <= |candidates|
    ensures RecordsValid(a, n, Play(a, n, t, candidates).turns)
    decreases t
  {
    if t > 0 && ReadGuess(n, candidates).Some? {
      var (g, used) := ReadGuess(n, candidates).value;
      PlayStep(a, n, t, candidates, g, used);
      var turn := Turn(g, Score(g, a));
      assert RecordsValid(a, n, [turn]);
      if !Wins(Score(g, a)) {
        var rest := Play(a, n, t - 1, candidates[used..]);
        PlayRecordsValidTurns(a, n, t - 1, candidates[used..]);
        RecordsValidPrepend(a, n, turn, rest.turns);
      }
    }
  }

  /** No turn but the last wins, and the game is won exactly when its last turn wins. */
  predicate StopsAtFirstWin(turns: seq<Turn>, end: GameEnd)
  {
    && (forall k :: 0 <= k < |turns| - 1 ==> !Wins(turns[k].feedback))
    && (end == Won <==> turns != [] && Wins(turns[|turns| - 1].feedback))
  }

  lemma StopsAfterMiss(turn: Turn, turns: seq<Turn>, end: GameEnd)
    requires !Wins(turn.feedback) && StopsAtFirstWin(turns, end)
    ensures StopsAtFirstWin([turn] + turns, end)
  {
    assert forall k :: 1 <= k < |[turn] + turns| ==> ([turn] + turns)[k] == turns[k - 1];
  }

  /** The loop stops right after the first win. */
  lemma {:induction false} PlayStopsAtFirstWin(a: map<int, string>, n: int, t: nat, candidates: seq<seq<string>>)
    requires Covers(a, n)
    ensures StopsAtFirstWin(Play(a, n, t, candidates).turns, Play(a, n, t, candidates).end)
    decreases t
  {
    if t > 0 && ReadGuess(n, candidates).Some? {
      var (g, used) := ReadGuess(n, candidates).value;
      PlayStep(a, n, t, candidates, g, used);
      if !Wins(Score(g, a)) {
        var rest := Play(a, n, t - 1, candidates[used..]);
        PlayStopsAtFirstWin(a, n, t - 1, candidates[used..]);
        StopsAfterMiss(Turn(g, Score(g, a)), rest.turns, rest.end);
      }
    }
  }

  /** A lost game used all `t` turns; a game that ran out of input read every candidate and had turns to spare. */
  lemma {:induction false} PlayEnds(a: map<int, string>, n: int, t: nat, candidates: seq<seq<string>>)
    requires Covers(a, n)
    ensures Play(a, n, t, candidates).end == Lost ==> |Play(a, n, t, candidates).turns| == t
    ensures Play(a, n, t, candidates).end == InputExhausted ==>
      Play(a, n, t, candidates).consumed == |candidates| && |Play(a, n, t, candidates).turns| < t
    decreases t
  {
    if t > 0 {
      match ReadGuess(n, candidates)
      case None =>
      case Some((g, used)) =>
        PlayStep(a, n, t, candidates, g, used);
        if !Wins(Score(g, a)) {
          PlayEnds(a, n, t - 1, candidates[used..]);
        }
    }
  }

  /** The tokens of the candidates that form a valid guess, in order: what the prompt accepts from them. */
  function ValidCandidates(n: int, candidates: seq<seq<string>>): seq<seq<string>>
    decreases |candidates|
  {
    if candidates == [] then []
    else
      var tokens := candidates[0];
      (if IsValidGuess(tokens, n) then [tokens] else []) + ValidCandidates(n, candidates[1..])
  }

  lemma {:induction false} ValidCandidatesConcat(n: int, xs: seq<seq<string>>, ys: seq<seq<string>>)
    ensures ValidCandidates(n, xs + ys) == ValidCandidates(n, xs) + ValidCandidates(n, ys)
    decreases |xs|
  {
    if xs != [] {
      assert (xs + ys)[0] == xs[0];
      assert (xs + ys)[1..] == xs[1..] + ys;
      ValidCandidatesConcat(n, xs[1..], ys);
    } else {
      assert xs + ys == ys;
    }
  }

  /** The prompt accepts the first valid candidate, and when it accepts none there is none. */
  lemma {:induction false} NextGuessTakesFirstCandidate(n: int, candidates: seq<seq<string>>)
    ensures NextGuess(n, candidates).Some? ==> ValidCandidates(n, candidates[..NextGuess(n, candidates).value.1]) == [NextGuess(n, candidates).value.0]
    ensures NextGuess(n, candidates).None? ==> ValidCandidates(n, candidates) == []
    decreases |candidates|
  {
    if candidates != [] {
      var tokens := candidates[0];
      if IsValidGuess(tokens, n) {
        assert candidates[..1] == [candidates[0]] && candidates[..1][1..] == [];
      } else {
        NextGuessTakesFirstCandidate(n, candidates[1..]);
        if NextGuess(n, candidates[1..]).Some? {
          var u := NextGuess(n, candidates[1..]).value.1;
          assert candidates[..u + 1][0] == candidates[0];
          assert candidates[..u + 1][1..] == candidates[1..][..u];
        }
      }
    }
  }

  /** What the game records from `candidates` is what the prompt accepts from them. */
  predicate KeepsCandidates(n: int, candidates: seq<seq<string>>, game: Game)
  {
    game.consumed <= |candidates| && GuessesOf(game.turns) == ValidCandidates(n, candidates[..game.consumed])
  }

  /** A game whose first turn takes the first valid candidate and whose rest keeps the later candidates. */
  lemma KeepsCandidatesAfterTurn(n: int, candidates: seq<seq<string>>, g: seq<string>, used: nat, head: Turn, rest: Game, whole: Game)
    requires NextGuess(n, candidates) == Some((g, used)) && head.guess == g
    requires KeepsCandidates(n, candidates[used..], rest)
    requires whole == Prepend([head], used, rest)
    ensures KeepsCandidates(n, candidates, whole)
  {
    NextGuessTakesFirstCandidate(n, candidates);
    var c := rest.consumed;
    assert candidates[..used + c] == candidates[..used] + candidates[used..][..c];
    ValidCandidatesConcat(n, candidates[..used], candidates[used..][..c]);
    assert GuessesOf([head] + rest.turns) == [g] + GuessesOf(rest.turns);
  }

  /** A game that ends on the turn taking the first valid candidate keeps the candidates. */
  lemma KeepsCandidatesAtWin(n: int, candidates: seq<seq<string>>, g: seq<string>, used: nat, head: Turn, whole: Game)
    requires NextGuess(n, candidates) == Some((g, used)) && head.guess == g
    requires whole == Game([head], Won, used)
    ensures KeepsCandidates(n, candidates, whole)
  {
    NextGuessTakesFirstCandidate(n, candidates);
    assert GuessesOf([head]) == [g];
  }

  /** With no valid candidate left, the game reads every candidate and records nothing more. */
  lemma KeepsCandidatesExhausted(a: map<int, string>, n: int, t: nat, candidates: seq<seq<string>>)
    requires Covers(a, n) && n != 0 && t > 0
    requires NextGuess(n, candidates) == None
    ensures KeepsCandidates(n, candidates, Play(a, n, t, candidates))
  {
    NextGuessTakesFirstCandidate(n, candidates);
    assert candidates[..|candidates|] == candidates;
  }

  /**
   * The first turn takes the first valid candidate; when the rest of the
   * game keeps the candidates after it, the whole game keeps them.
   */
  lemma KeepsCandidatesFromFirstTurn(a: map<int, string>, n: int, t: nat, candidates: seq<seq<string>>,
                                     g: seq<string>, used: nat)
    requires Covers(a, n) && n != 0 && t > 0
    requires NextGuess(n, candidates) == Some((g, used))
    requires KeepsCandidates(n, candidates[used..], Play(a, n, t - 1, candidates[used..]))
    ensures KeepsCandidates(n, candidates, Play(a, n, t, candidates))
  {
    assert !IsValidGuess([], n);
    PlayStep(a, n, t, candidates, g, used);
    var turn := Turn(g, Score(g, a));
    if Wins(Score(g, a)) {
      KeepsCandidatesAtWin(n, candidates, g, used, turn, Play(a, n, t, candidates));
    } else {
      KeepsCandidatesAfterTurn(n, candidates, g, used, turn, Play(a, n, t - 1, candidates[used..]), Play(a, n, t, candidates));
    }
  }

  /**
   * Invalid candidates are discarded: for a nonzero code length the recorded
   * guesses are exactly the valid candidates among those the game read.
   */
  lemma {:induction false} PlayKeepsValidCandidates(a: map<int, string>, n: int, t: nat, candidates: seq<seq<string>>)
    requires Covers(a, n) && n != 0
    ensures KeepsCandidates(n, candidates, Play(a, n, t, candidates))
    decreases t
  {
    if t > 0 {
      var next := NextGuess(n, candidates);
      if next.None? {
        KeepsCandidatesExhausted(a, n, t, candidates);
      } else {
        var used := next.value.1;
        PlayKeepsValidCandidates(a, n, t - 1, candidates[used..]);
        KeepsCandidatesFromFirstTurn(a, n, t, candidates, next.value.0, used);
      }
    }
  }
}

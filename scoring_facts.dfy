/**
 * What the scorer's counts mean: red is the number of positions that match,
 * white is zero exactly when every miss guesses a color absent from the
 * answer, and, because answer slots are never used up, white can exceed the
 * number of missed positions.
 */
module ScoringFacts {
  import opened Rules

  /** The positions where the guess holds the answer's color. */
  function Matches(guess: seq<string>, answer: map<int, string>): (ms: set<int>)
    requires Covers(answer, |guess|)
    ensures forall i :: i in ms <==> 0 <= i < |guess| && guess[i] == answer[i]
  {
    set i | 0 <= i < |guess| && guess[i] == answer[i]
  }

  /** Red is the number of matching positions. */
  lemma {:induction false} RedCountsMatches(guess: seq<string>, answer: map<int, string>)
    requires Covers(answer, |guess|)
    ensures Red(guess, answer) == |Matches(guess, answer)|
    decreases |guess|
  {
    if guess != [] {
      var i := |guess| - 1;
      var prefix := guess[..i];
      RedCountsMatches(prefix, answer);
      if guess[i] == answer[i] {
        assert Matches(guess, answer) == Matches(prefix, answer) + {i};
        assert i !in Matches(prefix, answer);
      } else {
        assert Matches(guess, answer) == Matches(prefix, answer);
      }
    } else {
      assert Matches(guess, answer) == {};
    }
  }

  /** Red equals the guess length exactly when every position matches. */
  lemma {:induction false} RedFullIffAllMatch(guess: seq<string>, answer: map<int, string>)
    requires Covers(answer, |guess|)
    ensures Red(guess, answer) == |guess| <==> forall i :: 0 <= i < |guess| ==> guess[i] == answer[i]
    decreases |guess|
  {
    if guess != [] {
      var i := |guess| - 1;
      var prefix := guess[..i];
      RedFullIffAllMatch(prefix, answer);
      assert forall j :: 0 <= j < i ==> prefix[j] == guess[j];
    }
  }

  /** With every position matching, no white is scored. */
  lemma {:induction false} WhiteOfPerfectGuess(guess: seq<string>, answer: map<int, string>)
    requires Covers(answer, |guess|)
    requires forall i :: 0 <= i < |guess| ==> guess[i] == answer[i]
    ensures White(guess, answer) == 0
    decreases |guess|
  {
    if guess != [] {
      var i := |guess| - 1;
      var prefix := guess[..i];
      assert forall j :: 0 <= j < i ==> prefix[j] == guess[j];
      WhiteOfPerfectGuess(prefix, answer);
    }
  }

  /** Scoring the answer itself gives all red and no white. */
  lemma SelfScore(guess: seq<string>, answer: map<int, string>)
    requires Covers(answer, |guess|)
    requires forall i :: 0 <= i < |guess| ==> guess[i] == answer[i]
    ensures Score(guess, answer) == Feedback(|guess|, 0)
  {
    RedFullIffAllMatch(guess, answer);
    WhiteOfPerfectGuess(guess, answer);
  }

  /** The win test ignores the code length: the answer itself wins only when it has four slots. */
  lemma PerfectGuessWinsOnlyAtFour(guess: seq<string>, answer: map<int, string>)
    requires Covers(answer, |guess|)
    requires forall i :: 0 <= i < |guess| ==> guess[i] == answer[i]
    ensures Wins(Score(guess, answer)) <==> |guess| == 4
  {
    SelfScore(guess, answer);
  }

  /** Four matching positions win, whatever the code length and whatever the other positions hold. */
  lemma FourMatchesWin(guess: seq<string>, answer: map<int, string>)
    requires Covers(answer, |guess|)
    requires |Matches(guess, answer)| == 4
    ensures Wins(Score(guess, answer))
  {
    RedCountsMatches(guess, answer);
  }

  /**
   * The other side of the same test: with six slots, a valid guess that
   * misses two of them still wins, because four positions match.
   */
  lemma FourOfSixWins()
    ensures var answer := map[0 := "red", 1 := "green", 2 := "blue", 3 := "yellow", 4 := "black", 5 := "white"];
      var guess := ["red", "green", "blue", "yellow", "white", "black"];
      IsValidGuess(guess, 6) && guess[4] != answer[4] && Wins(Score(guess, answer))
  {
    var answer := map[0 := "red", 1 := "green", 2 := "blue", 3 := "yellow", 4 := "black", 5 := "white"];
    var guess := ["red", "green", "blue", "yellow", "white", "black"];
    assert Matches(guess, answer) == {0, 1, 2, 3} by {
      forall i | 0 <= i < 6
        ensures i in Matches(guess, answer) <==> i < 4
      {
        assert guess[i] == answer[i] <==> i < 4;
      }
    }
    FourMatchesWin(guess, answer);
    AllColorsIff(guess);
  }

  /** A color occurs in some answer slot exactly when it is one of the answer's values. */
  lemma OccursIffValue(answer: map<int, string>, c: string)
    ensures Occurrences(answer, c) > 0 <==> c in answer.Values
  {
    if Occurrences(answer, c) > 0 {
      var p :| p in SlotsOf(answer, c);
      assert p.0 in answer && answer[p.0] == c;
    } else {
      forall k | k in answer
        ensures answer[k] != c
      {
        assert (k, answer[k]) in answer.Items;
        assert (k, answer[k]) !in SlotsOf(answer, c);
      }
    }
  }

  /** White is zero exactly when every missed position guesses a color the answer does not hold. */
  lemma {:induction false} WhiteZeroIff(guess: seq<string>, answer: map<int, string>)
    requires Covers(answer, |guess|)
    ensures White(guess, answer) == 0 <==>
      forall i :: 0 <= i < |guess| ==> guess[i] == answer[i] || guess[i] !in answer.Values
    decreases |guess|
  {
    if guess != [] {
      var i := |guess| - 1;
      var prefix := guess[..i];
      WhiteZeroIff(prefix, answer);
      OccursIffValue(answer, guess[i]);
      assert forall j :: 0 <= j < i ==> prefix[j] == guess[j];
    }
  }

  /** A color that some slot does not hold stands in at most all the other slots. */
  lemma OccurrencesBesideMiss(answer: map<int, string>, k: int, c: string)
    requires k in answer && answer[k] != c
    ensures Occurrences(answer, c) <= |answer| - 1
  {
    assert (k, answer[k]) in answer.Items;
    SubsetCardinality(SlotsOf(answer, c), answer.Items - {(k, answer[k])});
  }

  /**
   * Each missed position adds at most one white per answer slot other than
   * its own, which holds a different color.
   */
  lemma {:induction false} WhiteBound(guess: seq<string>, answer: map<int, string>)
    requires Covers(answer, |guess|)
    ensures White(guess, answer) <= (|guess| - Red(guess, answer)) * (|answer| - 1)
    decreases |guess|
  {
    if guess != [] {
      var i := |guess| - 1;
      var prefix := guess[..i];
      WhiteBound(prefix, answer);
      var misses := |prefix| - Red(prefix, answer);
      if guess[i] != answer[i] {
        OccurrencesBesideMiss(answer, i, guess[i]);
        assert (misses + 1) * (|answer| - 1) == misses * (|answer| - 1) + (|answer| - 1);
      }
    }
  }

  /** The four-slot answer red, green, blue, yellow. */
  function Rgby(): (a: map<int, string>)
    ensures Covers(a, 4)
  {
    map[0 := "red", 1 := "green", 2 := "blue", 3 := "yellow"]
  }

  /** In an answer with one slot per color, a color it holds occurs once. */
  lemma SingleSlot(answer: map<int, string>, k: int, c: string)
    requires k in answer && answer[k] == c
    requires forall j :: j in answer && j != k ==> answer[j] != c
    ensures Occurrences(answer, c) == 1
  {
    forall p | p in SlotsOf(answer, c)
      ensures p == (k, c)
    {
      assert p.0 in answer && answer[p.0] == p.1 && p.1 == c;
      assert p.0 == k;
      assert p == (p.0, p.1);
    }
    assert (k, c) in answer.Items;
    assert SlotsOf(answer, c) == {(k, c)};
  }

  /** A color the answer does not hold occurs nowhere. */
  lemma NoSlot(answer: map<int, string>, c: string)
    requires c !in answer.Values
    ensures Occurrences(answer, c) == 0
  {
    OccursIffValue(answer, c);
  }

  /** Scoring one more position adds its red or its whites to the score of the positions before it. */
  lemma ScoreStep(guess: seq<string>, token: string, answer: map<int, string>)
    requires Covers(answer, |guess| + 1)
    ensures Red(guess + [token], answer) == Red(guess, answer) + (if token == answer[|guess|] then 1 else 0)
    ensures White(guess + [token], answer) ==
      White(guess, answer) + (if token == answer[|guess|] then 0 else Occurrences(answer, token))
  {
    assert (guess + [token])[..|guess|] == guess;
  }

  /** A four-token guess scored position by position. */
  lemma ScoreOfFour(t0: string, t1: string, t2: string, t3: string, answer: map<int, string>)
    requires Covers(answer, 4)
    ensures Score([t0, t1, t2, t3], answer) ==
      Feedback(PositionRed(answer, 0, t0) + PositionRed(answer, 1, t1) + PositionRed(answer, 2, t2) + PositionRed(answer, 3, t3),
               PositionWhite(answer, 0, t0) + PositionWhite(answer, 1, t1) + PositionWhite(answer, 2, t2) + PositionWhite(answer, 3, t3))
  {
    var g0: seq<string> := [];
    var g1 := g0 + [t0];
    var g2 := g1 + [t1];
    var g3 := g2 + [t2];
    var g4 := g3 + [t3];
    ScoreStep(g0, t0, answer);
    assert Score(g1, answer) == Feedback(PositionRed(answer, 0, t0), PositionWhite(answer, 0, t0));
    ScoreStep(g1, t1, answer);
    assert Score(g2, answer) == Feedback(PositionRed(answer, 0, t0) + PositionRed(answer, 1, t1),
                                         PositionWhite(answer, 0, t0) + PositionWhite(answer, 1, t1));
    ScoreStep(g2, t2, answer);
    assert Score(g3, answer) ==
      Feedback(PositionRed(answer, 0, t0) + PositionRed(answer, 1, t1) + PositionRed(answer, 2, t2),
               PositionWhite(answer, 0, t0) + PositionWhite(answer, 1, t1) + PositionWhite(answer, 2, t2));
    ScoreStep(g3, t3, answer);
    assert g4 == [t0, t1, t2, t3];
  }

  function PositionRed(answer: map<int, string>, k: int, token: string): nat
    requires k in answer
  {
    if token == answer[k] then 1 else 0
  }

  function PositionWhite(answer: map<int, string>, k: int, token: string): nat
    requires k in answer
  {
    if token == answer[k] then 0 else Occurrences(answer, token)
  }

  /** Guessing red four times against red, green, blue, yellow: one red, and three whites for the three misses. */
  lemma AllRedAgainstRgby()
    ensures Score(["red", "red", "red", "red"], Rgby()) == Feedback(1, 3)
  {
    SingleSlot(Rgby(), 0, "red");
    ScoreOfFour("red", "red", "red", "red", Rgby());
  }

  /** Swapping the first two colors: two reds and two whites. */
  lemma SwappedPairAgainstRgby()
    ensures Score(["green", "red", "blue", "yellow"], Rgby()) == Feedback(2, 2)
  {
    SingleSlot(Rgby(), 0, "red");
    SingleSlot(Rgby(), 1, "green");
    ScoreOfFour("green", "red", "blue", "yellow", Rgby());
  }

  /** A color the answer lacks scores nothing. */
  lemma AllWhiteAgainstRgby()
    ensures Score(["white", "white", "white", "white"], Rgby()) == Feedback(0, 0)
  {
    assert "white" !in Rgby().Values;
    NoSlot(Rgby(), "white");
    ScoreOfFour("white", "white", "white", "white", Rgby());
  }

  /** The four-slot answer red, green, green, yellow. */
  function Rggy(): (a: map<int, string>)
    ensures Covers(a, 4)
  {
    map[0 := "red", 1 := "green", 2 := "green", 3 := "yellow"]
  }

  /** Green stands in two slots of red, green, green, yellow. */
  lemma GreenTwiceInRggy()
    ensures Occurrences(Rggy(), "green") == 2
  {
    var a := Rggy();
    forall p | p in SlotsOf(a, "green")
      ensures p == (1, "green") || p == (2, "green")
    {
      assert p.0 in a && a[p.0] == p.1;
      assert p == (p.0, p.1);
    }
    assert (1, "green") in a.Items && (2, "green") in a.Items;
    assert SlotsOf(a, "green") == {(1, "green"), (2, "green")};
  }

  /**
   * Slots are never used up: green four times against red, green, green,
   * yellow scores two reds and four whites, more whites than the two missed
   * positions.
   */
  lemma UnpeggedWhiteExceedsMisses()
    ensures var f := Score(["green", "green", "green", "green"], Rggy());
      f == Feedback(2, 4) && f.white > 4 - f.red
  {
    GreenTwiceInRggy();
    ScoreOfFour("green", "green", "green", "green", Rggy());
  }
}

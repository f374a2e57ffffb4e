/**
 * Tokenising of one line typed at the guess prompt: the line is cut at every
 * single space, and each piece is lower-cased with the C library's `tolower`,
 * which in the "C" locale changes only the letters 'A' to 'Z'.
 */
module Tokenizer {

  predicate IsUpper(c: char) { 'A' <= c <= 'Z' }

  /** `tolower` in the "C" locale. */
  function LowerChar(c: char): (d: char)
    ensures !IsUpper(d)
    ensures !IsUpper(c) ==> d == c
    ensures d == ' ' <==> c == ' '
    ensures IsUpper(c) ==> 'a' <= d <= 'z' && d as int - 'a' as int == c as int - 'A' as int
  {
    if IsUpper(c) then (c as int + 32) as char else c
  }

  /** `std::transform(s.begin(), s.end(), s.begin(), ::tolower)`. */
  function Lower(s: string): (r: string)
    ensures |r| == |s|
    ensures forall i :: 0 <= i < |s| ==> r[i] == LowerChar(s[i])
    decreases |s|
  {
    if s == [] then [] else [LowerChar(s[0])] + Lower(s[1..])
  }

  /** `s.find(c)`: the first index holding `c`, or `|s|` (standing for npos) when none does. */
  function Find(s: string, c: char): (p: nat)
    ensures p <= |s|
    ensures p < |s| ==> s[p] == c
    ensures forall i :: 0 <= i < p ==> s[i] != c
    decreases |s|
  {
    if s == [] then 0 else if s[0] == c then 0 else 1 + Find(s[1..], c)
  }

  /** Number of occurrences of `c` in `s`. */
  function CountChar(s: string, c: char): nat
    decreases |s|
  {
    if s == [] then 0 else (if s[0] == c then 1 else 0) + CountChar(s[1..], c)
  }

  /** The pieces of `s` between single spaces; two adjacent spaces give an empty piece. */
  function Split(s: string): (pieces: seq<string>)
    ensures |pieces| > 0
    decreases |s|
  {
    var p := Find(s, ' ');
    if p == |s| then [s] else [s[..p]] + Split(s[p + 1..])
  }

  /** The pieces put back together with one space between neighbours. */
  function Join(pieces: seq<string>): string
    decreases |pieces|
  {
    if |pieces| == 0 then ""
    else if |pieces| == 1 then pieces[0]
    else pieces[0] + " " + Join(pieces[1..])
  }

  function LowerAll(pieces: seq<string>): (r: seq<string>)
    ensures |r| == |pieces|
    ensures forall i :: 0 <= i < |pieces| ==> r[i] == Lower(pieces[i])
    decreases |pieces|
  {
    if pieces == [] then [] else [Lower(pieces[0])] + LowerAll(pieces[1..])
  }

  /** The tokens the guess prompt pushes onto the current guess for one line. */
  function Tokens(line: string): (tokens: seq<string>)
    ensures |tokens| == CountChar(line, ' ') + 1
  {
    SplitCount(line);
    LowerAll(Split(line))
  }

  /**
   * The find/substr/erase loop of the guess prompt: while a space remains,
   * the piece before it is lower-cased and pushed and the piece and the space
   * are erased; what is left at the end is lower-cased and pushed too.
   */
  method Tokenize(line: string) returns (tokens: seq<string>)
    ensures tokens == Tokens(line)
  {
    var color := line;
    tokens := [];
    var pos := Find(color, ' ');
    while pos < |color|
      invariant pos == Find(color, ' ')
      invariant Tokens(line) == tokens + Tokens(color)
      decreases |color|
    {
      var token := color[..pos];
      token := Lower(token);
      tokens := tokens + [token];
      color := color[pos + 1..];
      pos := Find(color, ' ');
    }
    tokens := tokens + [Lower(color)];
  }

  lemma {:induction false} CountCharConcat(a: string, b: string, c: char)
    ensures CountChar(a + b, c) == CountChar(a, c) + CountChar(b, c)
    decreases |a|
  {
    if a != [] {
      assert (a + b)[1..] == a[1..] + b;
      CountCharConcat(a[1..], b, c);
    } else {
      assert a + b == b;
    }
  }

  lemma {:induction false} CountCharAbsent(s: string, c: char)
    requires forall i :: 0 <= i < |s| ==> s[i] != c
    ensures CountChar(s, c) == 0
    decreases |s|
  {
    if s != [] {
      CountCharAbsent(s[1..], c);
    }
  }

  /** Cutting at a space: the line is the piece before it, the space, and the rest. */
  lemma CutAtSpace(s: string, p: nat)
    requires p < |s| && s[p] == ' '
    ensures s == s[..p] + " " + s[p + 1..]
  {
    assert s[..p] + " " == s[..p + 1];
    assert s[..p + 1] + s[p + 1..] == s;
  }

  /** A line with k spaces gives k + 1 pieces. */
  lemma {:induction false} SplitCount(s: string)
    ensures |Split(s)| == CountChar(s, ' ') + 1
    decreases |s|
  {
    var p := Find(s, ' ');
    if p == |s| {
      CountCharAbsent(s, ' ');
    } else {
      CutAtSpace(s, p);
      CountCharAbsent(s[..p], ' ');
      CountCharConcat(s[..p], " ", ' ');
      CountCharConcat(s[..p] + " ", s[p + 1..], ' ');
      SplitCount(s[p + 1..]);
    }
  }

  /** No piece contains a space. */
  lemma {:induction false} SplitHasNoSpaces(s: string)
    ensures forall k :: 0 <= k < |Split(s)| ==> ' ' !in Split(s)[k]
    decreases |s|
  {
    var p := Find(s, ' ');
    if p < |s| {
      SplitHasNoSpaces(s[p + 1..]);
      assert forall k :: 1 <= k < |Split(s)| ==> Split(s)[k] == Split(s[p + 1..])[k - 1];
    }
  }

  /** Joining the pieces with single spaces gives the line back. */
  lemma {:induction false} JoinSplit(s: string)
    ensures Join(Split(s)) == s
    decreases |s|
  {
    var p := Find(s, ' ');
    if p < |s| {
      JoinSplit(s[p + 1..]);
      var rest := Split(s[p + 1..]);
      assert Split(s) == [s[..p]] + rest;
      assert (Split(s))[1..] == rest;
      CutAtSpace(s, p);
    }
  }

  lemma {:induction false} LowerConcat(a: string, b: string)
    ensures Lower(a + b) == Lower(a) + Lower(b)
    decreases |a|
  {
    if a == [] {
      assert a + b == b;
    } else {
      assert (a + b)[0] == a[0] && (a + b)[1..] == a[1..] + b;
      LowerConcat(a[1..], b);
    }
  }

  /** Lower-casing each piece and joining is lower-casing the joined pieces. */
  lemma {:induction false} JoinLowerAll(pieces: seq<string>)
    ensures Join(LowerAll(pieces)) == Lower(Join(pieces))
    decreases |pieces|
  {
    if |pieces| > 1 {
      JoinLowerAll(pieces[1..]);
      assert LowerAll(pieces)[1..] == LowerAll(pieces[1..]);
      LowerConcat(pieces[0] + " ", Join(pieces[1..]));
      LowerConcat(pieces[0], " ");
    }
  }

  /**
   * What the guess prompt makes of a line: one token per space plus one, none
   * holding a space or an upper-case letter, and joined with single spaces
   * they are the line itself up to case.
   */
  lemma TokensShape(line: string)
    ensures |Tokens(line)| == CountChar(line, ' ') + 1
    ensures forall k :: 0 <= k < |Tokens(line)| ==> ' ' !in Tokens(line)[k]
    ensures forall k, i :: 0 <= k < |Tokens(line)| && 0 <= i < |Tokens(line)[k]| ==> !IsUpper(Tokens(line)[k][i])
    ensures Join(Tokens(line)) == Lower(line)
  {
    SplitCount(line);
    SplitHasNoSpaces(line);
    JoinSplit(line);
    JoinLowerAll(Split(line));
    var pieces := Split(line);
    forall k | 0 <= k < |Tokens(line)|
      ensures ' ' !in Tokens(line)[k]
    {
      assert ' ' !in pieces[k];
    }
  }
}

// The result compare (tools.cpp) computes, as a definition by position,
// and the properties the duplicate-letter rule promises.
//
// Positions are processed left to right. An exact match is green. Any
// other position is yellow while the answer still has a copy of its letter
// that neither a green nor an earlier yellow has consumed, and black
// otherwise.
module Feedback {
  import opened Parameters

  function Min(x: int, y: int): int {
    if x <= y then x else y
  }

  /** Guess letters at positions before `i` that match the answer exactly. */
  function GreensBefore(answer: string, guess: string, i: nat): multiset<char>
    requires |answer| == |guess| && i <= |guess|
  {
    if i == 0 then multiset{}
    else GreensBefore(answer, guess, i - 1)
         + (if guess[i - 1] == answer[i - 1] then multiset{guess[i - 1]} else multiset{})
  }

  /** All exactly matched letters: what the green pass consumes. */
  function Greens(answer: string, guess: string): multiset<char>
    requires |answer| == |guess|
  {
    GreensBefore(answer, guess, |guess|)
  }

  /** Guess letters at positions before `i` that are not exact matches. */
  function GuessMissesBefore(answer: string, guess: string, i: nat): multiset<char>
    requires |answer| == |guess| && i <= |guess|
  {
    if i == 0 then multiset{}
    else GuessMissesBefore(answer, guess, i - 1)
         + (if guess[i - 1] != answer[i - 1] then multiset{guess[i - 1]} else multiset{})
  }

  /** Answer letters at positions before `i` that the guess does not match exactly. */
  function AnswerMissesBefore(answer: string, guess: string, i: nat): multiset<char>
    requires |answer| == |guess| && i <= |guess|
  {
    if i == 0 then multiset{}
    else AnswerMissesBefore(answer, guess, i - 1)
         + (if guess[i - 1] != answer[i - 1] then multiset{answer[i - 1]} else multiset{})
  }

  /**
   * Guess letters marked yellow at positions before `i`, when the green
   * pass has consumed `greens`.
   */
  function YellowsFrom(answer: string, guess: string, greens: multiset<char>, i: nat): multiset<char>
    requires |answer| == |guess| && i <= |guess|
  {
    if i == 0 then multiset{}
    else
      var before := YellowsFrom(answer, guess, greens, i - 1);
      before + (if MarkGiven(answer, guess, greens, before, i - 1) == 'y' then multiset{guess[i - 1]} else multiset{})
  }

  /**
   * The symbol at position `i` once `greens` and the yellows to its left
   * have been handed out.
   */
  function MarkGiven(answer: string, guess: string, greens: multiset<char>, yellows: multiset<char>, i: nat): char
    requires |answer| == |guess| && i < |guess|
  {
    var c := guess[i];
    if c == answer[i] then 'g'
    else if (greens + yellows)[c] < multiset(answer)[c] then 'y'
    else 'b'
  }

  function YellowsBefore(answer: string, guess: string, i: nat): multiset<char>
    requires |answer| == |guess| && i <= |guess|
  {
    YellowsFrom(answer, guess, Greens(answer, guess), i)
  }

  /** The symbol at position `i`. */
  function Mark(answer: string, guess: string, i: nat): char
    requires |answer| == |guess| && i < |guess|
  {
    MarkGiven(answer, guess, Greens(answer, guess), YellowsBefore(answer, guess, i), i)
  }

  /** The result of comparing `guess` against `answer`. */
  function Score(answer: string, guess: string): (r: string)
    requires |answer| == |guess|
    ensures |r| == |guess|
    ensures forall i :: 0 <= i < |r| ==> IsMark(r[i])
    ensures forall i :: 0 <= i < |r| ==> (r[i] == 'g' <==> guess[i] == answer[i])
    ensures forall i :: 0 <= i < |r| && guess[i] !in answer ==> r[i] == 'b'
    ensures forall i :: 0 <= i < |r| && r[i] == 'y' ==> guess[i] != answer[i] && guess[i] in answer
  {
    seq(|guess|, i requires 0 <= i < |guess| => Mark(answer, guess, i))
  }

  /** A string holding the symbol of every position is the result. */
  lemma ScoreFromMarks(answer: string, guess: string, r: string)
    requires |answer| == |guess| == |r|
    requires forall k :: 0 <= k < |r| ==> r[k] == Mark(answer, guess, k)
    ensures r == Score(answer, guess)
  {
  }

  /** The multiset of guess letters whose result is green or yellow. */
  function MarkedLetters(guess: string, result: string): multiset<char>
    requires |guess| == |result|
  {
    MarkedBefore(guess, result, |guess|)
  }

  function MarkedBefore(guess: string, result: string, i: nat): multiset<char>
    requires |guess| == |result| && i <= |guess|
  {
    if i == 0 then multiset{}
    else MarkedBefore(guess, result, i - 1)
         + (if result[i - 1] == 'g' || result[i - 1] == 'y' then multiset{guess[i - 1]} else multiset{})
  }

  // ---------------------------------------------------------------------
  // Counting lemmas

  lemma PrefixLetters(s: string, i: nat)
    requires 0 < i <= |s|
    ensures multiset(s[..i]) == multiset(s[..i - 1]) + multiset{s[i - 1]}
  {
    assert s[..i] == s[..i - 1] + [s[i - 1]];
  }

  lemma {:induction false} AnswerSplits(answer: string, guess: string, i: nat)
    requires |answer| == |guess| && i <= |guess|
    ensures GreensBefore(answer, guess, i) + AnswerMissesBefore(answer, guess, i) == multiset(answer[..i])
  {
    if i > 0 {
      AnswerSplits(answer, guess, i - 1);
      PrefixLetters(answer, i);
    }
  }

  lemma {:induction false} GuessSplits(answer: string, guess: string, i: nat)
    requires |answer| == |guess| && i <= |guess|
    ensures GreensBefore(answer, guess, i) + GuessMissesBefore(answer, guess, i) == multiset(guess[..i])
  {
    if i > 0 {
      GuessSplits(answer, guess, i - 1);
      PrefixLetters(guess, i);
    }
  }

  /** Every green letter is a letter of the answer, with multiplicity. */
  lemma GreensWithinAnswer(answer: string, guess: string)
    requires |answer| == |guess|
    ensures Greens(answer, guess) <= multiset(answer)
  {
    AnswerSplits(answer, guess, |guess|);
    assert answer[..|guess|] == answer;
  }

  /**
   * One more copy offered (`miss`) is taken while copies remain: the count
   * taken keeps equal to the smaller of offered and available.
   */
  lemma MinStep(g: int, a: int, y: int, m: int, y': int, m': int, miss: bool)
    requires g + y == Min(g + m, a)
    requires m' == m + (if miss then 1 else 0)
    requires y' == y + (if miss && g + y < a then 1 else 0)
    ensures g + y' == Min(g + m', a)
  {
  }

  /** Copies of `c` marked yellow before position `i`. */
  function YellowCount(answer: string, guess: string, greens: multiset<char>, i: nat, c: char): nat
    requires |answer| == |guess| && i <= |guess|
  {
    YellowsFrom(answer, guess, greens, i)[c]
  }

  /** Copies of `c` at non-green positions before `i`. */
  function MissCount(answer: string, guess: string, i: nat, c: char): nat
    requires |answer| == |guess| && i <= |guess|
  {
    GuessMissesBefore(answer, guess, i)[c]
  }

  /** How the yellow and miss counts of letter `c` grow at position `i - 1`. */
  lemma CountsStep(answer: string, guess: string, greens: multiset<char>, i: nat, c: char)
    requires |answer| == |guess| && 0 < i <= |guess|
    requires greens[c] + YellowCount(answer, guess, greens, i - 1, c)
             == Min(greens[c] + MissCount(answer, guess, i - 1, c), multiset(answer)[c])
    ensures greens[c] + YellowCount(answer, guess, greens, i, c)
            == Min(greens[c] + MissCount(answer, guess, i, c), multiset(answer)[c])
  {
    var miss := guess[i - 1] == c && guess[i - 1] != answer[i - 1];
    var y := YellowsFrom(answer, guess, greens, i - 1)[c];
    assert GuessMissesBefore(answer, guess, i)[c]
           == GuessMissesBefore(answer, guess, i - 1)[c] + (if miss then 1 else 0);
    assert YellowsFrom(answer, guess, greens, i)[c]
           == y + (if miss && greens[c] + y < multiset(answer)[c] then 1 else 0);
    MinStep(greens[c], multiset(answer)[c],
            y, GuessMissesBefore(answer, guess, i - 1)[c],
            YellowsFrom(answer, guess, greens, i)[c], GuessMissesBefore(answer, guess, i)[c], miss);
  }

  /**
   * The number of greens plus yellows of a letter seen so far is the
   * smaller of the copies the guess has offered so far (greens counted
   * first) and the copies in the answer.
   */
  lemma {:induction false} YellowsTrackMin(answer: string, guess: string, greens: multiset<char>, i: nat, c: char)
    requires |answer| == |guess| && i <= |guess| && greens[c] <= multiset(answer)[c]
    ensures greens[c] + YellowCount(answer, guess, greens, i, c)
            == Min(greens[c] + MissCount(answer, guess, i, c), multiset(answer)[c])
  {
    if i > 0 {
      YellowsTrackMin(answer, guess, greens, i - 1, c);
      CountsStep(answer, guess, greens, i, c);
    }
  }

  lemma {:induction false} MarkedAreGreensAndYellows(answer: string, guess: string, r: string, i: nat)
    requires |answer| == |guess| == |r| && i <= |guess|
    requires forall k :: 0 <= k < |r| ==> r[k] == Mark(answer, guess, k)
    ensures MarkedBefore(guess, r, i) == GreensBefore(answer, guess, i) + YellowsBefore(answer, guess, i)
  {
    if i > 0 {
      MarkedAreGreensAndYellows(answer, guess, r, i - 1);
    }
  }

  /**
   * For every letter, the greens and yellows it receives number
   * min(copies in the guess, copies in the answer).
   */
  lemma MarkedIsMin(answer: string, guess: string)
    requires |answer| == |guess|
    ensures MarkedLetters(guess, Score(answer, guess)) == multiset(guess) * multiset(answer)
  {
    var n, r := |guess|, Score(answer, guess);
    MarkedAreGreensAndYellows(answer, guess, r, n);
    GuessSplits(answer, guess, n);
    assert guess[..n] == guess;
    GreensWithinAnswer(answer, guess);
    forall c
      ensures MarkedLetters(guess, r)[c] == (multiset(guess) * multiset(answer))[c]
    {
      YellowsTrackMin(answer, guess, Greens(answer, guess), n, c);
    }
  }

  lemma {:induction false} YellowsGrow(answer: string, guess: string, i: nat, j: nat)
    requires |answer| == |guess| && i <= j <= |guess|
    ensures YellowsBefore(answer, guess, i) <= YellowsBefore(answer, guess, j)
  {
    if i < j {
      YellowsGrow(answer, guess, i, j - 1);
    }
  }

  /**
   * Among non-green positions holding the same letter, yellow goes to the
   * leftmost ones first: a yellow to the right implies a yellow here.
   */
  lemma LeftmostYellowFirst(answer: string, guess: string, i: nat, j: nat)
    requires |answer| == |guess| && i < j < |guess|
    requires guess[i] == guess[j] && guess[i] != answer[i]
    requires Score(answer, guess)[j] == 'y'
    ensures Score(answer, guess)[i] == 'y'
  {
    YellowsGrow(answer, guess, i, j);
  }

  lemma {:induction false} NoYellowsNoCount(answer: string, guess: string, i: nat, c: char)
    requires |answer| == |guess| && i <= |guess|
    requires forall k :: 0 <= k < i && guess[k] == c ==> Mark(answer, guess, k) != 'y'
    ensures YellowsBefore(answer, guess, i)[c] == 0
  {
    if i > 0 {
      NoYellowsNoCount(answer, guess, i - 1, c);
    }
  }

  lemma {:induction false} AnswerMissCounted(answer: string, guess: string, i: nat, n: nat)
    requires |answer| == |guess| && i < n <= |guess| && guess[i] != answer[i]
    ensures AnswerMissesBefore(answer, guess, n)[answer[i]] >= 1
  {
    if n > i + 1 {
      AnswerMissCounted(answer, guess, i, n - 1);
    }
  }

  /**
   * A black letter with no yellow copy in the same result has all of its
   * copies in the answer matched by greens.
   */
  lemma BlackLetterAllGreen(answer: string, guess: string, j: nat, i: nat)
    requires |answer| == |guess| && j < |guess| && i < |guess|
    requires Score(answer, guess)[j] == 'b' && answer[i] == guess[j]
    requires forall k :: 0 <= k < |guess| && guess[k] == guess[j] ==> Score(answer, guess)[k] != 'y'
    ensures guess[i] == answer[i]
  {
    NoYellowsNoCount(answer, guess, j, guess[j]);
    AnswerSplits(answer, guess, |guess|);
    assert answer[..|guess|] == answer;
    if guess[i] != answer[i] {
      AnswerMissCounted(answer, guess, i, |guess|);
      assert false;
    }
  }

  /** No copy of letter `c` in the guess is marked yellow. */
  predicate NoYellowCopy(guess: string, r: string, c: char)
    requires |guess| == |r|
  {
    forall k :: 0 <= k < |r| && guess[k] == c ==> r[k] != 'y'
  }

  /**
   * The duplicate-letter rule as a property of a result `r`: a black
   * letter none of whose copies is yellow matches the answer wherever the
   * answer holds it.
   */
  predicate BlackMeansAllGreen(answer: string, guess: string, r: string)
    requires |answer| == |guess| == |r|
  {
    forall j, i :: 0 <= j < |r| && 0 <= i < |r| && r[j] == 'b' && answer[i] == guess[j] && NoYellowCopy(guess, r, guess[j])
      ==> guess[i] == answer[i]
  }

  lemma ScoreBlackMeansAllGreen(answer: string, guess: string)
    requires |answer| == |guess|
    ensures BlackMeansAllGreen(answer, guess, Score(answer, guess))
  {
    var r := Score(answer, guess);
    forall j, i | 0 <= j < |r| && 0 <= i < |r| && r[j] == 'b' && answer[i] == guess[j] && NoYellowCopy(guess, r, guess[j])
      ensures guess[i] == answer[i]
    {
      BlackLetterAllGreen(answer, guess, j, i);
    }
  }

  // ---------------------------------------------------------------------
  // Worked cases

  /** A result whose greens are exactly the matching positions is all green just when the words agree. */
  lemma AllGreenWhenAllMatch(answer: string, guess: string, r: string)
    requires |answer| == |guess| == |r| == WORD_LENGTH
    requires forall i :: 0 <= i < |r| ==> (r[i] == 'g' <==> guess[i] == answer[i])
    ensures r == ALL_GREEN <==> guess == answer
  {
    if guess == answer {
      assert forall i :: 0 <= i < |r| ==> r[i] == ALL_GREEN[i];
    }
    if r == ALL_GREEN {
      assert forall i :: 0 <= i < |r| ==> guess[i] == answer[i];
    }
  }

  /** A word compared with itself is all green; and only the word itself is. */
  lemma AllGreenIffSame(answer: string, guess: string)
    requires |answer| == |guess| == WORD_LENGTH
    ensures Score(answer, guess) == ALL_GREEN <==> guess == answer
  {
    AllGreenWhenAllMatch(answer, guess, Score(answer, guess));
  }

  lemma ExampleGreens()
    ensures Greens("abcda", "azaza") == multiset{'a', 'a'}
  {
    var a, g := "abcda", "azaza";
    assert GreensBefore(a, g, 1) == multiset{'a'};
    assert GreensBefore(a, g, 4) == multiset{'a'};
  }

  lemma ExampleMiddleIsBlack()
    ensures Mark("abcda", "azaza", 2) == 'b'
  {
    var a, g := "abcda", "azaza";
    ExampleGreens();
    assert YellowsBefore(a, g, 1) == multiset{};
    assert Mark(a, g, 1) == 'b';
    assert YellowsBefore(a, g, 2) == multiset{};
    assert multiset(a)['a'] == 2 by {
      assert a == ['a'] + ['b', 'c', 'd'] + ['a'];
    }
  }

  /**
   * The duplicate-letter example: both 'a's of the answer are consumed by
   * greens, so the middle 'a' of the guess is black, not yellow.
   */
  lemma DuplicateLetterExample()
    ensures Score("abcda", "azaza") == "gbbbg"
  {
    var a, g := "abcda", "azaza";
    ExampleMiddleIsBlack();
    assert g[1] !in a && g[3] !in a;
    assert Score(a, g)[2] == 'b';
  }
}

// The game loop of main.cpp, played automatically against a target word:
// the constraint state is created once, each round picks a guess, scores
// it with compare, stops on an all-green result and otherwise folds the
// result into the state and filters both pools.
module Round {
  import opened Parameters
  import opened Feedback
  import opened Tools
  import opened Constraints
  import opened Filter

  /**
   * How a game went: the guesses in order, whether the last one was all
   * green, and the constraint state and both pools when the loop ended.
   */
  datatype Outcome = Outcome(
    guesses: seq<string>,
    solved: bool,
    state: State,
    allWordsFiltered: set<string>,
    answersFiltered: set<string>)

  /** Every pick of the entropy ranking is a word. */
  ghost predicate ChoosesWords(choose: set<string> -> string) {
    forall q :: IsWord(choose(q))
  }

  /**
   * The constraint state after folding, in order, the result compare gives
   * against `target` for each guess: the state main.cpp creates once
   * before its loop and updates after every round that is not won. Every
   * guess the game makes is a word; one of another length would be skipped.
   */
  function Replay(target: string, guesses: seq<string>): (s: State)
    requires |target| == WORD_LENGTH
    ensures WellShaped(s)
  {
    if guesses == [] then Empty()
    else
      var g := guesses[|guesses| - 1];
      var s := Replay(target, guesses[..|guesses| - 1]);
      if |g| == WORD_LENGTH then
        assert IsResult(Score(target, g));
        Observe(s, g, Score(target, g))
      else s
  }

  /** Everything the replayed state records is true of the target, however many rounds were played. */
  lemma {:induction false} ReplayConsistent(target: string, guesses: seq<string>)
    requires IsWord(target)
    ensures Consistent(Replay(target, guesses), target)
  {
    if guesses == [] {
      EmptyConsistent(target);
    } else {
      var prefix := guesses[..|guesses| - 1];
      ReplayConsistent(target, prefix);
      if |guesses[|guesses| - 1]| == WORD_LENGTH {
        ObservePreservesConsistent(Replay(target, prefix), target, guesses[|guesses| - 1]);
      }
    }
  }

  /** A pool filtered after every round by the state reached in that round. */
  function Sift(pool: set<string>, target: string, guesses: seq<string>): (kept: set<string>)
    requires |target| == WORD_LENGTH
    ensures kept <= pool
  {
    if guesses == [] then pool
    else Filtered(Replay(target, guesses), Sift(pool, target, guesses[..|guesses| - 1]))
  }

  /** The target is never filtered out of a pool that holds it, in any number of rounds. */
  lemma {:induction false} TargetNeverSifted(pool: set<string>, target: string, guesses: seq<string>)
    requires IsWord(target)
    ensures target in pool ==> target in Sift(pool, target, guesses)
  {
    if guesses != [] {
      TargetNeverSifted(pool, target, guesses[..|guesses| - 1]);
      ReplayConsistent(target, guesses);
      ConsistentMatches(Replay(target, guesses), target);
    }
  }

  /** The guesses whose results were folded: all of them, or all but the winning one. */
  function Played(guesses: seq<string>, solved: bool): (played: seq<string>)
    ensures |played| <= |guesses|
    ensures forall i :: 0 <= i < |played| ==> played[i] == guesses[i]
    ensures solved && |guesses| > 0 ==> |played| == |guesses| - 1
    ensures !solved ==> played == guesses
  {
    if solved && |guesses| > 0 then guesses[..|guesses| - 1] else guesses
  }

  /**
   * The guess rule of one round, given the two filtered pools: the only
   * word left in both, or else the chooser's pick on the answers.
   */
  ghost predicate FollowsRule(allWordsFiltered: set<string>, answersFiltered: set<string>,
                              choose: set<string> -> string, guess: string)
  {
    && (|allWordsFiltered * answersFiltered| == 1 ==> allWordsFiltered * answersFiltered == {guess})
    && (|allWordsFiltered * answersFiltered| != 1 ==> guess == choose(answersFiltered))
  }

  /**
   * Guess k followed the rule on the pools sifted by the k guesses before
   * it. Stated for every `before` equal to those guesses, so that Sift is
   * unfolded only where a proof names it.
   */
  ghost predicate RuleAt(allWords: set<string>, answers: set<string>, target: string,
                         choose: set<string> -> string, guesses: seq<string>, k: nat)
    requires |target| == WORD_LENGTH && k < |guesses|
  {
    forall before | before == guesses[..k] ::
      FollowsRule(Sift(allWords, target, before), Sift(answers, target, before), choose, guesses[k])
  }

  /** Every guess followed the guess rule on the pools filtered by the rounds before it. */
  ghost predicate FollowAll(allWords: set<string>, answers: set<string>, target: string,
                            choose: set<string> -> string, guesses: seq<string>)
    requires |target| == WORD_LENGTH
  {
    guesses == [] ||
    (FollowAll(allWords, answers, target, choose, guesses[..|guesses| - 1])
     && RuleAt(allWords, answers, target, choose, guesses, |guesses| - 1))
  }

  /** A guess that follows the rule after `guesses` extends a game that followed it. */
  lemma FollowAllStep(allWords: set<string>, answers: set<string>, target: string,
                      choose: set<string> -> string, guesses: seq<string>, guess: string)
    requires |target| == WORD_LENGTH
    requires FollowAll(allWords, answers, target, choose, guesses)
    requires FollowsRule(Sift(allWords, target, guesses), Sift(answers, target, guesses), choose, guess)
    ensures FollowAll(allWords, answers, target, choose, guesses + [guess])
  {
    assert (guesses + [guess])[..|guesses|] == guesses;
  }

  /** Following the rule throughout means following it at every round. */
  lemma {:induction false} FollowAllEach(allWords: set<string>, answers: set<string>, target: string,
                                         choose: set<string> -> string, guesses: seq<string>)
    requires |target| == WORD_LENGTH
    ensures FollowAll(allWords, answers, target, choose, guesses) <==>
              forall k :: 0 <= k < |guesses| ==> RuleAt(allWords, answers, target, choose, guesses, k)
  {
    if guesses != [] {
      var n := |guesses| - 1;
      var prefix := guesses[..n];
      FollowAllEach(allWords, answers, target, choose, prefix);
      forall k | 0 <= k < n
        ensures RuleAt(allWords, answers, target, choose, prefix, k) == RuleAt(allWords, answers, target, choose, guesses, k)
      {
        assert prefix[..k] == guesses[..k];
      }
    }
  }

  /**
   * The state and pools after the rounds `guesses`, reached by following
   * the guess rule. Stated for every `played` equal to `guesses`, so that
   * Replay and Sift are unfolded only where a proof names them.
   */
  ghost predicate Reached(allWords: set<string>, answers: set<string>, target: string,
                          choose: set<string> -> string, guesses: seq<string>,
                          state: State, allWordsFiltered: set<string>, answersFiltered: set<string>)
    requires |target| == WORD_LENGTH
  {
    forall played | played == guesses ::
      && state == Replay(target, played)
      && allWordsFiltered == Sift(allWords, target, played)
      && answersFiltered == Sift(answers, target, played)
      && FollowAll(allWords, answers, target, choose, played)
  }

  /**
   * The body of main's loop: pick the guess, score it against the target,
   * and unless it is all green fold the result in and filter both pools,
   * which extends the replay by that guess.
   */
  method PlayRound(ghost allWords: set<string>, ghost answers: set<string>, target: string,
                   choose: set<string> -> string, ghost guesses: seq<string>,
                   state: State, allWordsFiltered: set<string>, answersFiltered: set<string>)
    returns (guess: string, won: bool, state': State, allWordsFiltered': set<string>, answersFiltered': set<string>)
    requires forall w :: w in allWords ==> IsWord(w)
    requires IsWord(target) && ChoosesWords(choose)
    requires Reached(allWords, answers, target, choose, guesses, state, allWordsFiltered, answersFiltered)
    ensures IsWord(guess)
    ensures |allWordsFiltered * answersFiltered| == 1 ==> allWordsFiltered * answersFiltered == {guess}
    ensures |allWordsFiltered * answersFiltered| != 1 ==> guess == choose(answersFiltered)
    ensures FollowAll(allWords, answers, target, choose, guesses + [guess])
    ensures won <==> guess == target
    ensures !won ==> Reached(allWords, answers, target, choose, guesses + [guess], state', allWordsFiltered', answersFiltered')
  {
    guess := ChooseGuess(allWordsFiltered, answersFiltered, choose);
    FollowAllStep(allWords, answers, target, choose, guesses, guess);
    var result := Compare(target, guess);
    AllGreenIffSame(target, guess);
    won := result == ALL_GREEN;
    state', allWordsFiltered', answersFiltered' := state, allWordsFiltered, answersFiltered;
    if !won {
      assert (guesses + [guess])[..|guesses|] == guesses;
      state', allWordsFiltered', answersFiltered' := UpdateRound(state, allWordsFiltered, answersFiltered, guess, result);
    }
  }

  /** Appending the winning guess to guesses that never held it: it is the only and the last occurrence. */
  lemma WinnerLast(guesses: seq<string>, target: string)
    requires target !in guesses
    ensures target in guesses + [target]
    ensures (guesses + [target])[|guesses|] == target
    ensures target !in (guesses + [target])[..|guesses|]
    ensures Played(guesses + [target], true) == guesses
  {
    assert (guesses + [target])[..|guesses|] == guesses;
  }

  /** A word in both pools is kept in one exactly when it is kept in the other, however many rounds were played. */
  lemma {:induction false} SiftAgree(allWords: set<string>, answers: set<string>, target: string, guesses: seq<string>)
    requires |target| == WORD_LENGTH
    ensures forall w :: w in allWords && w in answers ==>
              (w in Sift(allWords, target, guesses) <==> w in Sift(answers, target, guesses))
  {
    if guesses != [] {
      SiftAgree(allWords, answers, target, guesses[..|guesses| - 1]);
    }
  }

  /**
   * After the rounds `guesses`, the replayed state is consistent with the
   * target, both pools keep it, and they agree on the words they share.
   */
  lemma TargetKept(allWords: set<string>, answers: set<string>, target: string, guesses: seq<string>)
    requires IsWord(target) && target in allWords
    ensures Consistent(Replay(target, guesses), target)
    ensures target in Sift(allWords, target, guesses)
    ensures target in answers ==> target in Sift(answers, target, guesses)
    ensures forall w :: w in allWords && w in answers ==>
              (w in Sift(allWords, target, guesses) <==> w in Sift(answers, target, guesses))
  {
    SiftAgree(allWords, answers, target, guesses);
    ReplayConsistent(target, guesses);
    TargetNeverSifted(allWords, target, guesses);
    TargetNeverSifted(answers, target, guesses);
  }

  /** set_intersection of the two pools, built by insertion. */
  method Intersection(allWordsFiltered: set<string>, answersFiltered: set<string>) returns (both: set<string>)
    ensures forall w :: w in both <==> w in allWordsFiltered && w in answersFiltered
  {
    both := {};
    var unvisited := allWordsFiltered;
    while unvisited != {}
      invariant unvisited <= allWordsFiltered
      invariant forall w :: w in both <==> w in allWordsFiltered - unvisited && w in answersFiltered
      decreases unvisited
    {
      var w :| w in unvisited;
      if w in answersFiltered {
        both := both + {w};
      }
      unvisited := unvisited - {w};
    }
  }

  /**
   * The guess rule of a round: when exactly one word is left in both pools
   * it is the guess; otherwise the guess is the chooser's best word by
   * entropy, which is computed from the filtered answers alone.
   */
  method ChooseGuess(allWordsFiltered: set<string>, answersFiltered: set<string>, choose: set<string> -> string)
    returns (guess: string)
    ensures |allWordsFiltered * answersFiltered| == 1 ==> allWordsFiltered * answersFiltered == {guess}
    ensures |allWordsFiltered * answersFiltered| != 1 ==> guess == choose(answersFiltered)
  {
    var both := Intersection(allWordsFiltered, answersFiltered);
    assert both == allWordsFiltered * answersFiltered;
    if |both| == 1 {
      guess :| guess in both;
      assert |both - {guess}| == 0;
    } else {
      guess := choose(answersFiltered);
    }
  }

  /**
   * The update after a result that is not all green: fold it into the
   * state, erase position mismatches from both pools, then erase from both
   * pools the words lacking a required letter. Both pools end up filtered
   * by the same new state.
   */
  method UpdateRound(state: State, allWordsFiltered: set<string>, answersFiltered: set<string>, guess: string, result: string)
    returns (state': State, allWordsFiltered': set<string>, answersFiltered': set<string>)
    requires WellShaped(state) && IsWord(guess) && IsResult(result)
    ensures state' == Observe(state, guess, result)
    ensures allWordsFiltered' == Filtered(state', allWordsFiltered)
    ensures answersFiltered' == Filtered(state', answersFiltered)
  {
    state' := FoldObservation(state, guess, result);
    allWordsFiltered' := ErasePositionMismatches(state', allWordsFiltered);
    answersFiltered' := ErasePositionMismatches(state', answersFiltered);
    var required := CollectRequired(state');
    allWordsFiltered' := EraseLacking(allWordsFiltered', required);
    answersFiltered' := EraseLacking(answersFiltered', required);
  }

  /**
   * main's round loop, played with every result computed by compare
   * against `target`: at most ROUNDS guesses, all words, each chosen by the
   * guess rule on the pools of its round; it stops at the first all-green
   * result. The final state and pools are the replay of every guess but a
   * winning one.
   */
  method PlayRounds(allWords: set<string>, answers: set<string>, target: string, choose: set<string> -> string)
    returns (o: Outcome)
    requires forall w :: w in allWords ==> IsWord(w)
    requires IsWord(target) && ChoosesWords(choose)
    ensures |o.guesses| <= ROUNDS
    ensures o.solved <==> target in o.guesses
    ensures o.solved ==> o.guesses[|o.guesses| - 1] == target
    ensures o.solved ==> target !in o.guesses[..|o.guesses| - 1]
    ensures !o.solved ==> |o.guesses| == ROUNDS
    ensures forall i :: 0 <= i < |o.guesses| ==> IsWord(o.guesses[i])
    ensures FollowAll(allWords, answers, target, choose, o.guesses)
    ensures Reached(allWords, answers, target, choose, Played(o.guesses, o.solved), o.state, o.allWordsFiltered, o.answersFiltered)
  {
    var state := Empty();
    var allWordsFiltered, answersFiltered := allWords, answers;
    var guesses: seq<string> := [];
    var solved := false;
    var round := 0;
    while round < ROUNDS
      invariant round <= ROUNDS && |guesses| == round
      invariant target !in guesses
      invariant forall i :: 0 <= i < |guesses| ==> IsWord(guesses[i])
      invariant Reached(allWords, answers, target, choose, guesses, state, allWordsFiltered, answersFiltered)
    {
      var guess, won, state', allWordsFiltered', answersFiltered' :=
        PlayRound(allWords, answers, target, choose, guesses, state, allWordsFiltered, answersFiltered);
      if won {
        WinnerLast(guesses, target);
        guesses := guesses + [guess];
        solved := true;
        break;
      }
      state, allWordsFiltered, answersFiltered := state', allWordsFiltered', answersFiltered';
      guesses := guesses + [guess];
      round := round + 1;
    }
    o := Outcome(guesses, solved, state, allWordsFiltered, answersFiltered);
  }

  /**
   * main's game against `target`, which main has checked to be in the word
   * list. Beyond what the round loop promises: both pools only shrink, the
   * target is never filtered out of a pool that held it, everything the
   * state records is true of it, and a word in both pools is kept in one
   * exactly when it is kept in the other.
   */
  method AutoPlay(allWords: set<string>, answers: set<string>, target: string, choose: set<string> -> string)
    returns (o: Outcome)
    requires forall w :: w in allWords ==> IsWord(w)
    requires target in allWords && ChoosesWords(choose)
    ensures |o.guesses| <= ROUNDS
    ensures o.solved <==> target in o.guesses
    ensures o.solved ==> o.guesses[|o.guesses| - 1] == target
    ensures !o.solved ==> |o.guesses| == ROUNDS
    ensures o.allWordsFiltered <= allWords && o.answersFiltered <= answers
    ensures target in o.allWordsFiltered
    ensures target in answers ==> target in o.answersFiltered
    ensures Consistent(o.state, target)
    ensures forall w :: w in allWords && w in answers ==> (w in o.allWordsFiltered <==> w in o.answersFiltered)
    ensures o.solved ==> target !in o.guesses[..|o.guesses| - 1]
    ensures forall i :: 0 <= i < |o.guesses| ==> IsWord(o.guesses[i])
    ensures FollowAll(allWords, answers, target, choose, o.guesses)
    ensures o.state == Replay(target, Played(o.guesses, o.solved))
    ensures o.allWordsFiltered == Sift(allWords, target, Played(o.guesses, o.solved))
    ensures o.answersFiltered == Sift(answers, target, Played(o.guesses, o.solved))
  {
    o := PlayRounds(allWords, answers, target, choose);
    TargetKept(allWords, answers, target, Played(o.guesses, o.solved));
  }
}

// What the accumulator of filter.cpp (and its inline copy in main.cpp)
// learns from one (guess, result) pair, and which words it then keeps.
// The regular expression the source builds is one character class per
// position; it is stated here as the predicate it encodes.
module Constraints {
  import opened Parameters
  import opened Feedback

  /**
   * The three fields of filter_t: known_letters (UNSET where nothing is
   * known), location_unknown_letters (letters seen yellow at a position)
   * and unused_letters.
   */
  datatype State = State(known: seq<char>, locationUnknown: seq<set<char>>, unused: set<char>)

  predicate WellShaped(s: State) {
    |s.known| == WORD_LENGTH && |s.locationUnknown| == WORD_LENGTH
  }

  /** The state of a freshly constructed filter_t. */
  function Empty(): (s: State)
    ensures WellShaped(s)
    ensures s.unused == {}
    ensures forall i :: 0 <= i < WORD_LENGTH ==> s.known[i] == UNSET && s.locationUnknown[i] == {}
  {
    State(seq(WORD_LENGTH, _ => UNSET), seq(WORD_LENGTH, _ => {}), {})
  }

  /** Letter `c` was seen yellow at some position. */
  predicate YellowSomewhere(locationUnknown: seq<set<char>>, c: char) {
    exists k :: 0 <= k < |locationUnknown| && c in locationUnknown[k]
  }

  /**
   * Folding one observation: greens fix known letters, yellows grow the
   * per-position sets, and only then is a black letter declared unused,
   * provided it is yellow at no position (this round's yellows included).
   */
  function Observe(s: State, guess: string, result: string): (s': State)
    requires WellShaped(s) && |guess| == WORD_LENGTH && IsResult(result)
    ensures WellShaped(s')
    ensures forall i :: 0 <= i < WORD_LENGTH && result[i] == 'g' ==> s'.known[i] == guess[i]
    ensures forall i :: 0 <= i < WORD_LENGTH && result[i] == 'y' ==> guess[i] in s'.locationUnknown[i]
    ensures forall i :: 0 <= i < WORD_LENGTH && result[i] != 'g' ==> s'.known[i] == s.known[i]
    ensures forall i :: 0 <= i < WORD_LENGTH ==> s.locationUnknown[i] <= s'.locationUnknown[i]
    ensures forall i, c :: 0 <= i < WORD_LENGTH && c in s'.locationUnknown[i] - s.locationUnknown[i] ==>
              result[i] == 'y' && guess[i] == c
    ensures s.unused <= s'.unused
    ensures forall c :: c in s'.unused - s.unused ==>
              !YellowSomewhere(s'.locationUnknown, c)
              && exists i :: 0 <= i < WORD_LENGTH && result[i] == 'b' && guess[i] == c
    ensures forall i :: 0 <= i < WORD_LENGTH && result[i] == 'b' && !YellowSomewhere(s'.locationUnknown, guess[i]) ==>
              guess[i] in s'.unused
  {
    var known := seq(WORD_LENGTH, i requires 0 <= i < WORD_LENGTH =>
                       if result[i] == 'g' then guess[i] else s.known[i]);
    var locationUnknown := seq(WORD_LENGTH, i requires 0 <= i < WORD_LENGTH =>
                       if result[i] == 'y' then s.locationUnknown[i] + {guess[i]} else s.locationUnknown[i]);
    State(known, locationUnknown, s.unused + NewlyUnused(locationUnknown, guess, result, WORD_LENGTH))
  }

  /** Black letters among the first n of the guess that are yellow nowhere. */
  function NewlyUnused(locationUnknown: seq<set<char>>, guess: string, result: string, n: nat): set<char>
    requires |guess| == WORD_LENGTH && IsResult(result) && n <= WORD_LENGTH
  {
    set i | 0 <= i < n && result[i] == 'b' && !YellowSomewhere(locationUnknown, guess[i]) :: guess[i]
  }

  /** The letters a word may not hold at position i where nothing is known: the regex class [^...]. */
  function Excluded(s: State, i: nat): set<char>
    requires WellShaped(s) && i < WORD_LENGTH
  {
    s.unused + s.locationUnknown[i]
  }

  /** The first pass: the word matches the per-position pattern. */
  predicate PositionRule(s: State, w: string)
    requires WellShaped(s)
  {
    && |w| == WORD_LENGTH
    && forall i :: 0 <= i < WORD_LENGTH ==>
         if s.known[i] != UNSET then w[i] == s.known[i] else w[i] !in Excluded(s, i)
  }

  /** Letters seen yellow somewhere and known at no position. */
  function Required(s: State): set<char>
    requires WellShaped(s)
  {
    set i, c | 0 <= i < WORD_LENGTH && c in s.locationUnknown[i] && c !in s.known :: c
  }

  /** The second pass: the word holds every required letter. */
  predicate HasRequired(s: State, w: string)
    requires WellShaped(s)
  {
    forall c :: c in Required(s) ==> c in w
  }

  predicate Matches(s: State, w: string)
    requires WellShaped(s)
  {
    PositionRule(s, w) && HasRequired(s, w)
  }

  /** The pool after both passes of filtering. */
  function Filtered(s: State, pool: set<string>): (kept: set<string>)
    requires WellShaped(s)
    ensures kept <= pool
    ensures forall w :: w in pool ==> (w in kept <==> Matches(s, w))
  {
    set w | w in pool && Matches(s, w)
  }

  // ---------------------------------------------------------------------
  // Repeating an observation

  /** Folding the same observation twice gives the state of folding it once. */
  lemma ObserveIdempotent(s: State, guess: string, result: string)
    requires WellShaped(s) && |guess| == WORD_LENGTH && IsResult(result)
    ensures Observe(Observe(s, guess, result), guess, result) == Observe(s, guess, result)
  {
    var s1 := Observe(s, guess, result);
    var s2 := Observe(s1, guess, result);
    assert s2.known == s1.known;
    assert s2.locationUnknown == s1.locationUnknown;
    assert NewlyUnused(s2.locationUnknown, guess, result, WORD_LENGTH) <= s1.unused;
  }

  /** Filtering a pool a second time with the same state removes nothing. */
  lemma FilterIdempotent(s: State, pool: set<string>)
    requires WellShaped(s)
    ensures Filtered(s, Filtered(s, pool)) == Filtered(s, pool)
  {
  }

  // ---------------------------------------------------------------------
  // The target is never filtered out

  /**
   * Everything `s` records is true of the target `t`: known letters sit
   * where `t` has them, a yellow letter is in `t` but not at that position,
   * and an unused letter occurs in `t` only where it is already known.
   */
  predicate Consistent(s: State, t: string) {
    && WellShaped(s)
    && |t| == WORD_LENGTH
    && (forall i :: 0 <= i < WORD_LENGTH && s.known[i] != UNSET ==> s.known[i] == t[i])
    && (forall i, c :: 0 <= i < WORD_LENGTH && c in s.locationUnknown[i] ==> c != t[i])
    && (forall c :: YellowSomewhere(s.locationUnknown, c) ==> c in t)
    && (forall i :: 0 <= i < WORD_LENGTH && t[i] in s.unused ==> s.known[i] == t[i])
  }

  lemma EmptyConsistent(t: string)
    requires IsWord(t)
    ensures Consistent(Empty(), t)
  {
  }

  /** A state consistent with a target word lets that word through. */
  lemma ConsistentMatches(s: State, t: string)
    requires Consistent(s, t) && IsWord(t)
    ensures Matches(s, t)
  {
    forall i | 0 <= i < WORD_LENGTH && s.known[i] == UNSET
      ensures t[i] !in Excluded(s, i)
    {
      assert IsLetter(t[i]);
    }
  }

  /**
   * Folding any result that is true of `t` (greens exactly where the words
   * agree, yellows only for letters of `t` out of place, blacks under the
   * duplicate-letter rule) keeps the state consistent with `t`.
   */
  lemma ObserveKeepsConsistent(s: State, t: string, guess: string, r: string)
    requires Consistent(s, t) && IsWord(t) && |guess| == WORD_LENGTH && IsResult(r)
    requires forall i :: 0 <= i < WORD_LENGTH ==> (r[i] == 'g' <==> guess[i] == t[i])
    requires forall i :: 0 <= i < WORD_LENGTH && r[i] == 'y' ==> guess[i] != t[i] && guess[i] in t
    requires BlackMeansAllGreen(t, guess, r)
    ensures Consistent(Observe(s, guess, r), t)
  {
    var s' := Observe(s, guess, r);
    forall i, c | 0 <= i < WORD_LENGTH && c in s'.locationUnknown[i]
      ensures c != t[i] && c in t
    {
      if c !in s.locationUnknown[i] {
        assert r[i] == 'y' && guess[i] == c;
      }
    }
    forall i | 0 <= i < WORD_LENGTH && t[i] in s'.unused
      ensures s'.known[i] == t[i]
    {
      if t[i] !in s.unused {
        var c := t[i];
        var j :| 0 <= j < WORD_LENGTH && r[j] == 'b' && guess[j] == c;
        forall k | 0 <= k < WORD_LENGTH && guess[k] == c
          ensures r[k] != 'y'
        {
          if r[k] == 'y' {
            assert false;
          }
        }
        assert NoYellowCopy(guess, r, guess[j]);
      }
    }
  }

  /** Folding the result compare gives against `t` keeps the state consistent with `t`. */
  lemma ObservePreservesConsistent(s: State, t: string, guess: string)
    requires Consistent(s, t) && IsWord(t) && |guess| == WORD_LENGTH
    ensures IsResult(Score(t, guess))
    ensures Consistent(Observe(s, guess, Score(t, guess)), t)
  {
    ScoreBlackMeansAllGreen(t, guess);
    ObserveKeepsConsistent(s, t, guess, Score(t, guess));
  }

  /**
   * One round against target `t`: the state stays consistent with `t`,
   * and `t` survives filtering of any pool holding it.
   */
  lemma TargetSurvivesRound(s: State, t: string, guess: string, pool: set<string>)
    requires Consistent(s, t) && IsWord(t) && |guess| == WORD_LENGTH
    ensures IsResult(Score(t, guess))
    ensures Consistent(Observe(s, guess, Score(t, guess)), t)
    ensures t in pool ==> t in Filtered(Observe(s, guess, Score(t, guess)), pool)
  {
    ObservePreservesConsistent(s, t, guess);
    ConsistentMatches(Observe(s, guess, Score(t, guess)), t);
  }
}

// filter_t (filter.h, filter.cpp): the constraint accumulator and the
// in-place filtering of a pool of candidate words. The loops of
// filter_t::filter are written once, as methods over values; main.cpp's
// inline copy of the same code calls them too.
module Filter {
  import opened Parameters
  import opened Constraints

  /**
   * The first two loops of filter_t::filter: greens and yellows are
   * recorded first, then every black letter that is yellow at no position
   * is declared unused.
   */
  method FoldObservation(s: State, guess: string, result: string) returns (s': State)
    requires WellShaped(s) && |guess| == WORD_LENGTH && IsResult(result)
    ensures s' == Observe(s, guess, result)
  {
    var known, locationUnknown, unused := s.known, s.locationUnknown, s.unused;
    for i := 0 to WORD_LENGTH
      invariant |known| == WORD_LENGTH && |locationUnknown| == WORD_LENGTH
      invariant forall k :: 0 <= k < WORD_LENGTH ==>
                  known[k] == if k < i && result[k] == 'g' then guess[k] else s.known[k]
      invariant forall k :: 0 <= k < WORD_LENGTH ==>
                  locationUnknown[k] == if k < i && result[k] == 'y' then s.locationUnknown[k] + {guess[k]} else s.locationUnknown[k]
    {
      var c := guess[i];
      if result[i] == 'b' {
        continue;
      } else if result[i] == 'y' {
        locationUnknown := locationUnknown[i := locationUnknown[i] + {c}];
      } else if result[i] == 'g' {
        known := known[i := c];
      } else {
        assert false;
      }
    }
    assert known == Observe(s, guess, result).known;
    assert locationUnknown == Observe(s, guess, result).locationUnknown;

    for i := 0 to WORD_LENGTH
      invariant unused == s.unused + NewlyUnused(locationUnknown, guess, result, i)
    {
      if result[i] == 'b' {
        var c := guess[i];
        var okToMarkUnused := IsUnmarked(locationUnknown, c);
        if !okToMarkUnused {
          assert NewlyUnused(locationUnknown, guess, result, i + 1) == NewlyUnused(locationUnknown, guess, result, i);
          continue;
        }
        unused := unused + {c};
        assert NewlyUnused(locationUnknown, guess, result, i + 1) == NewlyUnused(locationUnknown, guess, result, i) + {c};
      } else {
        assert NewlyUnused(locationUnknown, guess, result, i + 1) == NewlyUnused(locationUnknown, guess, result, i);
      }
    }
    s' := State(known, locationUnknown, unused);
  }

  /**
   * The scan of every position's yellow set for letter c, stopping at the
   * first set that holds it: true exactly when c is yellow nowhere.
   */
  method IsUnmarked(locationUnknown: seq<set<char>>, c: char) returns (ok: bool)
    ensures ok <==> !YellowSomewhere(locationUnknown, c)
  {
    ok := true;
    var k := 0;
    while k < |locationUnknown|
      invariant 0 <= k <= |locationUnknown|
      invariant ok ==> forall m :: 0 <= m < k ==> c !in locationUnknown[m]
      invariant !ok ==> YellowSomewhere(locationUnknown, c)
    {
      if c in locationUnknown[k] {
        ok := false;
      }
      if !ok {
        break;
      }
      k := k + 1;
    }
  }

  /** The regex pass: erase every word of the pool that fails the position rule. */
  method ErasePositionMismatches(s: State, pool: set<string>) returns (kept: set<string>)
    requires WellShaped(s)
    ensures kept <= pool
    ensures forall w :: w in pool ==> (w in kept <==> PositionRule(s, w))
  {
    kept := pool;
    var unvisited := pool;
    while unvisited != {}
      invariant unvisited <= pool && kept <= pool
      invariant forall w :: w in pool ==> (w in kept <==> w in unvisited || PositionRule(s, w))
      decreases unvisited
    {
      var w :| w in unvisited;
      if !PositionRule(s, w) {
        kept := kept - {w};
      }
      unvisited := unvisited - {w};
    }
  }

  /**
   * The set all_location_unknown_letters: every letter of some position's
   * yellow set that occurs nowhere in known_letters.
   */
  method CollectRequired(s: State) returns (required: set<char>)
    requires WellShaped(s)
    ensures required == Required(s)
  {
    required := {};
    for i := 0 to WORD_LENGTH
      invariant required == set k, c | 0 <= k < i && c in s.locationUnknown[k] && c !in s.known :: c
    {
      var unvisited := s.locationUnknown[i];
      ghost var before := required;
      while unvisited != {}
        invariant unvisited <= s.locationUnknown[i]
        invariant required == before + set c | c in s.locationUnknown[i] - unvisited && c !in s.known
        decreases unvisited
      {
        var c :| c in unvisited;
        if c !in s.known {
          required := required + {c};
        }
        unvisited := unvisited - {c};
      }
    }
  }

  /** The required-letter pass: for each required letter, erase the words lacking it. */
  method EraseLacking(pool: set<string>, required: set<char>) returns (kept: set<string>)
    ensures kept <= pool
    ensures forall w :: w in pool ==> (w in kept <==> forall c :: c in required ==> c in w)
  {
    kept := pool;
    var letters := required;
    while letters != {}
      invariant letters <= required && kept <= pool
      invariant forall w :: w in pool ==> (w in kept <==> forall c :: c in required - letters ==> c in w)
      decreases letters
    {
      var c :| c in letters;
      var unvisited := kept;
      ghost var before := kept;
      while unvisited != {}
        invariant unvisited <= before && kept <= before
        invariant forall w :: w in before ==> (w in kept <==> w in unvisited || c in w)
        decreases unvisited
      {
        var w :| w in unvisited;
        if c !in w {
          kept := kept - {w};
        }
        unvisited := unvisited - {w};
      }
      letters := letters - {c};
    }
  }

  /** Both passes of filtering, as main.cpp and filter_t::filter run them on a pool. */
  method FilterPool(s: State, pool: set<string>) returns (kept: set<string>)
    requires WellShaped(s)
    ensures kept == Filtered(s, pool)
  {
    var positioned := ErasePositionMismatches(s, pool);
    var required := CollectRequired(s);
    kept := EraseLacking(positioned, required);
  }

  /** filter_t: what has been learnt so far about the answer's letters. */
  class FilterT {
    var unusedLetters: set<char>
    var locationUnknownLetters: seq<set<char>>
    var knownLetters: seq<char>

    predicate Valid()
      reads this
    {
      |knownLetters| == WORD_LENGTH && |locationUnknownLetters| == WORD_LENGTH
    }

    /** The fields as one value of the constraint state. */
    function Current(): (s: State)
      reads this
      ensures Valid() ==> WellShaped(s)
    {
      State(knownLetters, locationUnknownLetters, unusedLetters)
    }

    /** A fresh filter knows nothing: the state of Constraints.Empty. */
    constructor ()
      ensures Valid()
      ensures Current() == Empty()
    {
      unusedLetters := {};
      locationUnknownLetters := seq(WORD_LENGTH, _ => {});
      knownLetters := seq(WORD_LENGTH, _ => UNSET);
    }

    /**
     * filter_t::filter: folds one (guess, result) pair into the fields and
     * returns the pool with every non-matching word erased.
     */
    method Filter(answersFiltered: set<string>, guess: string, result: string) returns (kept: set<string>)
      requires Valid() && IsWord(guess) && IsResult(result)
      modifies this
      ensures Valid()
      ensures Current() == Observe(old(Current()), guess, result)
      ensures kept == Filtered(Current(), answersFiltered)
    {
      var s := FoldObservation(Current(), guess, result);
      knownLetters, locationUnknownLetters, unusedLetters := s.known, s.locationUnknown, s.unused;
      kept := FilterPool(s, answersFiltered);
    }
  }

  /**
   * Calling filter a second time with the same guess and result changes
   * neither the fields nor the pool.
   */
  lemma RepeatedFilterChangesNothing(s: State, pool: set<string>, guess: string, result: string)
    requires WellShaped(s) && |guess| == WORD_LENGTH && IsResult(result)
    ensures var s1 := Observe(s, guess, result);
            Observe(s1, guess, result) == s1
            && Filtered(Observe(s1, guess, result), Filtered(s1, pool)) == Filtered(s1, pool)
  {
    var s1 := Observe(s, guess, result);
    ObserveIdempotent(s, guess, result);
    FilterIdempotent(s1, pool);
  }
}

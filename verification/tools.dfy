// tools.cpp: the feedback oracle as the source computes it (four passes
// over a mutable result string and three letter-count maps), the integer
// part of the per-guess bin tally, and the index arithmetic that splits the
// guess list into one chunk per worker thread.
module Tools {
  import opened Parameters
  import opened Feedback

  /**
   * compare(answer, guess). The count maps become multisets. The result
   * starts as all '*'; the last pass repeats while a '*' is left, and the
   * invariants show that one run of its body leaves none.
   */
  method Compare(answer: string, guess: string) returns (rval: string)
    requires |answer| == WORD_LENGTH && |guess| == WORD_LENGTH
    ensures rval == Score(answer, guess)
  {
    rval := "*****";
    var countInAnswer, countInGuess := CountLetters(answer, guess);  // countInGuess is never read, as in the source
    var countMarked: multiset<char>;
    rval, countMarked := MarkGreens(answer, guess, rval);
    rval := MarkAbsent(answer, guess, rval, countInAnswer);

    // Mark yellow squares and the remaining black squares.
    ghost var passes := 0;
    while '*' in rval
      invariant |rval| == WORD_LENGTH && passes <= 1
      invariant passes == 0 ==> AfterBlackPass(answer, guess, rval) && countMarked == Greens(answer, guess)
      invariant passes == 1 ==> rval == Score(answer, guess) && '*' !in rval
      decreases 1 - passes
    {
      rval, countMarked := MarkRemaining(answer, guess, rval, countInAnswer, countMarked);
      ScoreHasNoStar(answer, guess);
      passes := passes + 1;
    }
    if passes == 0 {
      NoneLeftIsScore(answer, guess, rval);
    }
  }

  /** The first pass of compare: the letter counts of the answer and of the guess. */
  method CountLetters(answer: string, guess: string) returns (countInAnswer: multiset<char>, countInGuess: multiset<char>)
    requires |answer| == WORD_LENGTH && |guess| == WORD_LENGTH
    ensures countInAnswer == multiset(answer) && countInGuess == multiset(guess)
  {
    countInAnswer, countInGuess := multiset{}, multiset{};
    for i := 0 to WORD_LENGTH
      invariant countInAnswer == multiset(answer[..i]) && countInGuess == multiset(guess[..i])
    {
      assert answer[..i + 1] == answer[..i] + [answer[i]];
      assert guess[..i + 1] == guess[..i] + [guess[i]];
      countInAnswer := countInAnswer + multiset{answer[i]};
      countInGuess := countInGuess + multiset{guess[i]};
    }
    assert answer[..WORD_LENGTH] == answer && guess[..WORD_LENGTH] == guess;
  }

  /** The green pass: exact matches become 'g' and are counted as marked. */
  method MarkGreens(answer: string, guess: string, rval0: string) returns (rval: string, countMarked: multiset<char>)
    requires |answer| == WORD_LENGTH && |guess| == WORD_LENGTH
    requires rval0 == "*****"
    ensures |rval| == WORD_LENGTH
    ensures forall k :: 0 <= k < WORD_LENGTH ==> rval[k] == (if guess[k] == answer[k] then 'g' else '*')
    ensures countMarked == Greens(answer, guess)
  {
    rval, countMarked := rval0, multiset{};
    for i := 0 to WORD_LENGTH
      invariant |rval| == WORD_LENGTH
      invariant forall k :: 0 <= k < i ==> rval[k] == (if guess[k] == answer[k] then 'g' else '*')
      invariant forall k :: i <= k < WORD_LENGTH ==> rval[k] == '*'
      invariant countMarked == GreensBefore(answer, guess, i)
    {
      if guess[i] == answer[i] {
        rval := rval[i := 'g'];
        countMarked := countMarked + multiset{guess[i]};
      }
    }
  }

  /** The definitely-black pass: a square whose letter the answer lacks becomes 'b'. */
  method MarkAbsent(answer: string, guess: string, rval0: string, countInAnswer: multiset<char>) returns (rval: string)
    requires |answer| == WORD_LENGTH && |guess| == WORD_LENGTH && |rval0| == WORD_LENGTH
    requires forall k :: 0 <= k < WORD_LENGTH ==> rval0[k] == (if guess[k] == answer[k] then 'g' else '*')
    requires countInAnswer == multiset(answer)
    ensures AfterBlackPass(answer, guess, rval)
  {
    rval := rval0;
    for i := 0 to WORD_LENGTH
      invariant |rval| == WORD_LENGTH
      invariant forall k :: 0 <= k < i ==>
        rval[k] == (if guess[k] == answer[k] then 'g' else if countInAnswer[guess[k]] == 0 then 'b' else '*')
      invariant forall k :: i <= k < WORD_LENGTH ==> rval[k] == rval0[k]
    {
      if countInAnswer[guess[i]] == 0 {
        rval := rval[i := 'b'];
      }
    }
  }

  /** The squares after the green and the definitely-black passes. */
  predicate AfterBlackPass(answer: string, guess: string, rval: string)
    requires |answer| == WORD_LENGTH && |guess| == WORD_LENGTH
  {
    && |rval| == WORD_LENGTH
    && forall k :: 0 <= k < WORD_LENGTH ==>
         rval[k] == (if guess[k] == answer[k] then 'g' else if multiset(answer)[guess[k]] == 0 then 'b' else '*')
  }

  /** Every square of a result is 'g', 'y' or 'b': none is left '*'. */
  lemma ScoreHasNoStar(answer: string, guess: string)
    requires |answer| == |guess|
    ensures '*' !in Score(answer, guess)
  {
    var r := Score(answer, guess);
    forall k | 0 <= k < |r|
      ensures r[k] != '*'
    {
      assert IsMark(r[k]);
    }
  }

  /** With no '*' left after the black pass, every square is green or absent: the result is complete. */
  lemma NoneLeftIsScore(answer: string, guess: string, rval: string)
    requires |answer| == WORD_LENGTH && |guess| == WORD_LENGTH
    requires AfterBlackPass(answer, guess, rval) && '*' !in rval
    ensures rval == Score(answer, guess)
  {
    forall k | 0 <= k < WORD_LENGTH
      ensures rval[k] == Mark(answer, guess, k)
    {
      assert rval[k] != '*';
    }
    ScoreFromMarks(answer, guess, rval);
  }

  /**
   * One run of the body of compare's last loop: each square still '*',
   * taken left to right, turns yellow while the answer has a copy of its
   * letter not yet marked, and black otherwise.
   */
  method MarkRemaining(answer: string, guess: string, rval0: string,
                       countInAnswer: multiset<char>, countMarked0: multiset<char>)
    returns (rval: string, countMarked: multiset<char>)
    requires |answer| == WORD_LENGTH && |guess| == WORD_LENGTH
    requires AfterBlackPass(answer, guess, rval0)
    requires countInAnswer == multiset(answer) && countMarked0 == Greens(answer, guess)
    ensures rval == Score(answer, guess)
    ensures countMarked == Greens(answer, guess) + YellowsBefore(answer, guess, WORD_LENGTH)
  {
    rval, countMarked := rval0, countMarked0;
    ghost var greens := countMarked0;
    for i := 0 to WORD_LENGTH
      invariant |rval| == WORD_LENGTH
      invariant forall k :: 0 <= k < i ==> rval[k] == MarkGiven(answer, guess, greens, YellowsFrom(answer, guess, greens, k), k)
      invariant forall k :: i <= k < WORD_LENGTH ==> rval[k] == rval0[k]
      invariant countMarked == greens + YellowsFrom(answer, guess, greens, i)
    {
      ghost var yellows := YellowsFrom(answer, guess, greens, i);
      assert YellowsFrom(answer, guess, greens, i + 1)
             == yellows + if MarkGiven(answer, guess, greens, yellows, i) == 'y' then multiset{guess[i]} else multiset{};
      rval, countMarked := MarkSquare(answer, guess, rval, i, countInAnswer, countMarked, greens, yellows);
    }
    ScoreFromMarks(answer, guess, rval);
  }

  /**
   * The body of that loop at square i: a square still '*' turns yellow
   * when fewer copies of its letter are marked than the answer holds, and
   * black otherwise; a square already decided is skipped.
   */
  method MarkSquare(answer: string, guess: string, rval0: string, i: nat,
                    countInAnswer: multiset<char>, countMarked0: multiset<char>,
                    ghost greens: multiset<char>, ghost yellows: multiset<char>)
    returns (rval: string, countMarked: multiset<char>)
    requires |answer| == WORD_LENGTH && |guess| == WORD_LENGTH && |rval0| == WORD_LENGTH && i < WORD_LENGTH
    requires rval0[i] == (if guess[i] == answer[i] then 'g' else if multiset(answer)[guess[i]] == 0 then 'b' else '*')
    requires countInAnswer == multiset(answer) && countMarked0 == greens + yellows
    ensures rval == rval0[i := MarkGiven(answer, guess, greens, yellows, i)]
    ensures countMarked == countMarked0
              + if MarkGiven(answer, guess, greens, yellows, i) == 'y' then multiset{guess[i]} else multiset{}
  {
    rval, countMarked := rval0, countMarked0;
    if rval[i] != '*' {
      return;
    }
    var guessChar := guess[i];
    var markedSoFar := countMarked[guessChar];
    var toBeMarked := countInAnswer[guessChar];
    if toBeMarked > markedSoFar {
      rval := rval[i := 'y'];
      countMarked := countMarked + multiset{guessChar};
    } else {
      rval := rval[i := 'b'];
    }
  }

  /** The answers that fall into the bin `key` for `guess`. */
  function Bin(answers: set<string>, guess: string, key: string): set<string>
    requires |guess| == WORD_LENGTH
    requires forall a :: a in answers ==> |a| == WORD_LENGTH
  {
    set a | a in answers && Score(a, guess) == key
  }

  /** Sum of the counts in a bin map. */
  ghost function Total(bins: map<string, nat>): nat
    decreases |bins|
  {
    if bins == map[] then 0
    else
      var k :| k in bins;
      bins[k] + Total(bins - {k})
  }

  lemma {:induction false} TotalWithout(bins: map<string, nat>, k: string)
    requires k in bins
    ensures Total(bins) == bins[k] + Total(bins - {k})
    decreases |bins|
  {
    var j :| j in bins && Total(bins) == bins[j] + Total(bins - {j});
    if j != k {
      assert bins - {j} - {k} == bins - {k} - {j};
      TotalWithout(bins - {j}, k);
      TotalWithout(bins - {k}, j);
    }
  }

  /** `bins` holds, for each non-empty bin of `done`, its size. */
  ghost predicate TallyOf(bins: map<string, nat>, done: set<string>, guess: string)
    requires |guess| == WORD_LENGTH
    requires forall a :: a in done ==> |a| == WORD_LENGTH
  {
    && (forall key :: key in bins <==> |Bin(done, guess, key)| > 0)
    && (forall key :: key in bins ==> bins[key] == |Bin(done, guess, key)|)
  }

  lemma BinGrows(done: set<string>, answer: string, guess: string, key: string)
    requires |guess| == WORD_LENGTH && |answer| == WORD_LENGTH
    requires forall a :: a in done ==> |a| == WORD_LENGTH
    requires answer !in done
    ensures Bin(done + {answer}, guess, key)
            == Bin(done, guess, key) + (if Score(answer, guess) == key then {answer} else {})
  {
  }

  /** The count of bin `k` after adding one more answer to the tally. */
  lemma TallyStepAt(bins: map<string, nat>, done: set<string>, answer: string, guess: string, k: string)
    requires |guess| == WORD_LENGTH && |answer| == WORD_LENGTH
    requires forall a :: a in done ==> |a| == WORD_LENGTH
    requires answer !in done && TallyOf(bins, done, guess)
    ensures var key := Score(answer, guess);
            var bumped := bins[key := (if key in bins then bins[key] else 0) + 1];
            && (k in bumped <==> |Bin(done + {answer}, guess, k)| > 0)
            && (k in bumped ==> bumped[k] == |Bin(done + {answer}, guess, k)|)
  {
    BinGrows(done, answer, guess, k);
    if k == Score(answer, guess) {
      assert answer !in Bin(done, guess, k);
      assert answer in Bin(done + {answer}, guess, k);
    }
  }

  lemma TallyStep(bins: map<string, nat>, done: set<string>, answer: string, guess: string)
    requires |guess| == WORD_LENGTH && |answer| == WORD_LENGTH
    requires forall a :: a in done ==> |a| == WORD_LENGTH
    requires answer !in done && TallyOf(bins, done, guess)
    ensures var key := Score(answer, guess);
            TallyOf(bins[key := (if key in bins then bins[key] else 0) + 1], done + {answer}, guess)
  {
    forall k {
      TallyStepAt(bins, done, answer, guess, k);
    }
  }

  lemma TotalBump(bins: map<string, nat>, key: string)
    ensures Total(bins[key := (if key in bins then bins[key] else 0) + 1]) == Total(bins) + 1
  {
    var bumped := bins[key := (if key in bins then bins[key] else 0) + 1];
    TotalWithout(bumped, key);
    assert bumped - {key} == bins - {key};
    if key in bins {
      TotalWithout(bins, key);
    } else {
      assert bins - {key} == bins;
    }
  }

  /** Counting one more answer keeps the tally exact and its total equal to the answers counted. */
  lemma TallyAdvance(bins: map<string, nat>, done: set<string>, answer: string, guess: string)
    requires |guess| == WORD_LENGTH && |answer| == WORD_LENGTH
    requires forall a :: a in done ==> |a| == WORD_LENGTH
    requires answer !in done && TallyOf(bins, done, guess) && Total(bins) == |done|
    ensures var key := Score(answer, guess);
            var bumped := bins[key := (if key in bins then bins[key] else 0) + 1];
            TallyOf(bumped, done + {answer}, guess) && Total(bumped) == |done + {answer}|
  {
    TotalBump(bins, Score(answer, guess));
    TallyStep(bins, done, answer, guess);
  }

  /** `++bins[compare(answer, guess)]`: one answer counted into the tally. */
  method CountAnswer(bins: map<string, nat>, ghost done: set<string>, answer: string, guess: string)
    returns (bins': map<string, nat>)
    requires |guess| == WORD_LENGTH && |answer| == WORD_LENGTH
    requires forall a :: a in done ==> |a| == WORD_LENGTH
    requires answer !in done && TallyOf(bins, done, guess) && Total(bins) == |done|
    ensures TallyOf(bins', done + {answer}, guess) && Total(bins') == |done + {answer}|
  {
    var key := Compare(answer, guess);
    TallyAdvance(bins, done, answer, guess);
    bins' := bins[key := (if key in bins then bins[key] else 0) + 1];
  }

  /**
   * The bin tally of iterate_over_subset_of_words for one guess: each
   * answer increments the count of the result it produces.
   */
  method TallyBins(answers: set<string>, guess: string) returns (bins: map<string, nat>)
    requires |guess| == WORD_LENGTH
    requires forall a :: a in answers ==> |a| == WORD_LENGTH
    ensures forall key :: key in bins <==> |Bin(answers, guess, key)| > 0
    ensures forall key :: key in bins ==> bins[key] == |Bin(answers, guess, key)|
    ensures Total(bins) == |answers|
  {
    bins := map[];
    var rest := answers;
    while rest != {}
      invariant rest <= answers
      invariant TallyOf(bins, answers - rest, guess) && Total(bins) == |answers - rest|
      decreases |rest|
    {
      var answer :| answer in rest;
      MoveToDone(answers, rest, answer);
      bins := CountAnswer(bins, answers - rest, answer, guess);
      rest := rest - {answer};
    }
  }

  /** Taking one answer out of the unvisited ones adds it to the visited ones. */
  lemma MoveToDone(answers: set<string>, rest: set<string>, answer: string)
    requires answer in rest && rest <= answers
    ensures answer !in answers - rest
    ensures answers - (rest - {answer}) == (answers - rest) + {answer}
    ensures rest - {answer} <= answers && |rest - {answer}| < |rest|
  {
  }

  /**
   * NUM_THREADS: the user's limit, capped by the hardware's parallelism,
   * with 1 standing in when the hardware reports 0.
   */
  function NumThreads(hardwareThreads: nat): (n: nat)
    requires hardwareThreads < 0x1_0000_0000  // hardware_concurrency returns an unsigned int
    ensures 1 <= n <= THREADS_LIMIT
    ensures hardwareThreads > 0 ==> n == hardwareThreads
    ensures hardwareThreads == 0 ==> n == 1
  {
    Min(THREADS_LIMIT, if hardwareThreads > 0 then hardwareThreads else 1)
  }

  /** Index j lies in the half-open range `chunk`. */
  predicate Covers(chunk: (nat, nat), j: nat) {
    chunk.0 <= j < chunk.1
  }

  predicate InSomeChunk(chunks: seq<(nat, nat)>, j: nat) {
    exists i :: 0 <= i < |chunks| && Covers(chunks[i], j)
  }

  /** Half-open ranges laid end to end from 0 to n. */
  predicate Tiles(chunks: seq<(nat, nat)>, n: nat) {
    && |chunks| > 0
    && chunks[0].0 == 0
    && chunks[|chunks| - 1].1 == n
    && (forall i :: 0 <= i < |chunks| ==> chunks[i].0 <= chunks[i].1)
    && (forall i :: 0 <= i < |chunks| - 1 ==> chunks[i].1 == chunks[i + 1].0)
  }

  /** Ranges laid end to end cover [0, n), and no index lies in two of them. */
  lemma {:induction false} TilesPartition(chunks: seq<(nat, nat)>, n: nat)
    requires Tiles(chunks, n)
    ensures forall j :: 0 <= j < n ==> InSomeChunk(chunks, j)
    ensures forall i, k :: 0 <= i < k < |chunks| ==> chunks[i].1 <= chunks[k].0
  {
    OrderedChunks(chunks, n);
    forall j | 0 <= j < n
      ensures InSomeChunk(chunks, j)
    {
      CoveredBy(chunks, n, j, |chunks|);
    }
  }

  lemma {:induction false} OrderedChunks(chunks: seq<(nat, nat)>, n: nat)
    requires Tiles(chunks, n)
    ensures forall i, k :: 0 <= i < k < |chunks| ==> chunks[i].1 <= chunks[k].0
  {
    forall i, k | 0 <= i < k < |chunks| ensures chunks[i].1 <= chunks[k].0 {
      var m := i + 1;
      while m < k
        invariant i + 1 <= m <= k
        invariant chunks[i].1 <= chunks[m].0
      {
        m := m + 1;
      }
    }
  }

  lemma {:induction false} CoveredBy(chunks: seq<(nat, nat)>, n: nat, j: nat, m: nat)
    requires Tiles(chunks, n) && 0 < m <= |chunks|
    requires j < chunks[m - 1].1
    ensures exists i :: 0 <= i < m && Covers(chunks[i], j)
  {
    if chunks[m - 1].0 <= j {
      assert Covers(chunks[m - 1], j);
    } else {
      CoveredBy(chunks, n, j, m - 1);
    }
  }

  /**
   * The chunk bounds calculate_entropies hands to its workers: chunk i
   * starts at i * q with q = n / numThreads and is q long; the last one
   * also takes the n % numThreads left over.
   */
  method PartitionGuesses(n: nat, numThreads: nat) returns (chunks: seq<(nat, nat)>)
    requires numThreads >= 1
    ensures |chunks| == numThreads
    ensures Tiles(chunks, n)
    ensures forall i :: 0 <= i < numThreads - 1 ==> chunks[i].1 - chunks[i].0 == n / numThreads
    ensures chunks[numThreads - 1].1 - chunks[numThreads - 1].0 == n / numThreads + n % numThreads
    ensures forall i :: 0 <= i < numThreads ==> chunks[i].0 == i * (n / numThreads)
    ensures forall j :: 0 <= j < n ==> InSomeChunk(chunks, j)
    ensures forall i, k :: 0 <= i < k < numThreads ==> chunks[i].1 <= chunks[k].0
  {
    var guessesPerThread := n / numThreads;
    chunks := [];
    for i := 0 to numThreads
      invariant |chunks| == i
      invariant forall k :: 0 <= k < i ==> chunks[k].0 == k * guessesPerThread
      invariant forall k :: 0 <= k < i ==>
        chunks[k].1 == chunks[k].0 + guessesPerThread + (if k == numThreads - 1 then n % numThreads else 0)
    {
      var first := i * guessesPerThread;
      var last := first + guessesPerThread;
      if i == numThreads - 1 {
        last := last + n % numThreads;
      }
      chunks := chunks + [(first, last)];
    }
    ChunksTile(chunks, n, numThreads);
    TilesPartition(chunks, n);
  }

  /** Chunks of q = n / numThreads laid from 0, the last one stretched by n % numThreads, tile [0, n). */
  lemma ChunksTile(chunks: seq<(nat, nat)>, n: nat, numThreads: nat)
    requires numThreads >= 1 && |chunks| == numThreads
    requires forall k :: 0 <= k < numThreads ==> chunks[k].0 == k * (n / numThreads)
    requires forall k :: 0 <= k < numThreads ==>
      chunks[k].1 == chunks[k].0 + n / numThreads + (if k == numThreads - 1 then n % numThreads else 0)
    ensures Tiles(chunks, n)
  {
    var q := n / numThreads;
    forall k | 0 <= k < numThreads - 1 ensures chunks[k].1 == chunks[k + 1].0 {
      NextStart(k, q);
    }
    NextStart(numThreads - 1, q);
    DivMod(n, numThreads);
  }

  lemma NextStart(k: nat, q: nat)
    ensures k * q + q == (k + 1) * q
  {
  }

  lemma DivMod(n: nat, d: nat)
    requires d >= 1
    ensures (d - 1) * (n / d) + n / d + n % d == n
  {
    NextStart(d - 1, n / d);
  }
}

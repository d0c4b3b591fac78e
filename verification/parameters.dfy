// Constants and the shapes of words and results (parameters.h, and the
// validation patterns main.cpp builds from WORD_LENGTH).
module Parameters {

  /** Number of letters in a word (parameters.h). */
  const WORD_LENGTH: nat := 5

  /** Upper bound on the number of rounds of the game loop (parameters.h). */
  const ROUNDS: nat := 20

  /** The user's cap on worker threads: the largest unsigned long (parameters.h). */
  const THREADS_LIMIT: nat := 0xFFFF_FFFF_FFFF_FFFF

  /** The value a position of known_letters holds while nothing is known there. */
  const UNSET: char := '\0'

  /** The result that ends the game. */
  const ALL_GREEN: string := "ggggg"

  predicate IsLetter(c: char) {
    'a' <= c <= 'z'
  }

  /** A word as the pattern [a-z]{WORD_LENGTH} accepts it. */
  predicate IsWord(w: string) {
    |w| == WORD_LENGTH && forall i :: 0 <= i < |w| ==> IsLetter(w[i])
  }

  /** One result symbol: green, yellow or black. */
  predicate IsMark(c: char) {
    c == 'g' || c == 'y' || c == 'b'
  }

  /** A result as the pattern [byg]{WORD_LENGTH} accepts it. */
  predicate IsResult(r: string) {
    |r| == WORD_LENGTH && forall i :: 0 <= i < |r| ==> IsMark(r[i])
  }
}

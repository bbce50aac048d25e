/**
 * The state tables of the sentence and word break iterators, internal/engine/breakiter.go. State 0
 * stops and state 1 starts.
 */
module BreakRules {

  /** lookahead states save the position after them, or, when they also accept, go back to the saved one. */
  datatype Rules = Rules(
    categories: nat,
    forward: seq<seq<nat>>,
    backward: seq<seq<nat>>,
    accepting: set<nat>,
    lookahead: set<nat>)

  predicate Rows(table: seq<seq<nat>>, width: nat) {
    forall s :: 0 <= s < |table| ==> |table[s]| == width && forall t :: t in table[s] ==> t < |table|
  }

  /** armed: the states in which a position has been saved. */
  predicate Arms(r: Rules, armed: set<nat>) {
    && 1 !in armed
    && (forall t :: t in r.accepting && t in r.lookahead ==> t in armed)
    && forall s :: 0 <= s < |r.forward| && s !in armed ==>
         forall t :: t in r.forward[s] && t in armed ==> t in r.lookahead && t !in r.accepting
  }

  /** What the iterator relies on. */
  ghost predicate Good(r: Rules) {
    && |r.forward| > 1 && Rows(r.forward, r.categories)
    && |r.backward| > 1 && Rows(r.backward, r.categories) && 0 !in r.backward[1]
    && 0 !in r.accepting && 0 !in r.lookahead
    && exists armed :: Arms(r, armed)
  }

  const SENTENCE_FORWARD: seq<seq<nat>> :=
    [
      // ,  PS  .  "   ?   A  a  danda other 9  )   (  space
      [0, 0, 0, 0, 0, 0, 0, 0, 0, 0, 0, 0, 0],
      [1, 2, 5, 1, 11, 1, 1, 3, 1, 1, 1, 1, 1],
      [0, 0, 0, 0, 0, 0, 0, 0, 0, 0, 0, 0, 0],
      [0, 0, 0, 0, 0, 0, 0, 0, 0, 0, 0, 0, 3],
      [0, 0, 0, 0, 0, 0, 0, 0, 0, 0, 0, 0, 0],
      [1, 2, 5, 9, 11, 1, 1, 8, 8, 1, 5, 8, 6],
      [1, 2, 5, 8, 11, 4, 1, 8, 8, 1, 1, 8, 7],
      [1, 2, 5, 10, 11, 4, 4, 10, 10, 1, 1, 10, 7],
      [1, 2, 5, 8, 11, 4, 4, 8, 8, 1, 1, 8, 1],
      [1, 2, 5, 9, 11, 4, 4, 10, 10, 1, 5, 10, 6],
      [0, 0, 0, 8, 0, 4, 4, 8, 8, 0, 0, 8, 0],
      [0, 2, 11, 11, 11, 0, 0, 0, 0, 0, 11, 0, 12],
      [0, 2, 0, 0, 0, 0, 0, 0, 0, 0, 0, 0, 12]
    ]

  const SENTENCE_BACKWARD: seq<seq<nat>> :=
    [
      [0, 0, 0, 0, 0, 0, 0, 0, 0, 0, 0, 0, 0],
      [9, 10, 10, 10, 10, 9, 3, 4, 4, 3, 10, 9, 10],
      [0, 0, 0, 0, 0, 0, 0, 0, 0, 0, 0, 0, 0],
      [9, 10, 10, 3, 2, 9, 3, 4, 4, 3, 7, 3, 5],
      [9, 10, 2, 4, 2, 9, 3, 4, 4, 3, 8, 4, 6],
      [9, 10, 10, 7, 2, 9, 3, 4, 4, 3, 7, 9, 5],
      [9, 10, 2, 8, 2, 9, 3, 4, 4, 3, 8, 9, 6],
      [9, 10, 10, 7, 2, 9, 3, 4, 4, 3, 7, 9, 10],
      [9, 10, 2, 8, 2, 9, 3, 4, 4, 3, 8, 9, 10],
      [9, 0, 10, 10, 0, 9, 3, 4, 4, 3, 10, 9, 10],
      [9, 0, 10, 10, 10, 9, 3, 4, 4, 3, 10, 9, 10]
    ]

  const SENTENCES := Rules(13, SENTENCE_FORWARD, SENTENCE_BACKWARD, {1, 2, 3, 4, 11, 12}, {4, 5, 6, 7, 9})

  const WORD_FORWARD: seq<seq<nat>> :=
    [
      [0, 0, 0, 0, 0, 0, 0, 0, 0, 0, 0, 0, 0, 0, 0, 0, 0, 0, 0, 0, 0, 0],
      [2, 12, 14, 15, 3, 16, 16, 9, 16, 14, 17, 2, 6, 8, 18, 19, 2, 8, 2, 16, 16, 16],
      [0, 0, 0, 0, 0, 0, 0, 0, 0, 0, 0, 0, 0, 0, 0, 0, 0, 0, 0, 0, 0, 0],
      [0, 3, 4, 0, 3, 5, 0, 0, 4, 0, 0, 3, 6, 0, 0, 0, 0, 0, 4, 0, 0, 4],
      [0, 0, 0, 0, 3, 0, 0, 0, 0, 0, 0, 0, 0, 0, 0, 0, 0, 0, 0, 0, 0, 0],
      [0, 0, 0, 0, 0, 0, 0, 0, 0, 0, 0, 0, 6, 0, 0, 0, 0, 0, 0, 0, 0, 0],
      [0, 6, 7, 0, 3, 0, 2, 0, 7, 0, 0, 6, 6, 0, 0, 0, 0, 0, 0, 7, 0, 0],
      [0, 0, 0, 0, 0, 0, 0, 0, 0, 0, 0, 0, 6, 0, 0, 0, 0, 0, 0, 0, 0, 0],
      [0, 8, 0, 0, 0, 0, 0, 9, 0, 0, 0, 8, 0, 8, 0, 0, 2, 8, 0, 0, 0, 0],
      [0, 0, 0, 0, 0, 0, 0, 0, 0, 0, 0, 0, 0, 0, 0, 0, 2, 0, 0, 0, 0, 0],
      [0, 10, 0, 0, 0, 0, 0, 0, 0, 0, 10, 0, 0, 0, 0, 10, 0, 0, 0, 0, 0, 0],
      [0, 11, 0, 0, 0, 0, 0, 0, 0, 0, 11, 0, 0, 0, 11, 0, 0, 0, 0, 0, 0, 0],
      [0, 12, 0, 0, 0, 0, 0, 0, 0, 0, 12, 0, 0, 0, 11, 10, 0, 0, 0, 0, 0, 0],
      [0, 0, 0, 13, 0, 0, 0, 0, 0, 0, 0, 0, 0, 0, 0, 0, 0, 0, 0, 0, 0, 0],
      [0, 16, 0, 0, 0, 0, 0, 0, 0, 0, 0, 16, 6, 0, 0, 0, 0, 0, 0, 0, 0, 0],
      [0, 16, 0, 13, 0, 0, 0, 0, 0, 0, 0, 16, 0, 0, 0, 0, 0, 0, 0, 0, 0, 0],
      [0, 16, 0, 0, 0, 0, 0, 0, 0, 0, 0, 16, 0, 0, 0, 0, 0, 0, 0, 0, 0, 0],
      [0, 17, 0, 0, 0, 0, 0, 0, 0, 0, 12, 16, 0, 0, 11, 10, 0, 0, 0, 0, 0, 0],
      [0, 18, 0, 0, 0, 0, 0, 0, 0, 0, 11, 16, 0, 0, 11, 0, 0, 0, 0, 0, 0, 0],
      [0, 19, 0, 0, 0, 0, 0, 0, 0, 0, 10, 16, 0, 0, 0, 10, 0, 0, 0, 0, 0, 0]
    ]

  const WORD_BACKWARD: seq<seq<nat>> :=
    [
      [0, 0, 0, 0, 0, 0, 0, 0, 0, 0, 0, 0, 0, 0, 0, 0, 0, 0, 0, 0, 0, 0],
      [2, 3, 4, 5, 6, 7, 8, 9, 4, 2, 10, 3, 11, 9, 12, 13, 14, 9, 7, 8, 2, 7],
      [0, 0, 0, 0, 0, 0, 0, 0, 0, 0, 0, 0, 0, 0, 0, 0, 0, 0, 0, 0, 0, 0],
      [0, 3, 4, 5, 6, 7, 8, 0, 4, 2, 10, 3, 11, 9, 12, 13, 0, 9, 0, 8, 2, 7],
      [0, 3, 0, 0, 6, 0, 0, 0, 0, 0, 0, 3, 11, 0, 0, 0, 0, 0, 0, 0, 0, 0],
      [0, 0, 0, 5, 0, 0, 0, 0, 0, 0, 0, 0, 0, 0, 0, 0, 0, 0, 0, 0, 0, 0],
      [0, 3, 4, 0, 6, 0, 0, 0, 4, 0, 0, 3, 11, 0, 0, 0, 0, 0, 7, 0, 0, 7],
      [0, 3, 0, 0, 6, 0, 0, 0, 0, 0, 0, 3, 0, 0, 0, 0, 0, 0, 0, 0, 0, 0],
      [0, 3, 0, 0, 0, 0, 0, 0, 0, 0, 0, 3, 11, 0, 0, 0, 0, 0, 0, 0, 0, 0],
      [0, 3, 0, 0, 0, 0, 0, 0, 0, 0, 0, 3, 0, 9, 0, 0, 0, 9, 0, 0, 0, 0],
      [0, 3, 0, 0, 0, 0, 0, 0, 0, 0, 10, 0, 0, 0, 12, 13, 0, 0, 0, 0, 0, 0],
      [0, 3, 4, 0, 6, 7, 0, 0, 4, 2, 0, 3, 11, 0, 0, 0, 0, 0, 0, 8, 0, 0],
      [0, 3, 0, 0, 0, 0, 0, 0, 0, 0, 10, 0, 0, 0, 12, 0, 0, 0, 0, 0, 0, 0],
      [0, 3, 0, 0, 0, 0, 0, 0, 0, 0, 10, 0, 0, 0, 0, 13, 0, 0, 0, 0, 0, 0],
      [0, 3, 0, 0, 0, 0, 0, 9, 0, 0, 0, 3, 0, 9, 0, 0, 0, 9, 0, 0, 0, 0]
    ]

  const WORDS := Rules(22, WORD_FORWARD, WORD_BACKWARD, {1, 2, 3, 5, 6, 8, 9, 10, 11, 12, 13, 14, 15, 16, 17, 18, 19}, {})

  /** The rows from `lo` up to `hi` have the width, and lead to one of n states. */
  predicate RowsFrom(table: seq<seq<nat>>, width: nat, n: nat, lo: nat, hi: nat) {
    forall s :: lo <= s < hi && s < |table| ==> |table[s]| == width && forall t :: t in table[s] ==> t < n
  }

  lemma SentenceForward()
    ensures |SENTENCE_FORWARD| == 13 && RowsFrom(SENTENCE_FORWARD, 13, 13, 0, 13)
  {
  }

  lemma SentenceBackward()
    ensures |SENTENCE_BACKWARD| == 11 && RowsFrom(SENTENCE_BACKWARD, 13, 11, 0, 11) && 0 !in SENTENCE_BACKWARD[1]
  {
  }

  lemma WordForwardSize()
    ensures |WORD_FORWARD| == 20
  {
  }

  lemma WordForwardLow()
    ensures RowsFrom(WORD_FORWARD, 22, 20, 0, 10)
  {
  }

  lemma WordForwardHigh()
    ensures RowsFrom(WORD_FORWARD, 22, 20, 10, 20)
  {
  }

  lemma WordBackward()
    ensures |WORD_BACKWARD| == 15 && RowsFrom(WORD_BACKWARD, 22, 15, 0, 15) && 0 !in WORD_BACKWARD[1]
  {
  }

  /** Once a period has been read, a position is saved until the sentence goes on. */
  lemma SentencesArm()
    ensures Arms(SENTENCES, {4, 5, 6, 7, 8, 9, 10})
  {
  }

  lemma GoodFrom(r: Rules, armed: set<nat>)
    requires |r.forward| > 1 && RowsFrom(r.forward, r.categories, |r.forward|, 0, |r.forward|)
    requires |r.backward| > 1 && RowsFrom(r.backward, r.categories, |r.backward|, 0, |r.backward|) && 0 !in r.backward[1]
    requires 0 !in r.accepting && 0 !in r.lookahead && Arms(r, armed)
    ensures Good(r)
  {
  }

  lemma SentencesGood()
    ensures Good(SENTENCES)
  {
    SentenceForward();
    SentenceBackward();
    SentencesArm();
    GoodFrom(SENTENCES, {4, 5, 6, 7, 8, 9, 10});
  }

  lemma NoLookahead(r: Rules)
    requires r.lookahead == {}
    ensures Arms(r, {})
  {
  }

  lemma WordsGood()
    ensures Good(WORDS)
  {
    WordForwardSize();
    WordForwardLow();
    WordForwardHigh();
    WordBackward();
    NoLookahead(WORDS);
    GoodFrom(WORDS, {});
  }
}

/**
 * Where sentences and words break, in terms of the categories of their characters: laws of the
 * tables of internal/engine/breakiter.go.
 */
module BreakLaws {
  import opened BreakRules
  import opened BreakMachines

  // ---------------------------------------------------------------- runs of characters

  /** The character at p has one of the categories; -1 is skipped by the tables. */
  ghost predicate At(m: Machine, text: seq<Unit>, p: nat, cats: set<int>)
    requires Works(m)
  {
    p < |text| && CharAt(text, p) != END_CHAR && Category(m, CharAt(text, p)) in cats
  }

  /** From p to q there are characters of these categories. */
  ghost predicate Run(m: Machine, text: seq<Unit>, p: nat, q: nat, cats: set<int>)
    requires Works(m)
    decreases |text| - p
  {
    p == q <= |text| || (At(m, text, p, cats) && Run(m, text, p + Count(text, p), q, cats))
  }

  /** One character of the first categories and then any of the others. */
  ghost predicate Led(m: Machine, text: seq<Unit>, p: nat, q: nat, first: set<int>, cats: set<int>)
    requires Works(m)
  {
    At(m, text, p, first) && Run(m, text, p + Count(text, p), q, cats)
  }

  lemma {:induction false} RunBounds(m: Machine, text: seq<Unit>, p: nat, q: nat, cats: set<int>)
    requires Works(m) && Run(m, text, p, q, cats)
    ensures p <= q <= |text|
    decreases |text| - p
  {
    if p != q {
      RunBounds(m, text, p + Count(text, p), q, cats);
    }
  }

  /** The forward machine at p, where the text may end. */
  function From(m: Machine, text: seq<Unit>, p: nat, k: Marks): nat
    requires Works(m) && InTable(m, k.state)
  {
    if p >= |text| then AtEnd(text, k) else Forward(m, text, p, k)
  }

  /** Where the table goes from a state. */
  ghost predicate Goes(r: Rules, from: set<nat>, cats: set<int>, to: set<nat>) {
    forall s, c :: s in from && c in cats && s < |r.forward| && 0 <= c < |r.forward[s]| ==> r.forward[s][c] in to
  }

  ghost predicate Stays(r: Rules, states: set<nat>, cats: set<int>) {
    Goes(r, states, cats, states)
  }

  ghost predicate Ending(r: Rules, states: set<nat>) {
    forall s :: s in states ==> s in r.accepting && s !in r.lookahead
  }

  ghost predicate Saving(r: Rules, states: set<nat>) {
    forall s :: s in states ==> s in r.lookahead && s !in r.accepting
  }

  ghost predicate Passing(r: Rules, states: set<nat>) {
    forall s :: s in states ==> s !in r.lookahead && s !in r.accepting && s != 0
  }

  lemma FromStep(m: Machine, text: seq<Unit>, p: nat, k: Marks, to: set<nat>, cats: set<int>)
    requires Works(m) && InTable(m, k.state) && At(m, text, p, cats) && k.state != 0
    requires Goes(m.rules, {k.state}, cats, to) && (-1 in cats ==> k.state in to)
    ensures Feed(m, text, p, k).state in to && From(m, text, p, k) == From(m, text, p + Count(text, p), Feed(m, text, p, k))
    ensures Ending(m.rules, to) ==> Feed(m, text, p, k) == Marks(Feed(m, text, p, k).state, k.lookahead, p + Count(text, p))
    ensures Saving(m.rules, to) ==> Feed(m, text, p, k) == Marks(Feed(m, text, p, k).state, p + Count(text, p), k.result)
    ensures Passing(m.rules, to) ==> Feed(m, text, p, k) == Marks(Feed(m, text, p, k).state, k.lookahead, k.result)
  {
    ForwardStays(m.rules, k.state, Category(m, CharAt(text, p)));
  }

  /** Through characters that keep to accepting states, the break moves along. */
  lemma {:induction false} EndingRun(m: Machine, text: seq<Unit>, p: nat, q: nat, k: Marks, states: set<nat>, cats: set<int>)
    returns (s: nat)
    requires Works(m) && Run(m, text, p, q, cats) && InTable(m, k.state) && k.state in states && k.result == p
    requires Stays(m.rules, states, cats) && Ending(m.rules, states)
    ensures InTable(m, s) && s in states && From(m, text, p, k) == From(m, text, q, Marks(s, k.lookahead, q))
    decreases |text| - p
  {
    if p == q {
      s := k.state;
    } else {
      FromStep(m, text, p, k, states, cats);
      s := EndingRun(m, text, p + Count(text, p), q, Feed(m, text, p, k), states, cats);
    }
  }

  /** Through characters that keep to saving states, the saved position moves along. */
  lemma {:induction false} SavingRun(m: Machine, text: seq<Unit>, p: nat, q: nat, k: Marks, states: set<nat>, cats: set<int>)
    returns (s: nat)
    requires Works(m) && Run(m, text, p, q, cats) && InTable(m, k.state) && k.state in states && k.lookahead == p
    requires Stays(m.rules, states, cats) && Saving(m.rules, states)
    ensures InTable(m, s) && s in states && From(m, text, p, k) == From(m, text, q, Marks(s, q, k.result))
    decreases |text| - p
  {
    if p == q {
      s := k.state;
    } else {
      FromStep(m, text, p, k, states, cats);
      s := SavingRun(m, text, p + Count(text, p), q, Feed(m, text, p, k), states, cats);
    }
  }

  /** Through characters that keep to other states, both stay. */
  lemma {:induction false} PassingRun(m: Machine, text: seq<Unit>, p: nat, q: nat, k: Marks, states: set<nat>, cats: set<int>)
    returns (s: nat)
    requires Works(m) && Run(m, text, p, q, cats) && InTable(m, k.state) && k.state in states
    requires Stays(m.rules, states, cats) && Passing(m.rules, states)
    ensures InTable(m, s) && s in states && From(m, text, p, k) == From(m, text, q, Marks(s, k.lookahead, k.result))
    decreases |text| - p
  {
    if p == q {
      s := k.state;
    } else {
      FromStep(m, text, p, k, states, cats);
      s := PassingRun(m, text, p + Count(text, p), q, Feed(m, text, p, k), states, cats);
    }
  }

  lemma EndingLed(m: Machine, text: seq<Unit>, p: nat, q: nat, k: Marks, first: set<int>, cats: set<int>, to: set<nat>) returns (s: nat)
    requires Works(m) && Led(m, text, p, q, first, cats) && -1 !in first && InTable(m, k.state) && k.state != 0
    requires Goes(m.rules, {k.state}, first, to) && Stays(m.rules, to, cats) && Ending(m.rules, to)
    ensures InTable(m, s) && s in to && From(m, text, p, k) == From(m, text, q, Marks(s, k.lookahead, q))
  {
    FromStep(m, text, p, k, to, first);
    s := EndingRun(m, text, p + Count(text, p), q, Feed(m, text, p, k), to, cats);
  }

  lemma SavingLed(m: Machine, text: seq<Unit>, p: nat, q: nat, k: Marks, first: set<int>, cats: set<int>, to: set<nat>) returns (s: nat)
    requires Works(m) && Led(m, text, p, q, first, cats) && -1 !in first && InTable(m, k.state) && k.state != 0
    requires Goes(m.rules, {k.state}, first, to) && Stays(m.rules, to, cats) && Saving(m.rules, to)
    ensures InTable(m, s) && s in to && From(m, text, p, k) == From(m, text, q, Marks(s, q, k.result))
  {
    FromStep(m, text, p, k, to, first);
    s := SavingRun(m, text, p + Count(text, p), q, Feed(m, text, p, k), to, cats);
  }

  lemma PassingLed(m: Machine, text: seq<Unit>, p: nat, q: nat, k: Marks, first: set<int>, cats: set<int>, to: set<nat>) returns (s: nat)
    requires Works(m) && Led(m, text, p, q, first, cats) && -1 !in first && InTable(m, k.state) && k.state != 0
    requires Goes(m.rules, {k.state}, first, to) && Stays(m.rules, to, cats) && Passing(m.rules, to)
    ensures InTable(m, s) && s in to && From(m, text, p, k) == From(m, text, q, Marks(s, k.lookahead, k.result))
  {
    FromStep(m, text, p, k, to, first);
    s := PassingRun(m, text, p + Count(text, p), q, Feed(m, text, p, k), to, cats);
  }

  /** Nothing more comes, or a character that stops the machine. */
  ghost predicate Over(m: Machine, text: seq<Unit>, q: nat, stops: set<int>)
    requires Works(m)
  {
    -1 !in stops && (CharAt(text, q) == END_CHAR || At(m, text, q, stops))
  }

  lemma StopsThere(m: Machine, text: seq<Unit>, q: nat, k: Marks, stops: set<int>)
    requires Works(m) && InTable(m, k.state) && k.state != 0 && k.lookahead < |text|
    requires Over(m, text, q, stops) && Goes(m.rules, {k.state}, stops, {0})
    ensures From(m, text, q, k) == k.result
  {
    if CharAt(text, q) != END_CHAR {
      FromStep(m, text, q, k, {0}, stops);
    }
  }

  lemma FromStart(m: Machine, text: seq<Unit>, start: nat)
    requires Works(m) && start < |text|
    ensures NextBreak(m, text, start) == From(m, text, start, Marks(1, 0, start + Count(text, start)))
  {
  }

  /** A position that was saved before is forgotten in a state that is not armed. */
  lemma {:induction false} Forgets(m: Machine, text: seq<Unit>, p: nat, k: Marks, v: nat, armed: set<nat>)
    requires Works(m) && Arms(m.rules, armed) && InTable(m, k.state) && k.state !in armed
    requires k.lookahead < |text| && v < |text|
    ensures From(m, text, p, k) == From(m, text, p, k.(lookahead := v))
    decreases |text| - p
  {
    if p < |text| && CharAt(text, p) != END_CHAR && k.state != 0 {
      var next := p + Count(text, p);
      var k1, k2 := Feed(m, text, p, k), Feed(m, text, p, k.(lookahead := v));
      ArmedStep(m, text, p, k, v, armed);
      if k1 != k2 {
        Forgets(m, text, next, k1, v, armed);
      }
    }
  }

  lemma ArmedStep(m: Machine, text: seq<Unit>, p: nat, k: Marks, v: nat, armed: set<nat>)
    requires Works(m) && Arms(m.rules, armed) && InTable(m, k.state) && k.state !in armed
    requires p < |text| && CharAt(text, p) != END_CHAR && k.state != 0
    ensures var k1, k2 := Feed(m, text, p, k), Feed(m, text, p, k.(lookahead := v));
            k1 == k2 || (k1.state !in armed && k1.lookahead == k.lookahead && k2 == k1.(lookahead := v))
    ensures From(m, text, p, k) == From(m, text, p + Count(text, p), Feed(m, text, p, k))
    ensures From(m, text, p, k.(lookahead := v)) == From(m, text, p + Count(text, p), Feed(m, text, p, k.(lookahead := v)))
  {
    var cat := Category(m, CharAt(text, p));
    ForwardStays(m.rules, k.state, cat);
    if cat >= 0 {
      assert m.rules.forward[k.state][cat] in m.rules.forward[k.state];
    }
  }

  /** Where a state goes on as the start does, the break is the next one from there. */
  lemma GoesOn(m: Machine, text: seq<Unit>, q: nat, k: Marks, cats: set<int>, to: nat, armed: set<nat>)
    requires Works(m) && Arms(m.rules, armed) && InTable(m, k.state) && k.state != 0 && k.lookahead < |text|
    requires At(m, text, q, cats) && (-1 in cats ==> k.state == 1 == to)
    requires Goes(m.rules, {k.state, 1}, cats, {to}) && Ending(m.rules, {to}) && to !in armed
    ensures From(m, text, q, k) == NextBreak(m, text, q)
  {
    var k0 := Marks(1, 0, q + Count(text, q));
    FromStart(m, text, q);
    FromStep(m, text, q, k, {to}, cats);
    FromStep(m, text, q, k0, {to}, cats);
    Forgets(m, text, q + Count(text, q), Feed(m, text, q, k), 0, armed);
  }

  // ---------------------------------------------------------------- sentences

  const COMMA := 0
  const PARAGRAPH := 1
  const PERIOD := 2
  const QUOTE := 3
  const TERMINATOR := 4
  const UPPER := 5
  const LOWER := 6
  const DANDA := 7
  const DIGIT := 9
  const CLOSE := 10
  const SPACE := 12

  /** What does not end a sentence: all but paragraph separators, periods, terminators and dandas. */
  const TEXT: set<int> := {-1, 0, 3, 5, 6, 8, 9, 10, 11, 12}

  /** What may stand between the spaces after a period and a sentence: dandas, symbols, openers and quotes. */
  const OPENERS: set<int> := {3, 7, 8, 11}

  /** Every category but the skipped one. */
  const ALL: set<int> := {0, 1, 2, 3, 4, 5, 6, 7, 8, 9, 10, 11, 12}

  const SENTENCE_ARMED: set<nat> := {4, 5, 6, 7, 8, 9, 10}

  ghost predicate Sentences(m: Machine) { m.rules == SENTENCES }

  lemma TextTable(m: Machine)
    requires Sentences(m)
    ensures Stays(m.rules, {1}, TEXT) && Ending(m.rules, {1})
    ensures Goes(m.rules, {1}, {PARAGRAPH}, {2}) && Goes(m.rules, {1}, {PERIOD}, {5})
    ensures Goes(m.rules, {1}, {TERMINATOR}, {11}) && Goes(m.rules, {1}, {DANDA}, {3})
  {
  }

  lemma ArmedTable(m: Machine)
    requires Sentences(m)
    ensures Arms(m.rules, SENTENCE_ARMED)
  {
    SentencesArm();
  }

  /** Through text the machine stays as it started. */
  lemma ThroughText(m: Machine, text: seq<Unit>, start: nat, p: nat) returns (r: nat)
    requires Works(m) && Sentences(m) && start < |text| && Run(m, text, start, p, TEXT)
    ensures NextBreak(m, text, start) == From(m, text, p, Marks(1, 0, r)) && (start < p ==> r == p)
  {
    hide Sentences;
    TextTable(m);
    RunBounds(m, text, start, p, TEXT);
    FromStart(m, text, start);
    r := start + Count(text, start);
    if start < p {
      FromStep(m, text, start, Marks(1, 0, r), {1}, TEXT);
      var s := EndingRun(m, text, r, p, Marks(1, 0, r), {1}, TEXT);
      r := p;
    }
  }

  /** No break inside text: it ends with the text, or the break is the one that comes after its last character. */
  lemma TextGoesOn(m: Machine, text: seq<Unit>, start: nat, q: nat)
    requires Works(m) && Sentences(m) && start < q && start < |text| && Run(m, text, start, q, TEXT)
    ensures CharAt(text, q) == END_CHAR ==> NextBreak(m, text, start) == q
    ensures At(m, text, q, TEXT) ==> NextBreak(m, text, start) == NextBreak(m, text, q)
  {
    hide Sentences;
    TextTable(m);
    ArmedTable(m);
    RunBounds(m, text, start, q, TEXT);
    var r := ThroughText(m, text, start, q);
    if At(m, text, q, TEXT) {
      GoesOn(m, text, q, Marks(1, 0, q), TEXT, 1, SENTENCE_ARMED);
    }
  }

  const AFTER_TERMINATOR: set<int> := {-1, 2, 3, 4, 10}

  const AFTER_PERIOD: set<int> := {-1, 2, 3, 10}

  lemma PeriodTable(m: Machine)
    requires Sentences(m)
    ensures |m.rules.forward| == 13 && Stays(m.rules, {5, 9}, AFTER_PERIOD) && Saving(m.rules, {5, 6, 7, 9})
    ensures Goes(m.rules, {5, 9}, {SPACE}, {6}) && Goes(m.rules, {6}, {SPACE}, {7}) && Stays(m.rules, {7}, {-1, SPACE})
  {
  }

  lemma SavingTable(m: Machine)
    requires Sentences(m)
    ensures Goes(m.rules, {6, 7}, OPENERS, {8, 10}) && Stays(m.rules, {8, 10}, OPENERS + {-1}) && Passing(m.rules, {8, 10})
    ensures Goes(m.rules, {6, 7, 8, 10}, {UPPER}, {4}) && Goes(m.rules, {7, 8, 10}, {LOWER}, {4})
  {
  }

  lemma LastTable(m: Machine)
    requires Sentences(m)
    ensures |m.rules.forward| == 13 && Goes(m.rules, {4}, ALL, {0}) && Goes(m.rules, {4}, {-1}, {4})
    ensures 4 in m.rules.lookahead && 4 in m.rules.accepting
  {
  }

  lemma ResumingTable(m: Machine)
    requires Sentences(m)
    ensures Goes(m.rules, {1, 5}, {COMMA, UPPER, LOWER, DIGIT}, {1})
    ensures Goes(m.rules, {1, 6}, {COMMA, LOWER, DIGIT, CLOSE}, {1}) && Goes(m.rules, {1, 7}, {COMMA, DIGIT, CLOSE}, {1})
  {
  }

  lemma EndTable(m: Machine)
    requires Sentences(m)
    ensures |m.rules.forward| == 13 && Ending(m.rules, {2, 3, 11, 12})
    ensures Stays(m.rules, {3}, {-1, SPACE}) && Goes(m.rules, {3}, ALL - {SPACE}, {0}) && Goes(m.rules, {2}, ALL, {0})
  {
  }

  lemma TerminatorTable(m: Machine)
    requires Sentences(m)
    ensures |m.rules.forward| == 13 && Ending(m.rules, {2, 11, 12})
    ensures Stays(m.rules, {11}, AFTER_TERMINATOR) && Goes(m.rules, {11}, {SPACE}, {12}) && Stays(m.rules, {12}, {-1, SPACE})
    ensures Goes(m.rules, {11}, {0, 5, 6, 7, 8, 9, 11}, {0}) && Goes(m.rules, {12}, ALL - {PARAGRAPH, SPACE}, {0})
  {
  }

  lemma SeparatorTable(m: Machine)
    requires Sentences(m)
    ensures Goes(m.rules, {11, 12}, {PARAGRAPH}, {2}) && Goes(m.rules, {2}, ALL, {0})
  {
  }

  lemma NoSpaceTable(m: Machine)
    requires Sentences(m)
    ensures Goes(m.rules, {1, 5, 9}, {COMMA, DIGIT}, {1}) && Stays(m.rules, {5}, {-1, PERIOD, CLOSE})
  {
  }

  lemma QuoteTable(m: Machine)
    requires Sentences(m)
    ensures Goes(m.rules, {5, 9}, {QUOTE}, {9}) && Stays(m.rules, {9}, {-1, QUOTE})
    ensures Goes(m.rules, {9}, {UPPER, LOWER}, {4}) && Goes(m.rules, {7}, OPENERS, {10})
    ensures Goes(m.rules, {10}, {0, 1, 2, 4, 9, 10, 12}, {0})
  {
  }

  /** After a period, closers and quotes: saved there, in one of two states. */
  lemma AtPeriod(m: Machine, text: seq<Unit>, start: nat, p: nat, q: nat, states: set<nat>, cats: set<int>)
    returns (s: nat, r: nat)
    requires Works(m) && Sentences(m) && start < |text| && Run(m, text, start, p, TEXT) && Led(m, text, p, q, {PERIOD}, cats)
    requires 5 in states && Stays(m.rules, states, cats) && Saving(m.rules, states)
    ensures s in states && InTable(m, s) && NextBreak(m, text, start) == From(m, text, q, Marks(s, q, r)) && (start < p ==> r == p)
  {
    hide Sentences, From, Run, Feed;
    TextTable(m);
    PeriodTable(m);
    r := ThroughText(m, text, start, p);
    s := SavingLed(m, text, p, q, Marks(1, 0, r), {PERIOD}, cats, states);
  }

  /** After one space behind them. */
  lemma AtSpace(m: Machine, text: seq<Unit>, start: nat, p: nat, q: nat, t: nat) returns (r: nat)
    requires Works(m) && Sentences(m) && start < |text| && Run(m, text, start, p, TEXT) && Led(m, text, p, q, {PERIOD}, AFTER_PERIOD)
    requires Led(m, text, q, t, {SPACE}, {-1})
    ensures NextBreak(m, text, start) == From(m, text, t, Marks(6, t, r)) && (start < p ==> r == p)
  {
    hide Sentences, From, Run, Feed;
    PeriodTable(m);
    var s;
    s, r := AtPeriod(m, text, start, p, q, {5, 9}, AFTER_PERIOD);
    var s' := SavingLed(m, text, q, t, Marks(s, q, r), {SPACE}, {-1}, {6});
  }

  /** After more spaces. */
  lemma AtSpaces(m: Machine, text: seq<Unit>, start: nat, p: nat, q: nat, t: nat, u: nat) returns (r: nat)
    requires Works(m) && Sentences(m) && start < |text| && Run(m, text, start, p, TEXT) && Led(m, text, p, q, {PERIOD}, AFTER_PERIOD)
    requires Led(m, text, q, t, {SPACE}, {-1}) && Led(m, text, t, u, {SPACE}, {-1, SPACE})
    ensures NextBreak(m, text, start) == From(m, text, u, Marks(7, u, r)) && (start < p ==> r == p)
  {
    hide Sentences, From, Run, Feed;
    PeriodTable(m);
    r := AtSpace(m, text, start, p, q, t);
    var s' := SavingLed(m, text, t, u, Marks(6, t, r), {SPACE}, {-1, SPACE}, {7});
  }

  /** A letter that goes to state 4 breaks at the saved position. */
  lemma GoesBack(m: Machine, text: seq<Unit>, q: nat, k: Marks, cats: set<int>)
    requires Works(m) && Sentences(m) && InTable(m, k.state) && k.state != 0 && k.lookahead < |text|
    requires At(m, text, q, cats) && -1 !in cats && Goes(m.rules, {k.state}, cats, {4})
    ensures From(m, text, q, k) == k.lookahead
  {
    hide Sentences;
    LastTable(m);
    FromStep(m, text, q, k, {4}, cats);
    StaysBack(m, text, q + Count(text, q), Feed(m, text, q, k));
  }

  lemma NotSkipped(m: Machine, text: seq<Unit>, q: nat)
    requires Works(m) && Sentences(m) && q < |text| && CharAt(text, q) != END_CHAR
    ensures At(m, text, q, ALL) || At(m, text, q, {-1})
  {
  }

  lemma {:induction false} StaysBack(m: Machine, text: seq<Unit>, q: nat, k: Marks)
    requires Works(m) && Sentences(m) && k.state == 4 && k.lookahead == k.result < |text|
    ensures From(m, text, q, k) == k.lookahead
    decreases |text| - q
  {
    hide Sentences, Goes, Run, Forward;
    LastTable(m);
    if CharAt(text, q) == END_CHAR || At(m, text, q, ALL) {
      StopsThere(m, text, q, k, ALL);
    } else {
      NotSkipped(m, text, q);
      FromStep(m, text, q, k, {4}, {-1});
      StaysBack(m, text, q + Count(text, q), Feed(m, text, q, k));
    }
  }

  /** A sentence ends with the spaces behind a period when an upper-case letter follows. */
  lemma PeriodUpper(m: Machine, text: seq<Unit>, start: nat, p: nat, q: nat, t: nat)
    requires Works(m) && Sentences(m) && start < |text| && Run(m, text, start, p, TEXT) && Led(m, text, p, q, {PERIOD}, AFTER_PERIOD)
    requires Led(m, text, q, t, {SPACE}, {-1}) && At(m, text, t, {UPPER})
    ensures NextBreak(m, text, start) == t
  {
    hide Sentences, From, Run, Feed;
    PeriodTable(m);
    SavingTable(m);
    var r := AtSpace(m, text, start, p, q, t);
    GoesBack(m, text, t, Marks(6, t, r), {UPPER});
  }

  /** With one space, it does not end before a lower-case letter, a comma, a digit or a closing character. */
  lemma PeriodLower(m: Machine, text: seq<Unit>, start: nat, p: nat, q: nat, t: nat)
    requires Works(m) && Sentences(m) && start < |text| && Run(m, text, start, p, TEXT) && Led(m, text, p, q, {PERIOD}, AFTER_PERIOD)
    requires Led(m, text, q, t, {SPACE}, {-1}) && At(m, text, t, {COMMA, LOWER, DIGIT, CLOSE})
    ensures NextBreak(m, text, start) == NextBreak(m, text, t)
  {
    hide Sentences, From, Run, Feed;
    TextTable(m);
    PeriodTable(m);
    ResumingTable(m);
    ArmedTable(m);
    var r := AtSpace(m, text, start, p, q, t);
    GoesOn(m, text, t, Marks(6, t, r), {COMMA, LOWER, DIGIT, CLOSE}, 1, SENTENCE_ARMED);
  }

  /** With more spaces, it ends before any letter. */
  lemma PeriodSpaces(m: Machine, text: seq<Unit>, start: nat, p: nat, q: nat, t: nat, u: nat)
    requires Works(m) && Sentences(m) && start < |text| && Run(m, text, start, p, TEXT) && Led(m, text, p, q, {PERIOD}, AFTER_PERIOD)
    requires Led(m, text, q, t, {SPACE}, {-1}) && Led(m, text, t, u, {SPACE}, {-1, SPACE})
    ensures At(m, text, u, {UPPER, LOWER}) ==> NextBreak(m, text, start) == u
    ensures At(m, text, u, {COMMA, DIGIT, CLOSE}) ==> NextBreak(m, text, start) == NextBreak(m, text, u)
  {
    hide Sentences, From, Run, Feed;
    TextTable(m);
    PeriodTable(m);
    SavingTable(m);
    ResumingTable(m);
    ArmedTable(m);
    var r := AtSpaces(m, text, start, p, q, t, u);
    if At(m, text, u, {UPPER, LOWER}) {
      GoesBack(m, text, u, Marks(7, u, r), {UPPER, LOWER});
    } else if At(m, text, u, {COMMA, DIGIT, CLOSE}) {
      GoesOn(m, text, u, Marks(7, u, r), {COMMA, DIGIT, CLOSE}, 1, SENTENCE_ARMED);
    }
  }

  /** Without a space, a comma or a digit goes on. */
  lemma PeriodNumber(m: Machine, text: seq<Unit>, start: nat, p: nat, q: nat)
    requires Works(m) && Sentences(m) && start < |text| && Run(m, text, start, p, TEXT) && Led(m, text, p, q, {PERIOD}, AFTER_PERIOD)
    requires At(m, text, q, {COMMA, DIGIT})
    ensures NextBreak(m, text, start) == NextBreak(m, text, q)
  {
    hide Sentences, From, Run, Feed;
    TextTable(m);
    PeriodTable(m);
    ResumingTable(m);
    NoSpaceTable(m);
    ArmedTable(m);
    var s, r := AtPeriod(m, text, start, p, q, {5, 9}, AFTER_PERIOD);
    GoesOn(m, text, q, Marks(s, q, r), {COMMA, DIGIT}, 1, SENTENCE_ARMED);
  }

  /** So does a letter, */
  lemma PeriodLetter(m: Machine, text: seq<Unit>, start: nat, p: nat, q: nat)
    requires Works(m) && Sentences(m) && start < |text| && Run(m, text, start, p, TEXT)
    requires Led(m, text, p, q, {PERIOD}, {-1, PERIOD, CLOSE}) && At(m, text, q, {UPPER, LOWER})
    ensures NextBreak(m, text, start) == NextBreak(m, text, q)
  {
    hide Sentences, From, Run, Feed;
    TextTable(m);
    PeriodTable(m);
    ResumingTable(m);
    NoSpaceTable(m);
    ArmedTable(m);
    var s, r := AtPeriod(m, text, start, p, q, {5}, {-1, PERIOD, CLOSE});
    GoesOn(m, text, q, Marks(s, q, r), {UPPER, LOWER}, 1, SENTENCE_ARMED);
  }

  /** unless it stands behind a quote. */
  lemma PeriodQuote(m: Machine, text: seq<Unit>, start: nat, p: nat, q: nat, t: nat)
    requires Works(m) && Sentences(m) && start < |text| && Run(m, text, start, p, TEXT) && Led(m, text, p, q, {PERIOD}, AFTER_PERIOD)
    requires Led(m, text, q, t, {QUOTE}, {-1, QUOTE}) && At(m, text, t, {UPPER, LOWER})
    ensures NextBreak(m, text, start) == t
  {
    hide Sentences, From, Run, Feed;
    PeriodTable(m);
    QuoteTable(m);
    var s, r := AtPeriod(m, text, start, p, q, {5, 9}, AFTER_PERIOD);
    var s' := SavingLed(m, text, q, t, Marks(s, q, r), {QUOTE}, {-1, QUOTE}, {9});
    GoesBack(m, text, t, Marks(9, t, r), {UPPER, LOWER});
  }

  /** A sentence ends before the openers that stand before a letter behind a period and spaces. */
  lemma PeriodOpeners(m: Machine, text: seq<Unit>, start: nat, p: nat, q: nat, t: nat, u: nat, v: nat)
    requires Works(m) && Sentences(m) && start < |text| && Run(m, text, start, p, TEXT) && Led(m, text, p, q, {PERIOD}, AFTER_PERIOD)
    requires Led(m, text, q, t, {SPACE}, {-1}) && (t == u || Led(m, text, t, u, {SPACE}, {-1, SPACE}))
    requires Led(m, text, u, v, OPENERS, OPENERS + {-1}) && At(m, text, v, {UPPER, LOWER})
    ensures NextBreak(m, text, start) == u
  {
    hide Sentences, From, Run, Feed;
    PeriodTable(m);
    SavingTable(m);
    var r, s := 0, 6;
    if t == u {
      r := AtSpace(m, text, start, p, q, t);
    } else {
      r := AtSpaces(m, text, start, p, q, t, u);
      s := 7;
    }
    var s' := PassingLed(m, text, u, v, Marks(s, u, r), OPENERS, OPENERS + {-1}, {8, 10});
    GoesBack(m, text, v, Marks(s', u, r), {UPPER, LOWER});
  }

  /**
   * Behind more than one space, one opener and then neither a letter nor an opener: the break is before
   * the period, when text stands before it.
   */
  lemma OpenerAlone(m: Machine, text: seq<Unit>, start: nat, p: nat, q: nat, t: nat, u: nat, v: nat)
    requires Works(m) && Sentences(m) && start < p && start < |text| && Run(m, text, start, p, TEXT) && Led(m, text, p, q, {PERIOD}, AFTER_PERIOD)
    requires Led(m, text, q, t, {SPACE}, {-1}) && Led(m, text, t, u, {SPACE}, {-1, SPACE})
    requires Led(m, text, u, v, OPENERS, {-1}) && Over(m, text, v, {0, 1, 2, 4, 9, 10, 12})
    ensures NextBreak(m, text, start) == p
  {
    hide Sentences, From, Run, Feed;
    PeriodTable(m);
    SavingTable(m);
    QuoteTable(m);
    var r := AtSpaces(m, text, start, p, q, t, u);
    var s := PassingLed(m, text, u, v, Marks(7, u, r), OPENERS, {-1}, {10});
    StopsThere(m, text, v, Marks(10, u, r), {0, 1, 2, 4, 9, 10, 12});
  }

  /** A text that ends in a period, with what closes it and spaces, is one sentence. */
  lemma PeriodAtEnd(m: Machine, text: seq<Unit>, start: nat, p: nat, q: nat, t: nat)
    requires Works(m) && Sentences(m) && start < |text| && Run(m, text, start, p, TEXT) && Led(m, text, p, q, {PERIOD}, AFTER_PERIOD)
    requires q == |text| || (Led(m, text, q, t, {SPACE}, {-1}) && (t == |text| || Led(m, text, t, |text|, {SPACE}, {-1, SPACE})))
    ensures NextBreak(m, text, start) == |text|
  {
    hide Sentences;
    PeriodTable(m);
    if q == |text| {
      var s, r := AtPeriod(m, text, start, p, q, {5, 9}, AFTER_PERIOD);
    } else if t == |text| {
      var r := AtSpace(m, text, start, p, q, t);
    } else {
      var r := AtSpaces(m, text, start, p, q, t, |text|);
    }
  }

  /** A paragraph separator ends the sentence. */
  lemma ParagraphEnds(m: Machine, text: seq<Unit>, start: nat, p: nat, q: nat)
    requires Works(m) && Sentences(m) && start < |text| && Run(m, text, start, p, TEXT) && Led(m, text, p, q, {PARAGRAPH}, {-1})
    requires Over(m, text, q, ALL)
    ensures NextBreak(m, text, start) == q
  {
    hide Sentences, From, Run, Feed;
    TextTable(m);
    EndTable(m);
    var r := ThroughText(m, text, start, p);
    var s := EndingLed(m, text, p, q, Marks(1, 0, r), {PARAGRAPH}, {-1}, {2});
    StopsThere(m, text, q, Marks(2, 0, q), ALL);
  }

  /** A danda ends it with the spaces behind. */
  lemma DandaEnds(m: Machine, text: seq<Unit>, start: nat, p: nat, q: nat)
    requires Works(m) && Sentences(m) && start < |text| && Run(m, text, start, p, TEXT) && Led(m, text, p, q, {DANDA}, {-1, SPACE})
    requires Over(m, text, q, ALL - {SPACE})
    ensures NextBreak(m, text, start) == q
  {
    hide Sentences, From, Run, Feed;
    TextTable(m);
    EndTable(m);
    var r := ThroughText(m, text, start, p);
    var s := EndingLed(m, text, p, q, Marks(1, 0, r), {DANDA}, {-1, SPACE}, {3});
    StopsThere(m, text, q, Marks(3, 0, q), ALL - {SPACE});
  }

  lemma AtTerminator(m: Machine, text: seq<Unit>, start: nat, p: nat, q: nat)
    requires Works(m) && Sentences(m) && start < |text| && Run(m, text, start, p, TEXT)
    requires Led(m, text, p, q, {TERMINATOR}, AFTER_TERMINATOR)
    ensures InTable(m, 11) && NextBreak(m, text, start) == From(m, text, q, Marks(11, 0, q))
  {
    hide Sentences, From, Run, Feed;
    TextTable(m);
    TerminatorTable(m);
    var r := ThroughText(m, text, start, p);
    var s := EndingLed(m, text, p, q, Marks(1, 0, r), {TERMINATOR}, AFTER_TERMINATOR, {11});
  }

  /** A terminator ends it with the terminators, periods, quotes, closers behind, */
  lemma TerminatorEnds(m: Machine, text: seq<Unit>, start: nat, p: nat, q: nat)
    requires Works(m) && Sentences(m) && start < |text| && Run(m, text, start, p, TEXT)
    requires Led(m, text, p, q, {TERMINATOR}, AFTER_TERMINATOR) && Over(m, text, q, {0, 5, 6, 7, 8, 9, 11})
    ensures NextBreak(m, text, start) == q
  {
    hide Sentences, From, Run, Feed;
    TerminatorTable(m);
    AtTerminator(m, text, start, p, q);
    StopsThere(m, text, q, Marks(11, 0, q), {0, 5, 6, 7, 8, 9, 11});
  }

  /** and the spaces behind those, */
  lemma TerminatorSpaces(m: Machine, text: seq<Unit>, start: nat, p: nat, q: nat, t: nat)
    requires Works(m) && Sentences(m) && start < |text| && Run(m, text, start, p, TEXT)
    requires Led(m, text, p, q, {TERMINATOR}, AFTER_TERMINATOR) && Led(m, text, q, t, {SPACE}, {-1, SPACE})
    requires Over(m, text, t, ALL - {PARAGRAPH, SPACE})
    ensures NextBreak(m, text, start) == t
  {
    hide Sentences, From, Run, Feed;
    TerminatorTable(m);
    AtTerminator(m, text, start, p, q);
    var s := EndingLed(m, text, q, t, Marks(11, 0, q), {SPACE}, {-1, SPACE}, {12});
    StopsThere(m, text, t, Marks(12, 0, t), ALL - {PARAGRAPH, SPACE});
  }

  /** with a paragraph separator after them. */
  lemma TerminatorParagraph(m: Machine, text: seq<Unit>, start: nat, p: nat, q: nat, t: nat, u: nat)
    requires Works(m) && Sentences(m) && start < |text| && Run(m, text, start, p, TEXT)
    requires Led(m, text, p, q, {TERMINATOR}, AFTER_TERMINATOR) && (q == t || Led(m, text, q, t, {SPACE}, {-1, SPACE}))
    requires Led(m, text, t, u, {PARAGRAPH}, {-1}) && Over(m, text, u, ALL)
    ensures NextBreak(m, text, start) == u
  {
    hide Sentences, From, Run, Feed;
    TerminatorTable(m);
    SeparatorTable(m);
    AtTerminator(m, text, start, p, q);
    var s := 11;
    if q != t {
        s := EndingLed(m, text, q, t, Marks(11, 0, q), {SPACE}, {-1, SPACE}, {12});
    }
    var s' := EndingLed(m, text, t, u, Marks(s, 0, t), {PARAGRAPH}, {-1}, {2});
    StopsThere(m, text, u, Marks(2, 0, u), ALL);
  }

  // ---------------------------------------------------------------- words

  const KANJI := 3
  const LETTER := 4
  const DANDA_WORD := 5
  const AFTER_NUMBER := 6
  const RETURN := 7
  const KANA_SIGN := 10
  const NUMBER := 12
  const HIRAGANA := 14
  const KATAKANA := 15
  const LINE_END := 16

  /** Every category but the skipped one. */
  const EVERY: set<int> := {0, 1, 2, 3, 4, 5, 6, 7, 8, 9, 10, 11, 12, 13, 14, 15, 16, 17, 18, 19, 20, 21}

  /** Marks stand with the character before them. */
  const MARKS: set<int> := {-1, 1, 11}

  /** Periods, quotes, soft hyphens and dashes inside words; periods, quotes and commas inside numbers. */
  const IN_WORDS: set<int> := {2, 8, 18, 21}
  const IN_NUMBERS: set<int> := {2, 8, 19}

  /** Spaces and tabs. */
  const BLANKS: set<int> := {13, 17}

  /** Characters that stand alone: control characters, marks, line ends, soft hyphens. */
  const ALONE: set<int> := {0, 11, 16, 18}

  const SYMBOLS: set<int> := {5, 6, 8, 19, 20, 21}

  /** Periods and currency signs. */
  const BEFORE_NUMBER: set<int> := {2, 9}

  ghost predicate Words(m: Machine) { m.rules == WORDS }

  /** A run that keeps to accepting states breaks where it is over, */
  lemma LedEnds(m: Machine, text: seq<Unit>, start: nat, q: nat, first: set<int>, cats: set<int>, states: set<nat>, stops: set<int>)
    requires Works(m) && start < |text| && Led(m, text, start, q, first, cats) && -1 !in first
    requires Goes(m.rules, {1}, first, states) && Stays(m.rules, states, cats) && Ending(m.rules, states)
    requires Over(m, text, q, stops) && Goes(m.rules, states, stops, {0})
    ensures NextBreak(m, text, start) == q
  {
    var s := LedTo(m, text, start, q, first, cats, states);
    StopsThere(m, text, q, Marks(s, 0, q), stops);
  }

  lemma LedTo(m: Machine, text: seq<Unit>, start: nat, q: nat, first: set<int>, cats: set<int>, states: set<nat>) returns (s: nat)
    requires Works(m) && start < |text| && Led(m, text, start, q, first, cats) && -1 !in first
    requires Goes(m.rules, {1}, first, states) && Stays(m.rules, states, cats) && Ending(m.rules, states)
    ensures s in states && InTable(m, s) && NextBreak(m, text, start) == From(m, text, q, Marks(s, 0, q))
  {
    var k := Marks(1, 0, start + Count(text, start));
    FromStart(m, text, start);
    s := EndingLed(m, text, start, q, k, first, cats, states);
  }

  /** and goes on where its states do as the start. */
  lemma LedGoesOn(m: Machine, text: seq<Unit>, start: nat, q: nat, first: set<int>, cats: set<int>, states: set<nat>, on: set<int>, to: nat)
    requires Works(m) && start < |text| && Led(m, text, start, q, first, cats) && -1 !in first
    requires Goes(m.rules, {1}, first, states) && Stays(m.rules, states, cats) && Ending(m.rules, states)
    requires m.rules.lookahead == {} && At(m, text, q, on) && -1 !in on
    requires Goes(m.rules, states + {1}, on, {to}) && Ending(m.rules, {to})
    ensures NextBreak(m, text, start) == NextBreak(m, text, q)
  {
    var s := LedTo(m, text, start, q, first, cats, states);
    NoLookahead(m.rules);
    GoesOn(m, text, q, Marks(s, 0, q), on, to, {});
  }

  /** Between two runs: characters that the run goes on with only if more of it follows. */
  lemma LedInner(m: Machine, text: seq<Unit>, start: nat, q: nat, t: nat, first: set<int>, cats: set<int>, state: nat, inner: set<int>, between: nat)
    requires Works(m) && start < |text| && Led(m, text, start, q, first, cats) && -1 !in first
    requires Goes(m.rules, {1}, first, {state}) && Stays(m.rules, {state}, cats) && Ending(m.rules, {state})
    requires Led(m, text, q, t, inner, {-1}) && -1 !in inner
    requires Goes(m.rules, {state}, inner, {between}) && Passing(m.rules, {between}) && InTable(m, between)
    ensures NextBreak(m, text, start) == From(m, text, t, Marks(between, 0, q))
  {
    var s := LedTo(m, text, start, q, first, cats, {state});
    var s' := PassingLed(m, text, q, t, Marks(s, 0, q), inner, {-1}, {between});
  }

  lemma LetterStart(m: Machine)
    requires Words(m)
    ensures |m.rules.forward| == 20 && m.rules.lookahead == {} && Ending(m.rules, {3}) && Passing(m.rules, {4})
    ensures Goes(m.rules, {1}, {LETTER}, {3})
  {
  }

  lemma LetterRun(m: Machine)
    requires Words(m)
    ensures Stays(m.rules, {3}, MARKS + {LETTER})
  {
  }

  lemma LetterTable(m: Machine)
    requires Words(m)
    ensures |m.rules.forward| == 20 && m.rules.lookahead == {} && Ending(m.rules, {3}) && Passing(m.rules, {4})
    ensures Goes(m.rules, {1}, {LETTER}, {3}) && Stays(m.rules, {3}, MARKS + {LETTER})
  {
    hide Words;
    LetterStart(m);
    LetterRun(m);
  }

  lemma LetterStops(m: Machine)
    requires Words(m)
    ensures Goes(m.rules, {3}, EVERY - MARKS - IN_WORDS - {LETTER, DANDA_WORD, NUMBER}, {0})
    ensures Goes(m.rules, {3}, IN_WORDS, {4})
  {
  }

  lemma LetterNextTable(m: Machine)
    requires Words(m)
    ensures Goes(m.rules, {4, 1}, {LETTER}, {3}) && Goes(m.rules, {4}, EVERY - {LETTER}, {0})
    ensures Goes(m.rules, {3, 1}, {NUMBER}, {6}) && Ending(m.rules, {3, 6})
  {
  }

  lemma NumberStart(m: Machine)
    requires Words(m)
    ensures |m.rules.forward| == 20 && m.rules.lookahead == {} && Ending(m.rules, {6}) && Passing(m.rules, {7})
    ensures Goes(m.rules, {1}, {NUMBER}, {6})
  {
  }

  lemma NumberRun(m: Machine)
    requires Words(m)
    ensures Stays(m.rules, {6}, MARKS + {NUMBER})
  {
  }

  lemma NumberTable(m: Machine)
    requires Words(m)
    ensures |m.rules.forward| == 20 && m.rules.lookahead == {} && Ending(m.rules, {6}) && Passing(m.rules, {7})
    ensures Goes(m.rules, {1}, {NUMBER}, {6}) && Stays(m.rules, {6}, MARKS + {NUMBER})
  {
    hide Words;
    NumberStart(m);
    NumberRun(m);
  }

  lemma NumberStops(m: Machine)
    requires Words(m)
    ensures Goes(m.rules, {6}, EVERY - MARKS - IN_NUMBERS - {LETTER, AFTER_NUMBER, NUMBER}, {0})
    ensures Goes(m.rules, {6}, IN_NUMBERS, {7})
  {
  }

  lemma NumberNextTable(m: Machine)
    requires Words(m)
    ensures Goes(m.rules, {7, 1}, {NUMBER}, {6}) && Goes(m.rules, {7}, EVERY - {NUMBER}, {0})
    ensures Goes(m.rules, {6, 1}, {LETTER}, {3}) && Ending(m.rules, {2, 3, 6})
    ensures Goes(m.rules, {6}, {AFTER_NUMBER}, {2}) && Goes(m.rules, {2}, EVERY, {0})
  {
  }

  /** A word is a run of letters with their marks, */
  lemma LettersEnd(m: Machine, text: seq<Unit>, start: nat, q: nat)
    requires Works(m) && Words(m) && start < |text| && Led(m, text, start, q, {LETTER}, MARKS + {LETTER})
    requires Over(m, text, q, EVERY - MARKS - IN_WORDS - {LETTER, DANDA_WORD, NUMBER})
    ensures NextBreak(m, text, start) == q
  {
    hide Words;
    LetterTable(m);
    LetterStops(m);
    LedEnds(m, text, start, q, {LETTER}, MARKS + {LETTER}, {3}, EVERY - MARKS - IN_WORDS - {LETTER, DANDA_WORD, NUMBER});
  }

  /** which digits continue, */
  lemma LettersNumber(m: Machine, text: seq<Unit>, start: nat, q: nat)
    requires Works(m) && Words(m) && start < |text| && Led(m, text, start, q, {LETTER}, MARKS + {LETTER})
    requires At(m, text, q, {NUMBER})
    ensures NextBreak(m, text, start) == NextBreak(m, text, q)
  {
    hide Words;
    LetterTable(m);
    LetterStops(m);
    LetterNextTable(m);
    LedGoesOn(m, text, start, q, {LETTER}, MARKS + {LETTER}, {3}, {NUMBER}, 6);
  }

  /** and a period, a quote, a hyphen or a dash inside a word exactly when a letter follows. */
  lemma LettersInner(m: Machine, text: seq<Unit>, start: nat, q: nat, t: nat)
    requires Works(m) && Words(m) && start < |text| && Led(m, text, start, q, {LETTER}, MARKS + {LETTER})
    requires Led(m, text, q, t, IN_WORDS, {-1})
    ensures At(m, text, t, {LETTER}) ==> NextBreak(m, text, start) == NextBreak(m, text, t)
    ensures Over(m, text, t, EVERY - {LETTER}) ==> NextBreak(m, text, start) == q
  {
    hide Words;
    LetterTable(m);
    LetterStops(m);
    LetterNextTable(m);
    NoLookahead(m.rules);
    LedInner(m, text, start, q, t, {LETTER}, MARKS + {LETTER}, 3, IN_WORDS, 4);
    if At(m, text, t, {LETTER}) {
      GoesOn(m, text, t, Marks(4, 0, q), {LETTER}, 3, {});
    } else if Over(m, text, t, EVERY - {LETTER}) {
      StopsThere(m, text, t, Marks(4, 0, q), EVERY - {LETTER});
    }
  }

  lemma DandaTable(m: Machine)
    requires Words(m)
    ensures Goes(m.rules, {3}, {DANDA_WORD}, {5}) && Goes(m.rules, {5}, EVERY - {NUMBER}, {0})
    ensures Goes(m.rules, {5, 1}, {NUMBER}, {6}) && Ending(m.rules, {5, 6})
  {
  }

  /** A danda ends the word it stands behind, unless digits follow. */
  lemma LettersDanda(m: Machine, text: seq<Unit>, start: nat, q: nat, t: nat)
    requires Works(m) && Words(m) && start < |text| && Led(m, text, start, q, {LETTER}, MARKS + {LETTER})
    requires Led(m, text, q, t, {DANDA_WORD}, {-1})
    ensures Over(m, text, t, EVERY - {NUMBER}) ==> NextBreak(m, text, start) == t
    ensures At(m, text, t, {NUMBER}) ==> NextBreak(m, text, start) == NextBreak(m, text, t)
  {
    hide Words;
    LetterTable(m);
    DandaTable(m);
    NoLookahead(m.rules);
    var s := LedTo(m, text, start, q, {LETTER}, MARKS + {LETTER}, {3});
    s := EndingLed(m, text, q, t, Marks(s, 0, q), {DANDA_WORD}, {-1}, {5});
    if At(m, text, t, {NUMBER}) {
      GoesOn(m, text, t, Marks(s, 0, t), {NUMBER}, 6, {});
    } else if Over(m, text, t, EVERY - {NUMBER}) {
      StopsThere(m, text, t, Marks(s, 0, t), EVERY - {NUMBER});
    }
  }

  /** A number is a run of digits, */
  lemma NumbersEnd(m: Machine, text: seq<Unit>, start: nat, q: nat)
    requires Works(m) && Words(m) && start < |text| && Led(m, text, start, q, {NUMBER}, MARKS + {NUMBER})
    requires Over(m, text, q, EVERY - MARKS - IN_NUMBERS - {LETTER, AFTER_NUMBER, NUMBER})
    ensures NextBreak(m, text, start) == q
  {
    hide Words;
    NumberTable(m);
    NumberStops(m);
    LedEnds(m, text, start, q, {NUMBER}, MARKS + {NUMBER}, {6}, EVERY - MARKS - IN_NUMBERS - {LETTER, AFTER_NUMBER, NUMBER});
  }

  /** which letters continue, */
  lemma NumbersLetter(m: Machine, text: seq<Unit>, start: nat, q: nat)
    requires Works(m) && Words(m) && start < |text| && Led(m, text, start, q, {NUMBER}, MARKS + {NUMBER})
    requires At(m, text, q, {LETTER})
    ensures NextBreak(m, text, start) == NextBreak(m, text, q)
  {
    hide Words;
    NumberTable(m);
    NumberStops(m);
    NumberNextTable(m);
    LedGoesOn(m, text, start, q, {NUMBER}, MARKS + {NUMBER}, {6}, {LETTER}, 3);
  }

  /** a period, a quote or a comma exactly when a digit follows, */
  lemma NumbersInner(m: Machine, text: seq<Unit>, start: nat, q: nat, t: nat)
    requires Works(m) && Words(m) && start < |text| && Led(m, text, start, q, {NUMBER}, MARKS + {NUMBER})
    requires Led(m, text, q, t, IN_NUMBERS, {-1})
    ensures At(m, text, t, {NUMBER}) ==> NextBreak(m, text, start) == NextBreak(m, text, t)
    ensures Over(m, text, t, EVERY - {NUMBER}) ==> NextBreak(m, text, start) == q
  {
    hide Words;
    NumberTable(m);
    NumberStops(m);
    NumberNextTable(m);
    NoLookahead(m.rules);
    LedInner(m, text, start, q, t, {NUMBER}, MARKS + {NUMBER}, 6, IN_NUMBERS, 7);
    if At(m, text, t, {NUMBER}) {
      GoesOn(m, text, t, Marks(7, 0, q), {NUMBER}, 6, {});
    } else if Over(m, text, t, EVERY - {NUMBER}) {
      StopsThere(m, text, t, Marks(7, 0, q), EVERY - {NUMBER});
    }
  }

  /** and one percent sign or the like ends. */
  lemma NumbersAfter(m: Machine, text: seq<Unit>, start: nat, q: nat, t: nat)
    requires Works(m) && Words(m) && start < |text| && Led(m, text, start, q, {NUMBER}, MARKS + {NUMBER})
    requires Led(m, text, q, t, {AFTER_NUMBER}, {-1}) && Over(m, text, t, EVERY)
    ensures NextBreak(m, text, start) == t
  {
    hide Words;
    NumberTable(m);
    NumberStops(m);
    NumberNextTable(m);
    var s := LedTo(m, text, start, q, {NUMBER}, MARKS + {NUMBER}, {6});
    var s' := EndingLed(m, text, q, t, Marks(6, 0, q), {AFTER_NUMBER}, {-1}, {2});
    StopsThere(m, text, t, Marks(2, 0, t), EVERY);
  }

  lemma BlanksTable(m: Machine)
    requires Words(m)
    ensures |m.rules.forward| == 20 && m.rules.lookahead == {} && Ending(m.rules, {8})
    ensures Goes(m.rules, {1}, BLANKS, {8}) && Stays(m.rules, {8}, MARKS + BLANKS)
  {
  }

  lemma BlanksNext(m: Machine)
    requires Words(m)
    ensures Goes(m.rules, {8} + {1}, {RETURN}, {9}) && Ending(m.rules, {9})
    ensures Goes(m.rules, {8} + {1}, {LINE_END}, {2}) && Ending(m.rules, {2})
  {
  }

  lemma BlanksStops(m: Machine)
    requires Words(m)
    ensures Goes(m.rules, {8}, EVERY - MARKS - BLANKS - {RETURN, LINE_END}, {0})
  {
  }

  /** Spaces and tabs run together, and with the line end behind them. */
  lemma Blanks(m: Machine, text: seq<Unit>, start: nat, q: nat)
    requires Works(m) && Words(m) && start < |text| && Led(m, text, start, q, BLANKS, MARKS + BLANKS)
    ensures Over(m, text, q, EVERY - MARKS - BLANKS - {RETURN, LINE_END}) ==> NextBreak(m, text, start) == q
    ensures At(m, text, q, {RETURN} + {LINE_END}) ==> NextBreak(m, text, start) == NextBreak(m, text, q)
  {
    hide Words;
    BlanksTable(m);
    BlanksNext(m);
    BlanksStops(m);
    if Over(m, text, q, EVERY - MARKS - BLANKS - {RETURN, LINE_END}) {
      LedEnds(m, text, start, q, BLANKS, MARKS + BLANKS, {8}, EVERY - MARKS - BLANKS - {RETURN, LINE_END});
    } else if At(m, text, q, {RETURN}) {
      LedGoesOn(m, text, start, q, BLANKS, MARKS + BLANKS, {8}, {RETURN}, 9);
    } else if At(m, text, q, {LINE_END}) {
      LedGoesOn(m, text, start, q, BLANKS, MARKS + BLANKS, {8}, {LINE_END}, 2);
    }
  }

  lemma ReturnsTable(m: Machine)
    requires Words(m)
    ensures |m.rules.forward| == 20 && m.rules.lookahead == {} && Ending(m.rules, {9})
    ensures Goes(m.rules, {1}, {RETURN}, {9}) && Stays(m.rules, {9}, {-1})
  {
  }

  lemma ReturnsNext(m: Machine)
    requires Words(m)
    ensures Goes(m.rules, {9} + {1}, {LINE_END}, {2}) && Ending(m.rules, {2})
  {
  }

  lemma ReturnsStops(m: Machine)
    requires Words(m)
    ensures Goes(m.rules, {9}, EVERY - {LINE_END}, {0})
  {
  }

  /** A carriage return and a line feed stay together. */
  lemma Returns(m: Machine, text: seq<Unit>, start: nat, q: nat)
    requires Works(m) && Words(m) && start < |text| && Led(m, text, start, q, {RETURN}, {-1})
    ensures Over(m, text, q, EVERY - {LINE_END}) ==> NextBreak(m, text, start) == q
    ensures At(m, text, q, {LINE_END}) ==> NextBreak(m, text, start) == NextBreak(m, text, q)
  {
    hide Words;
    ReturnsTable(m);
    ReturnsNext(m);
    ReturnsStops(m);
    if Over(m, text, q, EVERY - {LINE_END}) {
      LedEnds(m, text, start, q, {RETURN}, {-1}, {9}, EVERY - {LINE_END});
    } else if At(m, text, q, {LINE_END}) {
      LedGoesOn(m, text, start, q, {RETURN}, {-1}, {9}, {LINE_END}, 2);
    }
  }

  lemma AloneTable(m: Machine)
    requires Words(m)
    ensures |m.rules.forward| == 20 && m.rules.lookahead == {} && Ending(m.rules, {2})
    ensures Goes(m.rules, {1}, ALONE, {2}) && Stays(m.rules, {2}, {-1})
  {
  }

  lemma AloneStops(m: Machine)
    requires Words(m)
    ensures Goes(m.rules, {2}, EVERY, {0})
  {
  }

  /** Control characters, line ends, soft hyphens and leading marks stand alone. */
  lemma Alone(m: Machine, text: seq<Unit>, start: nat, q: nat)
    requires Works(m) && Words(m) && start < |text| && Led(m, text, start, q, ALONE, {-1})
    ensures Over(m, text, q, EVERY) ==> NextBreak(m, text, start) == q
  {
    hide Words;
    AloneTable(m);
    AloneStops(m);
    if Over(m, text, q, EVERY) {
      LedEnds(m, text, start, q, ALONE, {-1}, {2}, EVERY);
    }
  }

  lemma SymbolTable(m: Machine)
    requires Words(m)
    ensures |m.rules.forward| == 20 && m.rules.lookahead == {} && Ending(m.rules, {16})
    ensures Goes(m.rules, {1}, SYMBOLS, {16}) && Stays(m.rules, {16}, MARKS)
  {
  }

  lemma SymbolStops(m: Machine)
    requires Words(m)
    ensures Goes(m.rules, {16}, EVERY - MARKS, {0})
  {
  }

  /** A symbol stands alone with its marks. */
  lemma Symbol(m: Machine, text: seq<Unit>, start: nat, q: nat)
    requires Works(m) && Words(m) && start < |text| && Led(m, text, start, q, SYMBOLS, MARKS)
    ensures Over(m, text, q, EVERY - MARKS) ==> NextBreak(m, text, start) == q
  {
    hide Words;
    SymbolTable(m);
    SymbolStops(m);
    if Over(m, text, q, EVERY - MARKS) {
      LedEnds(m, text, start, q, SYMBOLS, MARKS, {16}, EVERY - MARKS);
    }
  }

  lemma PrefixTable(m: Machine)
    requires Words(m)
    ensures |m.rules.forward| == 20 && m.rules.lookahead == {} && Ending(m.rules, {14})
    ensures Goes(m.rules, {1}, BEFORE_NUMBER, {14}) && Stays(m.rules, {14}, {-1})
  {
  }

  lemma PrefixNext(m: Machine)
    requires Words(m)
    ensures Goes(m.rules, {14} + {1}, {NUMBER}, {6}) && Ending(m.rules, {6})
  {
  }

  lemma PrefixStops(m: Machine)
    requires Words(m)
    ensures Goes(m.rules, {14}, EVERY - MARKS - {NUMBER}, {0})
  {
  }

  /** So does a period or a currency sign, unless digits follow. */
  lemma Prefix(m: Machine, text: seq<Unit>, start: nat, q: nat)
    requires Works(m) && Words(m) && start < |text| && Led(m, text, start, q, BEFORE_NUMBER, {-1})
    ensures Over(m, text, q, EVERY - MARKS - {NUMBER}) ==> NextBreak(m, text, start) == q
    ensures At(m, text, q, {NUMBER}) ==> NextBreak(m, text, start) == NextBreak(m, text, q)
  {
    hide Words;
    PrefixTable(m);
    PrefixNext(m);
    PrefixStops(m);
    if Over(m, text, q, EVERY - MARKS - {NUMBER}) {
      LedEnds(m, text, start, q, BEFORE_NUMBER, {-1}, {14}, EVERY - MARKS - {NUMBER});
    } else if At(m, text, q, {NUMBER}) {
      LedGoesOn(m, text, start, q, BEFORE_NUMBER, {-1}, {14}, {NUMBER}, 6);
    }
  }

  lemma KanjiRunTable(m: Machine)
    requires Words(m)
    ensures |m.rules.forward| == 20 && m.rules.lookahead == {} && Ending(m.rules, {13, 15})
    ensures Goes(m.rules, {1}, {KANJI}, {13, 15}) && Stays(m.rules, {13, 15}, {-1, KANJI})
  {
  }

  lemma KanjiRunStops(m: Machine)
    requires Words(m)
    ensures Goes(m.rules, {13, 15}, EVERY - MARKS - {KANJI}, {0})
  {
  }

  /** Ideographs run together, */
  lemma KanjiRun(m: Machine, text: seq<Unit>, start: nat, q: nat)
    requires Works(m) && Words(m) && start < |text| && Led(m, text, start, q, {KANJI}, {-1, KANJI})
    ensures Over(m, text, q, EVERY - MARKS - {KANJI}) ==> NextBreak(m, text, start) == q
  {
    hide Words;
    KanjiRunTable(m);
    KanjiRunStops(m);
    if Over(m, text, q, EVERY - MARKS - {KANJI}) {
      LedEnds(m, text, start, q, {KANJI}, {-1, KANJI}, {13, 15}, EVERY - MARKS - {KANJI});
    }
  }

  lemma HiraganaRunTable(m: Machine)
    requires Words(m)
    ensures |m.rules.forward| == 20 && m.rules.lookahead == {} && Ending(m.rules, {11, 18})
    ensures Goes(m.rules, {1}, {HIRAGANA}, {11, 18}) && Stays(m.rules, {11, 18}, {-1, 1, KANA_SIGN, HIRAGANA})
  {
  }

  lemma HiraganaRunStops(m: Machine)
    requires Words(m)
    ensures Goes(m.rules, {11, 18}, EVERY - MARKS - {KANA_SIGN, HIRAGANA}, {0})
  {
  }

  /** hiragana with voiced marks and kana signs, */
  lemma HiraganaRun(m: Machine, text: seq<Unit>, start: nat, q: nat)
    requires Works(m) && Words(m) && start < |text| && Led(m, text, start, q, {HIRAGANA}, {-1, 1, KANA_SIGN, HIRAGANA})
    ensures Over(m, text, q, EVERY - MARKS - {KANA_SIGN, HIRAGANA}) ==> NextBreak(m, text, start) == q
  {
    hide Words;
    HiraganaRunTable(m);
    HiraganaRunStops(m);
    if Over(m, text, q, EVERY - MARKS - {KANA_SIGN, HIRAGANA}) {
      LedEnds(m, text, start, q, {HIRAGANA}, {-1, 1, KANA_SIGN, HIRAGANA}, {11, 18}, EVERY - MARKS - {KANA_SIGN, HIRAGANA});
    }
  }

  lemma KatakanaRunTable(m: Machine)
    requires Words(m)
    ensures |m.rules.forward| == 20 && m.rules.lookahead == {} && Ending(m.rules, {10, 19})
    ensures Goes(m.rules, {1}, {KATAKANA}, {10, 19}) && Stays(m.rules, {10, 19}, {-1, 1, KANA_SIGN, KATAKANA})
  {
  }

  lemma KatakanaRunStops(m: Machine)
    requires Words(m)
    ensures Goes(m.rules, {10, 19}, EVERY - MARKS - {KANA_SIGN, KATAKANA}, {0})
  {
  }

  /** and katakana likewise. */
  lemma KatakanaRun(m: Machine, text: seq<Unit>, start: nat, q: nat)
    requires Works(m) && Words(m) && start < |text| && Led(m, text, start, q, {KATAKANA}, {-1, 1, KANA_SIGN, KATAKANA})
    ensures Over(m, text, q, EVERY - MARKS - {KANA_SIGN, KATAKANA}) ==> NextBreak(m, text, start) == q
  {
    hide Words;
    KatakanaRunTable(m);
    KatakanaRunStops(m);
    if Over(m, text, q, EVERY - MARKS - {KANA_SIGN, KATAKANA}) {
      LedEnds(m, text, start, q, {KATAKANA}, {-1, 1, KANA_SIGN, KATAKANA}, {10, 19}, EVERY - MARKS - {KANA_SIGN, KATAKANA});
    }
  }
}

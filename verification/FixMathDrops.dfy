/**
 What the expression parser loses without saying so: operators and operands that a unary operator drops, and
 brackets that stay open.
 */
module FixMathDrops {
  import opened Basics
  import opened FixMath

  // ----- Dropped items -----

  /** The bracket level and the expectation after an action that was accepted. */
  function BaseAfter(base: int, action: Action): int {
    if action.Deeper? then base + LEVEL else if action.Shallower? then base - LEVEL else base
  }

  function UnaryAfter(unary: bool, action: Action): bool {
    if action.PutLeaf? then false else unary || action.PutBinary?
  }

  /** The item that an action puts, whatever was put before. */
  function Put(base: int, action: Action): Option<Item> {
    match action
    case PutLeaf(leaf) => Some(LeafItem(leaf))
    case PutUnary(rank, op) => Some(UnaryItem(base + rank, op))
    case PutBinary(op) => Some(BinaryItem(base + Rank(op), op))
    case _ => None
  }

  /** Everything that is written: all operands and operators in reading order. */
  function Whole(base: int, unary: bool, toks: Tokens): seq<Item>
    decreases |toks|
  {
    if toks == [] then []
    else
      var action := Act(toks[0], unary);
      var item := Put(base, action);
      var rest := Whole(BaseAfter(base, action), UnaryAfter(unary, action), toks[1..]);
      if item.Some? then [item.value] + rest else rest
  }

  /** Every unary operator comes first, or directly after an item that binds looser. */
  predicate NothingDropped(last: Option<Item>, base: int, unary: bool, toks: Tokens)
    decreases |toks|
  {
    || toks == []
    || (var action := Act(toks[0], unary);
        var item := Put(base, action);
        && (action.PutUnary? && last.Some? ==> Weight(last.value) < base + action.rank)
        && NothingDropped(if item.Some? then item else last,
                          BaseAfter(base, action), UnaryAfter(unary, action), toks[1..]))
  }

  function Last(items: seq<Item>): Option<Item> {
    if items == [] then None else Some(items[|items| - 1])
  }

  lemma {:induction false} TrimShortens(items: seq<Item>, prio: int)
    ensures |Trim(items, prio)| <= |items|
    ensures Trim(items, prio) == items <==> items == [] || Weight(items[|items| - 1]) < prio
    ensures Trim(items, prio) == items || |Trim(items, prio)| < |items|
    decreases |items|
  {
    if items != [] && Weight(items[|items| - 1]) >= prio {
      TrimShortens(items[..|items| - 1], prio);
    }
  }

  /** One step: what is kept grows by the item that is put, or by less if the item drops others. */
  lemma StepKeeps(s: State<seq<Item>>, action: Action, t: State<seq<Item>>, item: Option<Item>)
    requires Keep(s, action) == Going(t) && item == Put(s.base, action)
    ensures t.base == BaseAfter(s.base, action) && t.unary == UnaryAfter(s.unary, action)
    ensures Last(t.content) == if item.Some? then item else Last(s.content)
    ensures var all := if item.Some? then s.content + [item.value] else s.content;
            && |t.content| <= |all| && (t.content != all ==> |t.content| < |all|)
            && (t.content == all
                <==> (action.PutUnary? && s.content != [] ==>
                        Weight(s.content[|s.content| - 1]) < s.base + action.rank))
  {
    if action.PutUnary? {
      TrimShortens(s.content, s.base + action.rank);
    }
  }

  lemma {:induction false} ReadKeeps(s: State<seq<Item>>, toks: Tokens, r: State<seq<Item>>, whole: seq<Item>)
    requires Read(s, toks) == Going(r) && whole == Whole(s.base, s.unary, toks)
    ensures |r.content| <= |s.content| + |whole|
    ensures r.content == s.content + whole <==> NothingDropped(Last(s.content), s.base, s.unary, toks)
    decreases |toks|
  {
    if toks != [] {
      var action := Act(toks[0], s.unary);
      var item := Put(s.base, action);
      var t := ReadStep(s, toks[0]).state;
      StepKeeps(s, action, t, item);
      var rest := Whole(t.base, t.unary, toks[1..]);
      ReadKeeps(t, toks[1..], r, rest);
      var all := if item.Some? then s.content + [item.value] else s.content;
      assert whole == if item.Some? then [item.value] + rest else rest;
      assert s.content + whole == all + rest;
      KeptSoFar(t.content, all, rest, r.content);
    }
  }

  lemma KeptSoFar(kept: seq<Item>, all: seq<Item>, rest: seq<Item>, r: seq<Item>)
    requires |kept| <= |all| && (kept != all ==> |kept| < |all|) && |r| <= |kept| + |rest|
    ensures |r| <= |all| + |rest|
    ensures r == all + rest <==> kept == all && r == kept + rest
  {
  }

  /** An accepted token list is kept whole, every operand and operator of it in the tree, if and only if each of
      its unary operators comes first or directly after an item that binds looser. */
  lemma KeptWhole(toks: Tokens)
    requires Run(Start, toks).Going?
    ensures InOrder(Run(Start, toks).state.content) == Whole(LEVEL, true, toks)
       <==> NothingDropped(None, LEVEL, true, toks)
  {
    RunAgrees(Start, toks);
    var r := Read(StartReading, toks);
    ReadKeeps(StartReading, toks, r.state, Whole(LEVEL, true, toks));
    assert [] + Whole(LEVEL, true, toks) == Whole(LEVEL, true, toks);
  }

  function Number(n: int): Token { Operand(Constant(n)) }

  /** `--1`: of two unary operators the first is dropped. */
  lemma DoubleMinus(toks: Tokens)
    requires toks == [Minus, Minus, Number(1)]
    ensures Run(Start, toks) == Going(State(Unary(190, Negate, Word(Constant(1))), LEVEL, false))
    ensures !NothingDropped(None, LEVEL, true, toks)
  {
    var t1, t2 := toks[1..], toks[2..];
    assert t1[1..] == t2 && t2[1..] == [];
    var s1 := State(Unary(190, Negate, Nil), LEVEL, true);
    assert Run(s1, t2) == Going(State(Unary(190, Negate, Word(Constant(1))), LEVEL, false));
    assert Step(Start, toks[0]) == Step(s1, t1[0]) == Going(s1);
    assert Run(Start, toks) == Run(s1, t1) == Run(s1, t2);
    assert !NothingDropped(Some(UnaryItem(190, Negate)), LEVEL, true, t1);
  }

  /** `3~4`: the operand before the unary operator is dropped. */
  lemma OperandBeforeTilde(toks: Tokens)
    requires toks == [Number(3), Tilde, Number(4)]
    ensures Run(Start, toks) == Going(State(Unary(190, Complement, Word(Constant(4))), LEVEL, false))
    ensures !NothingDropped(None, LEVEL, true, toks)
  {
    var t1, t2 := toks[1..], toks[2..];
    assert t1[1..] == t2 && t2[1..] == [];
    var s1, s2 := State(Word(Constant(3)), LEVEL, false), State(Unary(190, Complement, Nil), LEVEL, false);
    assert Run(s2, t2) == Going(State(Unary(190, Complement, Word(Constant(4))), LEVEL, false));
    assert Step(Start, toks[0]) == Going(s1) && Step(s1, t1[0]) == Going(s2);
    assert Run(Start, toks) == Run(s1, t1) == Run(s2, t2);
    assert !NothingDropped(Some(LeafItem(Constant(3))), LEVEL, false, t1);
  }

  /** `(3+)-4`: a whole bracket is dropped. */
  lemma BracketBeforeMinus(toks: Tokens)
    requires toks == [Open, Number(3), Plus, Close, Minus, Number(4)]
    ensures Run(Start, toks) == Going(State(Unary(190, Negate, Word(Constant(4))), LEVEL, false))
    ensures !NothingDropped(None, LEVEL, true, toks)
  {
    var t1, t2, t3, t4, t5 := toks[1..], toks[2..], toks[3..], toks[4..], toks[5..];
    assert t1[1..] == t2 && t2[1..] == t3 && t3[1..] == t4 && t4[1..] == t5 && t5[1..] == [];
    var s0, s1 := Start.(base := 200), State(Word(Constant(3)), 200, false);
    var s2 := State(Binary(220, Add, Word(Constant(3)), Nil), 200, true);
    var s3, s4 := s2.(base := LEVEL), State(Unary(190, Negate, Nil), LEVEL, true);
    assert Step(Start, toks[0]) == Going(s0) && Step(s0, t1[0]) == Going(s1) && Step(s1, t2[0]) == Going(s2);
    assert Step(s2, t3[0]) == Going(s3) && Step(s3, t4[0]) == Going(s4);
    assert Run(s4, t5) == Going(State(Unary(190, Negate, Word(Constant(4))), LEVEL, false));
    assert Run(s2, t3) == Run(s3, t4) == Run(s4, t5);
    assert Run(Start, toks) == Run(s0, t1) == Run(s1, t2) == Run(s2, t3);
    var plus := Some(BinaryItem(220, Add));
    assert !NothingDropped(plus, LEVEL, true, t4);
    assert !NothingDropped(plus, 200, true, t3);
    assert !NothingDropped(Some(LeafItem(Constant(3))), 200, false, t2);
    assert !NothingDropped(None, 200, true, t1);
  }

  // ----- Brackets -----

  /** How many brackets are open after the tokens, more closing ones counting as fewer than none. */
  function OpenAfter(toks: Tokens): int {
    if toks == [] then 0
    else (if toks[0].Open? then 1 else if toks[0].Close? then -1 else 0) + OpenAfter(toks[1..])
  }

  lemma {:induction false} BaseCounts(s: State<Tree>, toks: Tokens)
    requires Run(s, toks).Going?
    ensures Run(s, toks).state.base == s.base + LEVEL * OpenAfter(toks)
    decreases |toks|
  {
    if toks != [] {
      BaseCounts(Step(s, toks[0]).state, toks[1..]);
    }
  }

  lemma {:induction false} BaseStaysPositive(s: State<Tree>, toks: Tokens)
    requires Run(s, toks).Going? && s.base > 0
    ensures Run(s, toks).state.base > 0
    decreases |toks|
  {
    if toks != [] {
      BaseStaysPositive(Step(s, toks[0]).state, toks[1..]);
    }
  }

  /** A successful parse may end with brackets open, never with too many closed: the level it ends at tells how
      many are open, and is the level it started at if and only if none is. */
  lemma OpenBracketsAccepted(toks: Tokens)
    requires Run(Start, toks).Going?
    ensures Run(Start, toks).state.base == LEVEL * (1 + OpenAfter(toks)) && OpenAfter(toks) >= 0
    ensures Run(Start, toks).state.base == LEVEL <==> OpenAfter(toks) == 0
  {
    BaseCounts(Start, toks);
    BaseStaysPositive(Start, toks);
  }

  /** `(3` is accepted. */
  lemma UnclosedAccepted(toks: Tokens)
    requires toks == [Open, Number(3)]
    ensures Run(Start, toks) == Going(State(Word(Constant(3)), 2 * LEVEL, false)) && OpenAfter(toks) == 1
  {
    var t1 := toks[1..];
    assert t1 == [Number(3)] && t1[1..] == [];
    var s1 := Start.(base := 200);
    assert Step(Start, toks[0]) == Going(s1) && Step(s1, t1[0]) == Going(State(Word(Constant(3)), 200, false));
    assert Run(s1, t1) == Going(State(Word(Constant(3)), 200, false));
    assert Run(Start, toks) == Run(s1, t1);
    assert OpenAfter(t1) == 0;
  }
}

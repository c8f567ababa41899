/**
 The expression parser of the assembler, over tokens: the tree that the parser
 grows by splicing operators into its right spine.
 */
module FixMath {

  const INT_MAX := 0x7fff_ffff
  const LEVEL := 100
  const UNARY_RANK := 90

  datatype UnaryOp = Negate | Complement
  datatype BinaryOp = Add | Subtract | Multiply | Divide | BitOr | BitAnd | BitXor
  datatype Leaf = Constant(value: int) | Symbol(name: string)

  function Rank(op: BinaryOp): int {
    match op
    case Add | Subtract => 20
    case Multiply | Divide => 30
    case BitOr => 10
    case BitAnd | BitXor => 15
  }

  // ----- Nodes -----

  /** `Nil` is a null operand; `right` and `arg` are what the source calls the child. */
  datatype Tree =
    | Nil
    | Word(leaf: Leaf)
    | Unary(prio: int, uop: UnaryOp, arg: Tree)
    | Binary(prio: int, bop: BinaryOp, left: Tree, right: Tree)

  function Priority(t: Tree): int
    requires !t.Nil?
  {
    match t
    case Word(_) => INT_MAX
    case Unary(p, _, _) => p
    case Binary(p, _, _, _) => p
  }

  /** The node reached by following children until there is none can take a child. */
  predicate HasHole(t: Tree) {
    match t
    case Nil => true
    case Word(_) => false
    case Unary(_, _, a) => HasHole(a)
    case Binary(_, _, _, r) => HasHole(r)
  }

  /** Hangs `sub` below the last child. */
  function Graft(t: Tree, sub: Tree): Tree
    requires HasHole(t)
  {
    match t
    case Nil => sub
    case Unary(p, op, a) => Unary(p, op, Graft(a, sub))
    case Binary(p, op, l, r) => Binary(p, op, l, Graft(r, sub))
  }

  /** Walks the right spine down to the first child of priority `prio` or more, and puts
      the new node there: a binary node adopts that child, a unary node drops it. */
  function SpliceBinary(t: Tree, prio: int, op: BinaryOp): Tree
    requires prio <= INT_MAX
  {
    if t.Nil? || Priority(t) >= prio then Binary(prio, op, t, Nil)
    else if t.Unary? then t.(arg := SpliceBinary(t.arg, prio, op))
    else t.(right := SpliceBinary(t.right, prio, op))
  }

  function SpliceUnary(t: Tree, prio: int, op: UnaryOp): Tree
    requires prio <= INT_MAX
  {
    if t.Nil? || Priority(t) >= prio then Unary(prio, op, Nil)
    else if t.Unary? then t.(arg := SpliceUnary(t.arg, prio, op))
    else t.(right := SpliceUnary(t.right, prio, op))
  }

  // ----- Tokens and steps -----

  /** `Junk` is what the parser rejects on sight: an unknown character, a malformed number,
      or an end of input that does not end an operand. */
  datatype Token =
    | Operand(leaf: Leaf)
    | Minus | Plus | Tilde | Star | Slash | Bar | Amp | Caret
    | Open | Close | Junk

  datatype Action =
    | PutLeaf(leaf: Leaf)
    | PutUnary(rank: int, uop: UnaryOp)
    | PutBinary(op: BinaryOp)
    | Skip | Deeper | Shallower | Reject

  function Act(tok: Token, unary: bool): Action {
    match tok
    case Operand(leaf) => PutLeaf(leaf)
    case Tilde => PutUnary(UNARY_RANK, Complement)
    case Minus => if unary then PutUnary(UNARY_RANK, Negate) else PutBinary(Subtract)
    case Plus => if unary then Skip else PutBinary(Add)
    case Star => PutBinary(Multiply)
    case Slash => PutBinary(Divide)
    case Bar => PutBinary(BitOr)
    case Amp => PutBinary(BitAnd)
    case Caret => PutBinary(BitXor)
    case Open => Deeper
    case Close => Shallower
    case Junk => Reject
  }

  datatype State<+T> = State(content: T, base: int, unary: bool)

  /** `Undefined`: the priority arithmetic leaves the range of `int`. */
  datatype Result<+T> = Going(state: State<T>) | Stuck | Undefined

  type Tokens = seq<Token>

  const Start: State<Tree> := State(Nil, LEVEL, true)

  function Step(s: State<Tree>, tok: Token): Result<Tree> {
    Apply(s, Act(tok, s.unary))
  }

  function Apply(s: State<Tree>, action: Action): Result<Tree> {
    match action
    case PutLeaf(leaf) =>
      if HasHole(s.content) then Going(State(Graft(s.content, Word(leaf)), s.base, false)) else Stuck
    case PutUnary(rank, op) =>
      if s.base + rank > INT_MAX then Undefined
      else Going(s.(content := SpliceUnary(s.content, s.base + rank, op)))
    case PutBinary(op) =>
      if s.base + Rank(op) > INT_MAX then Undefined
      else Going(State(SpliceBinary(s.content, s.base + Rank(op), op), s.base, true))
    case Skip => Going(s)
    case Deeper => if s.base + LEVEL > INT_MAX then Undefined else Going(s.(base := s.base + LEVEL))
    case Shallower => if s.base - LEVEL <= 0 then Stuck else Going(s.(base := s.base - LEVEL))
    case Reject => Stuck
  }

  function Run(s: State<Tree>, toks: Tokens): Result<Tree>
    decreases |toks|
  {
    if toks == [] then Going(s)
    else
      match Step(s, toks[0])
      case Going(s') => Run(s', toks[1..])
      case r => r
  }

  lemma {:induction false} RunAppend(s: State<Tree>, a: Tokens, b: Tokens)
    ensures Run(s, a + b) == match Run(s, a) case Going(s') => Run(s', b) case r => r
    decreases |a|
  {
    if a == [] {
      assert a + b == b;
    } else {
      assert (a + b)[0] == a[0] && (a + b)[1..] == a[1..] + b;
      match Step(s, a[0])
      case Going(s') => RunAppend(s', a[1..], b);
      case _ =>
    }
  }

  // ----- What the parser computes: the only heap-ordered tree over its reading -----

  datatype Item =
    | LeafItem(leaf: Leaf)
    | UnaryItem(prio: int, uop: UnaryOp)
    | BinaryItem(prio: int, bop: BinaryOp)

  function Weight(i: Item): int {
    if i.LeafItem? then INT_MAX else i.prio
  }

  function InOrder(t: Tree): seq<Item> {
    match t
    case Nil => []
    case Word(leaf) => [LeafItem(leaf)]
    case Unary(p, op, a) => [UnaryItem(p, op)] + InOrder(a)
    case Binary(p, op, l, r) => InOrder(l) + [BinaryItem(p, op)] + InOrder(r)
  }

  /** A child binds strictly tighter than its parent, a left operand at least as tight. */
  predicate HeapOrdered(t: Tree) {
    match t
    case Nil => true
    case Word(_) => true
    case Unary(p, _, a) => (!a.Nil? ==> p < Priority(a)) && HeapOrdered(a)
    case Binary(p, _, l, r) =>
      && (!l.Nil? ==> p <= Priority(l)) && HeapOrdered(l)
      && (!r.Nil? ==> p < Priority(r)) && HeapOrdered(r)
  }

  /** Drops the longest tail of items that all weigh `prio` or more. */
  function Trim(items: seq<Item>, prio: int): seq<Item> {
    if items == [] || Weight(items[|items| - 1]) < prio then items
    else Trim(items[..|items| - 1], prio)
  }

  /** The parser without its tree: a list of weighted operators and operands. A binary
      operator and an operand are appended; a unary operator first drops what binds no looser. */
  function ReadStep(s: State<seq<Item>>, tok: Token): Result<seq<Item>> {
    Keep(s, Act(tok, s.unary))
  }

  function Keep(s: State<seq<Item>>, action: Action): Result<seq<Item>> {
    var items := s.content;
    match action
    case PutLeaf(leaf) =>
      if items != [] && items[|items| - 1].LeafItem? then Stuck
      else Going(State(items + [LeafItem(leaf)], s.base, false))
    case PutUnary(rank, op) =>
      if s.base + rank > INT_MAX then Undefined
      else Going(s.(content := Trim(items, s.base + rank) + [UnaryItem(s.base + rank, op)]))
    case PutBinary(op) =>
      if s.base + Rank(op) > INT_MAX then Undefined
      else Going(State(items + [BinaryItem(s.base + Rank(op), op)], s.base, true))
    case Skip => Going(s)
    case Deeper => if s.base + LEVEL > INT_MAX then Undefined else Going(s.(base := s.base + LEVEL))
    case Shallower => if s.base - LEVEL <= 0 then Stuck else Going(s.(base := s.base - LEVEL))
    case Reject => Stuck
  }

  function Read(s: State<seq<Item>>, toks: Tokens): Result<seq<Item>>
    decreases |toks|
  {
    if toks == [] then Going(s)
    else
      match ReadStep(s, toks[0])
      case Going(s') => Read(s', toks[1..])
      case r => r
  }

  const StartReading: State<seq<Item>> := State([], LEVEL, true)

  lemma {:induction false} ItemsOutweighRoot(t: Tree)
    requires HeapOrdered(t)
    ensures forall i :: 0 <= i < |InOrder(t)| ==> !t.Nil? && Weight(InOrder(t)[i]) >= Priority(t)
  {
    match t
    case Nil =>
      assert InOrder(t) == [];
    case Word(leaf) =>
      assert InOrder(t) == [LeafItem(leaf)];
    case Unary(_, _, a) =>
      ItemsOutweighRoot(a);
      assert forall i :: 0 < i < |InOrder(t)| ==> InOrder(t)[i] == InOrder(a)[i - 1];
    case Binary(_, _, l, r) =>
      ItemsOutweighRoot(l);
      ItemsOutweighRoot(r);
      var n := |InOrder(l)|;
      assert forall i :: 0 <= i < n ==> InOrder(t)[i] == InOrder(l)[i];
      assert forall i :: n < i < |InOrder(t)| ==> InOrder(t)[i] == InOrder(r)[i - n - 1];
  }

  /** A heap-ordered tree is determined by its reading. */
  lemma {:induction false} HeapOrderedUnique(t: Tree, u: Tree)
    requires HeapOrdered(t) && HeapOrdered(u)
    requires InOrder(t) == InOrder(u)
    ensures t == u
    decreases t
  {
    var items := InOrder(t);
    match t
    case Nil =>
    case Word(_) => assert items[0].LeafItem?; UniqueAtRoot(t, u, 0);
    case Unary(_, _, a) =>
      UniqueAtRoot(t, u, 0);
      assert InOrder(a) == items[1..];
      assert InOrder(u.arg) == items[1..];
      HeapOrderedUnique(a, u.arg);
    case Binary(_, _, l, r) =>
      var k := |InOrder(l)|;
      UniqueAtRoot(t, u, k);
      assert InOrder(l) == items[..k] && InOrder(u.left) == items[..k];
      assert InOrder(r) == items[k + 1..] && InOrder(u.right) == items[k + 1..];
      HeapOrderedUnique(l, u.left);
      HeapOrderedUnique(r, u.right);
  }

  function RootIndex(t: Tree): nat
    requires !t.Nil?
    ensures RootIndex(t) < |InOrder(t)|
    ensures Weight(InOrder(t)[RootIndex(t)]) == Priority(t)
  {
    if t.Binary? then |InOrder(t.left)| else 0
  }

  /** The root is the last of the lightest items, so both trees have it at the same place. */
  lemma UniqueAtRoot(t: Tree, u: Tree, k: nat)
    requires HeapOrdered(t) && HeapOrdered(u) && !t.Nil? && k == RootIndex(t)
    requires InOrder(t) == InOrder(u)
    ensures !u.Nil? && RootIndex(u) == k
    ensures t.Word? ==> u == t
    ensures t.Unary? ==> u.Unary? && u.prio == t.prio && u.uop == t.uop
    ensures t.Binary? ==> u.Binary? && u.prio == t.prio && u.bop == t.bop
  {
    RootIsLastLightest(t);
    RootIsLastLightest(u);
    var items := InOrder(t);
    assert items[k] == InOrder(u)[RootIndex(u)];
  }

  lemma RootIsLastLightest(t: Tree)
    requires HeapOrdered(t) && !t.Nil?
    ensures forall i :: 0 <= i < |InOrder(t)| ==> Weight(InOrder(t)[i]) >= Priority(t)
    ensures forall i :: RootIndex(t) < i < |InOrder(t)| ==> Weight(InOrder(t)[i]) > Priority(t)
  {
    ItemsOutweighRoot(t);
    if t.Unary? {
      ItemsOutweighRoot(t.arg);
    } else if t.Binary? {
      ItemsOutweighRoot(t.right);
    }
  }

  /** Operator priorities are multiples of five, so none can equal an operand's. */
  predicate Fivefold(t: Tree) {
    match t
    case Nil => true
    case Word(_) => true
    case Unary(p, _, a) => p < INT_MAX && p % 5 == 0 && Fivefold(a)
    case Binary(p, _, l, r) => p < INT_MAX && p % 5 == 0 && Fivefold(l) && Fivefold(r)
  }

  lemma {:induction false} HoleIsLast(t: Tree)
    ensures HasHole(t) <==> InOrder(t) == [] || !InOrder(t)[|InOrder(t)| - 1].LeafItem?
  {
    match t
    case Nil =>
    case Word(_) =>
    case Unary(_, _, a) => HoleIsLast(a);
    case Binary(_, _, _, r) => HoleIsLast(r);
  }

  lemma {:induction false} GraftReading(t: Tree, leaf: Leaf)
    requires HeapOrdered(t) && Fivefold(t) && HasHole(t)
    ensures var g := Graft(t, Word(leaf));
            && HeapOrdered(g) && Fivefold(g) && InOrder(g) == InOrder(t) + [LeafItem(leaf)]
            && (!t.Nil? ==> Priority(g) == Priority(t))
  {
    match t
    case Nil =>
    case Unary(_, _, a) => GraftReading(a, leaf);
    case Binary(_, _, _, r) => GraftReading(r, leaf);
  }

  lemma {:induction false} SpliceBinaryReading(t: Tree, prio: int, op: BinaryOp)
    requires HeapOrdered(t) && Fivefold(t) && prio < INT_MAX && prio % 5 == 0
    ensures var s := SpliceBinary(t, prio, op);
            && HeapOrdered(s) && Fivefold(s) && InOrder(s) == InOrder(t) + [BinaryItem(prio, op)]
            && Priority(s) == if t.Nil? || Priority(t) >= prio then prio else Priority(t)
  {
    if t.Nil? || Priority(t) >= prio {
    } else if t.Unary? {
      SpliceBinaryReading(t.arg, prio, op);
    } else {
      SpliceBinaryReading(t.right, prio, op);
    }
  }

  lemma {:induction false} TrimAll(items: seq<Item>, tail: seq<Item>, prio: int)
    requires forall i :: 0 <= i < |tail| ==> Weight(tail[i]) >= prio
    ensures Trim(items + tail, prio) == Trim(items, prio)
  {
    if tail == [] {
      assert items + tail == items;
    } else {
      var init := tail[..|tail| - 1];
      assert (items + tail)[..|items + tail| - 1] == items + init;
      assert (items + tail)[|items + tail| - 1] == tail[|tail| - 1];
      TrimAll(items, init, prio);
    }
  }

  lemma {:induction false} TrimBehind(items: seq<Item>, tail: seq<Item>, prio: int)
    requires items != [] && Weight(items[|items| - 1]) < prio
    ensures Trim(items + tail, prio) == items + Trim(tail, prio)
  {
    if tail == [] {
      assert items + tail == items;
    } else {
      var init := tail[..|tail| - 1];
      assert (items + tail)[..|items + tail| - 1] == items + init;
      assert (items + tail)[|items + tail| - 1] == tail[|tail| - 1];
      TrimBehind(items, init, prio);
    }
  }

  lemma {:induction false} SpliceUnaryShape(t: Tree, prio: int, op: UnaryOp)
    requires HeapOrdered(t) && Fivefold(t) && prio < INT_MAX && prio % 5 == 0
    ensures var s := SpliceUnary(t, prio, op);
            && HeapOrdered(s) && Fivefold(s)
            && Priority(s) == if t.Nil? || Priority(t) >= prio then prio else Priority(t)
  {
    if t.Nil? || Priority(t) >= prio {
    } else if t.Unary? {
      SpliceUnaryShape(t.arg, prio, op);
    } else {
      SpliceUnaryShape(t.right, prio, op);
    }
  }

  lemma TrimsAway(t: Tree, prio: int)
    requires HeapOrdered(t) && (t.Nil? || Priority(t) >= prio)
    ensures Trim(InOrder(t), prio) == []
  {
    ItemsOutweighRoot(t);
    assert InOrder(t) == [] + InOrder(t);
    TrimAll([], InOrder(t), prio);
  }

  lemma {:induction false} SpliceUnaryReading(t: Tree, prio: int, op: UnaryOp)
    requires HeapOrdered(t) && prio <= INT_MAX
    ensures InOrder(SpliceUnary(t, prio, op)) == Trim(InOrder(t), prio) + [UnaryItem(prio, op)]
  {
    if t.Nil? || Priority(t) >= prio {
      TrimsAway(t, prio);
    } else if t.Unary? {
      SpliceUnaryReading(t.arg, prio, op);
      BehindFront([UnaryItem(t.prio, t.uop)], InOrder(t.arg), prio, UnaryItem(prio, op));
      assert InOrder(SpliceUnary(t, prio, op)) == [UnaryItem(t.prio, t.uop)] + InOrder(SpliceUnary(t.arg, prio, op));
    } else {
      SpliceUnaryReading(t.right, prio, op);
      BehindFront(InOrder(t.left) + [BinaryItem(t.prio, t.bop)], InOrder(t.right), prio, UnaryItem(prio, op));
      assert InOrder(SpliceUnary(t, prio, op)) == InOrder(t.left) + [BinaryItem(t.prio, t.bop)]
             + InOrder(SpliceUnary(t.right, prio, op));
    }
  }

  lemma BehindFront(front: seq<Item>, tail: seq<Item>, prio: int, x: Item)
    requires front != [] && Weight(front[|front| - 1]) < prio
    ensures front + (Trim(tail, prio) + [x]) == Trim(front + tail, prio) + [x]
  {
    TrimBehind(front, tail, prio);
    assert front + (Trim(tail, prio) + [x]) == front + Trim(tail, prio) + [x];
  }

  function Reading(s: State<Tree>): State<seq<Item>> {
    State(InOrder(s.content), s.base, s.unary)
  }

  ghost predicate Sound(s: State<Tree>) {
    HeapOrdered(s.content) && Fivefold(s.content) && s.base % LEVEL == 0
  }

  ghost predicate Agree(r: Result<Tree>, q: Result<seq<Item>>) {
    match r
    case Going(s) => Sound(s) && q == Going(Reading(s))
    case Stuck => q.Stuck?
    case Undefined => q.Undefined?
  }

  lemma PrioritiesAreFivefold(base: int, rank: int)
    requires base % LEVEL == 0 && rank % 5 == 0 && base + rank <= INT_MAX
    ensures (base + rank) % 5 == 0 && base + rank < INT_MAX
  {
    assert base == 5 * (20 * (base / LEVEL));
    assert INT_MAX % 5 == 2;
  }

  lemma PutLeafAgrees(s: State<Tree>, leaf: Leaf)
    requires Sound(s)
    ensures Agree(Apply(s, PutLeaf(leaf)), Keep(Reading(s), PutLeaf(leaf)))
  {
    HoleIsLast(s.content);
    if HasHole(s.content) {
      GraftReading(s.content, leaf);
    }
  }

  lemma PutUnaryAgrees(s: State<Tree>, op: UnaryOp)
    requires Sound(s)
    ensures Agree(Apply(s, PutUnary(UNARY_RANK, op)), Keep(Reading(s), PutUnary(UNARY_RANK, op)))
  {
    if s.base + UNARY_RANK <= INT_MAX {
      PrioritiesAreFivefold(s.base, UNARY_RANK);
      SpliceUnaryShape(s.content, s.base + UNARY_RANK, op);
      SpliceUnaryReading(s.content, s.base + UNARY_RANK, op);
    }
  }

  lemma PutBinaryAgrees(s: State<Tree>, op: BinaryOp)
    requires Sound(s)
    ensures Agree(Apply(s, PutBinary(op)), Keep(Reading(s), PutBinary(op)))
  {
    if s.base + Rank(op) <= INT_MAX {
      PrioritiesAreFivefold(s.base, Rank(op));
      SpliceBinaryReading(s.content, s.base + Rank(op), op);
    }
  }

  lemma DepthAgrees(s: State<Tree>)
    requires Sound(s)
    ensures Agree(Apply(s, Deeper), Keep(Reading(s), Deeper)) && Agree(Apply(s, Shallower), Keep(Reading(s), Shallower))
  {
    assert (s.base + 100) % 100 == s.base % 100 == (s.base - 100) % 100 && LEVEL == 100;
  }

  lemma ApplyAgrees(s: State<Tree>, action: Action)
    requires Sound(s)
    requires action.PutUnary? ==> action.rank == UNARY_RANK
    ensures Agree(Apply(s, action), Keep(Reading(s), action))
  {
    match action
    case PutLeaf(leaf) => PutLeafAgrees(s, leaf);
    case PutUnary(_, op) => PutUnaryAgrees(s, op);
    case PutBinary(op) => PutBinaryAgrees(s, op);
    case Skip =>
    case Reject =>
    case _ => DepthAgrees(s);
  }

  lemma {:induction false} RunAgrees(s: State<Tree>, toks: Tokens)
    requires Sound(s)
    ensures Agree(Run(s, toks), Read(Reading(s), toks))
    decreases |toks|
  {
    if toks != [] {
      ApplyAgrees(s, Act(toks[0], s.unary));
      match Step(s, toks[0])
      case Going(s') => RunAgrees(s', toks[1..]);
      case _ =>
    }
  }

  /** For every token list: the parser succeeds exactly when the list reader does, and its tree is
      then the one and only heap-ordered tree whose in-order sequence is what the reader kept. */
  lemma ParserBuildsTheHeapOrderedTree(toks: Tokens)
    ensures var r, q := Run(Start, toks), Read(StartReading, toks);
            && (r.Stuck? <==> q.Stuck?) && (r.Undefined? <==> q.Undefined?)
            && (r.Going? ==>
                  && q.Going? && HeapOrdered(r.state.content) && InOrder(r.state.content) == q.state.content
                  && forall t :: HeapOrdered(t) && InOrder(t) == q.state.content ==> t == r.state.content)
  {
    RunAgrees(Start, toks);
    var r := Run(Start, toks);
    if r.Going? {
      forall t | HeapOrdered(t) && InOrder(t) == InOrder(r.state.content)
        ensures t == r.state.content
      {
        HeapOrderedUnique(t, r.state.content);
      }
    }
  }
}

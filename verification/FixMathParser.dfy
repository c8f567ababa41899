/**
 The parser itself: nodes linked on the heap, grown in place while the characters are read.
 The right spine is the part that changes; a finished left operand never changes again.
 */
module FixMathParser {
  import opened Basics
  import opened FixMath
  import opened FixMathEval
  import opened FixMathText

  datatype Kind = LeafNode(leaf: Leaf) | UnaryNode(uop: UnaryOp) | BinaryNode(bop: BinaryOp)

  class FmeNode {
    const kind: Kind
    const prio: int
    const left: FmeNode?
    var child: FmeNode?
    // What `left` stands for, and the nodes it is made of.
    ghost const leftTree: Tree
    ghost const leftNodes: set<FmeNode>

    constructor (kind: Kind, prio: int, left: FmeNode?, ghost leftTree: Tree, ghost leftNodes: set<FmeNode>)
      ensures this.kind == kind && this.prio == prio && this.left == left && child == null
      ensures this.leftTree == leftTree && this.leftNodes == leftNodes
    {
      this.kind, this.prio, this.left, child := kind, prio, left, null;
      this.leftTree, this.leftNodes := leftTree, leftNodes;
    }
  }

  /** The nodes below `n` are among `nodes` and spell out `t`. */
  ghost predicate Represents(n: FmeNode?, t: Tree, nodes: set<FmeNode>)
    reads nodes
    decreases t
  {
    match t
    case Nil => n == null
    case Word(leaf) => n != null && n in nodes && n.kind == LeafNode(leaf) && n.prio == INT_MAX
    case Unary(p, op, a) =>
      n != null && n in nodes && n.kind == UnaryNode(op) && n.prio == p && Represents(n.child, a, nodes)
    case Binary(p, op, l, r) =>
      && n != null && n in nodes && n.kind == BinaryNode(op) && n.prio == p
      && Represents(n.left, l, nodes) && Represents(n.child, r, nodes)
  }

  lemma {:induction false} RepresentsMore(n: FmeNode?, t: Tree, nodes: set<FmeNode>, more: set<FmeNode>)
    requires Represents(n, t, nodes) && nodes <= more
    ensures Represents(n, t, more)
    decreases t
  {
    match t
    case Nil =>
    case Word(_) =>
    case Unary(_, _, a) => RepresentsMore(n.child, a, nodes, more);
    case Binary(_, _, l, r) =>
      RepresentsMore(n.left, l, nodes, more);
      RepresentsMore(n.child, r, nodes, more);
  }

  // ----- The spine -----

  ghost function TreeOf(spine: seq<FmeNode>): Tree {
    if spine == [] then Nil
    else
      var n := spine[0];
      match n.kind
      case LeafNode(leaf) => Word(leaf)
      case UnaryNode(op) => Unary(n.prio, op, TreeOf(spine[1..]))
      case BinaryNode(op) => Binary(n.prio, op, n.leftTree, TreeOf(spine[1..]))
  }

  ghost predicate NodeOk(n: FmeNode)
    reads n.leftNodes
  {
    && (n.kind.LeafNode? ==> n.prio == INT_MAX)
    && (n.kind.BinaryNode? ==> Represents(n.left, n.leftTree, n.leftNodes))
  }

  /** Each node's child is the next one; only the last has none. */
  ghost predicate Linked(spine: seq<FmeNode>)
    reads spine
  {
    && (forall i :: 0 <= i < |spine| - 1 ==> spine[i].child == spine[i + 1] && !spine[i].kind.LeafNode?)
    && (spine != [] ==> spine[|spine| - 1].child == null)
  }

  /** The nodes of the spine are in `nodes` and differ from each other and from all left operands. */
  ghost predicate Apart(spine: seq<FmeNode>, nodes: set<FmeNode>) {
    && (forall i :: 0 <= i < |spine| ==> spine[i] in nodes && spine[i].leftNodes <= nodes)
    && (forall i, j :: 0 <= i < j < |spine| ==> spine[i] != spine[j])
    && (forall i, j :: 0 <= i < |spine| && 0 <= j < |spine| ==> spine[i] !in spine[j].leftNodes)
  }

  lemma {:induction false} SpineRepresents(spine: seq<FmeNode>, nodes: set<FmeNode>)
    requires Linked(spine)
    requires forall i :: 0 <= i < |spine| ==> spine[i] in nodes && spine[i].leftNodes <= nodes && NodeOk(spine[i])
    ensures Represents(if spine == [] then null else spine[0], TreeOf(spine), nodes)
  {
    if spine != [] {
      var n, rest := spine[0], spine[1..];
      if !n.kind.LeafNode? {
        SpineRepresents(rest, nodes);
        if n.kind.BinaryNode? {
          RepresentsMore(n.left, n.leftTree, n.leftNodes, nodes);
        }
      }
    }
  }

  ghost function SetOf(spine: seq<FmeNode>): set<FmeNode> {
    set n | n in spine
  }

  lemma {:induction false} SpliceTree(spine: seq<FmeNode>, k: nat, n: FmeNode)
    requires k <= |spine| && n.prio <= INT_MAX
    requires forall i :: 0 <= i < |spine| && spine[i].kind.LeafNode? ==> spine[i].prio == INT_MAX
    requires forall i :: 0 <= i < k ==> spine[i].prio < n.prio
    requires k < |spine| ==> spine[k].prio >= n.prio
    ensures n.kind.UnaryNode? ==> TreeOf(spine[..k] + [n]) == SpliceUnary(TreeOf(spine), n.prio, n.kind.uop)
    ensures n.kind.BinaryNode? && n.leftTree == TreeOf(spine[k..]) ==>
              TreeOf(spine[..k] + [n]) == SpliceBinary(TreeOf(spine), n.prio, n.kind.bop)
  {
    if k == 0 {
      assert spine[..k] + [n] == [n] && spine[k..] == spine && [n][1..] == [];
    } else {
      SpliceTree(spine[1..], k - 1, n);
      assert (spine[..k] + [n])[1..] == spine[1..][..k - 1] + [n];
      assert spine[k..] == spine[1..][k - 1..];
    }
  }

  lemma {:induction false} GraftTree(spine: seq<FmeNode>, n: FmeNode)
    requires forall i :: 0 <= i < |spine| - 1 ==> !spine[i].kind.LeafNode?
    requires n.kind.LeafNode?
    ensures HasHole(TreeOf(spine)) <==> spine == [] || !spine[|spine| - 1].kind.LeafNode?
    ensures HasHole(TreeOf(spine)) ==> TreeOf(spine + [n]) == Graft(TreeOf(spine), Word(n.kind.leaf))
  {
    if spine == [] {
      assert spine + [n] == [n];
    } else {
      GraftTree(spine[1..], n);
      assert (spine + [n])[1..] == spine[1..] + [n];
    }
  }

  // ----- The expression -----

  class FmeExpression {
    var root: FmeNode?
    ghost var spine: seq<FmeNode>
    ghost var Repr: set<FmeNode>

    ghost predicate Valid()
      reads this, Repr
    {
      && Apart(spine, Repr)
      && root == (if spine == [] then null else spine[0])
      && Linked(spine)
      && forall i :: 0 <= i < |spine| ==> NodeOk(spine[i])
    }

    constructor ()
      ensures Valid() && Repr == {} && spine == []
    {
      root, spine, Repr := null, [], {};
    }

    /** `node` takes `n` as its child; null stands for the expression, which then has `n` as its root.
        What was below `node` leaves the spine. */
    method Insert(node: FmeNode?, n: FmeNode, ghost k: nat)
      requires Valid() && k <= |spine| && node == (if k == 0 then null else spine[k - 1])
      requires k > 0 ==> !spine[k - 1].kind.LeafNode?
      requires n.child == null && n !in Repr && NodeOk(n)
      requires n.leftNodes <= Repr - SetOf(spine[..k])
      modifies this, Repr
      ensures Valid() && Repr == old(Repr) + {n} && spine == old(spine)[..k] + [n]
    {
      if node == null {
        root := n;
      } else {
        node.child := n;
      }
      spine, Repr := spine[..k] + [n], Repr + {n};
    }

    /** From the expression down the spine to the first child that binds no looser than `prio`. */
    method Walk(prio: int) returns (node: FmeNode?, child: FmeNode?, ghost k: nat)
      requires Valid()
      ensures k <= |spine|
      ensures node == (if k == 0 then null else spine[k - 1])
      ensures child == (if k == |spine| then null else spine[k])
      ensures forall i :: 0 <= i < k ==> spine[i].prio < prio
      ensures k < |spine| ==> spine[k].prio >= prio
    {
      node, child, k := null, root, 0;
      while child != null && child.prio < prio
        invariant k <= |spine|
        invariant node == (if k == 0 then null else spine[k - 1])
        invariant child == (if k == |spine| then null else spine[k])
        invariant forall i :: 0 <= i < k ==> spine[i].prio < prio
        decreases |spine| - k
      {
        node, child := child, child.child;
        k := k + 1;
      }
    }

    /** Follows the children to the last node and gives it the operand, if it takes one. */
    method InsertOperand(leaf: Leaf) returns (ok: bool)
      requires Valid()
      modifies this, Repr
      ensures Valid() && fresh(Repr - old(Repr))
      ensures ok <==> HasHole(old(TreeOf(spine)))
      ensures TreeOf(spine) == if ok then Graft(old(TreeOf(spine)), Word(leaf)) else old(TreeOf(spine))
    {
      var node: FmeNode?, child := null, root;
      ghost var k := 0;
      while child != null
        invariant k <= |spine|
        invariant node == (if k == 0 then null else spine[k - 1])
        invariant child == (if k == |spine| then null else spine[k])
        decreases |spine| - k
      {
        node, child := child, child.child;
        k := k + 1;
      }
      var n := new FmeNode(LeafNode(leaf), INT_MAX, null, Nil, {});
      GraftTree(spine, n);
      ok := node == null || !node.kind.LeafNode?;
      if ok {
        assert spine[..|spine|] == spine;
        Insert(node, n, |spine|);
      }
    }

    /** Puts an operator in place of the first child that binds no looser than `prio`. */
    method Splice(kind: Kind, prio: int)
      requires Valid() && !kind.LeafNode? && prio <= INT_MAX
      modifies this, Repr
      ensures Valid() && fresh(Repr - old(Repr))
      ensures kind.UnaryNode? ==> TreeOf(spine) == SpliceUnary(old(TreeOf(spine)), prio, kind.uop)
      ensures kind.BinaryNode? ==> TreeOf(spine) == SpliceBinary(old(TreeOf(spine)), prio, kind.bop)
    {
      var node, child, k := Walk(prio);
      ghost var rest := Repr - SetOf(spine[..k]);
      SpineRepresents(spine[k..], rest);
      var n;
      if kind.BinaryNode? {
        n := new FmeNode(kind, prio, child, TreeOf(spine[k..]), rest);
      } else {
        n := new FmeNode(kind, prio, null, Nil, {});
      }
      SpliceTree(spine, k, n);
      Insert(node, n, k);
    }

    /** One character that is not part of a word; the null character ends the input. */
    method TakeMark(lx: Lexicon, ch: char, base: int, unary: bool) returns (ok: bool, basePrio: int, isUnary: bool)
      requires Valid() && !StepMark(lx, State(TreeOf(spine), base, unary), ch).Undefined?
      modifies this, Repr
      ensures Valid() && fresh(Repr - old(Repr))
      ensures StepMark(lx, old(State(TreeOf(spine), base, unary)), ch)
           == if ok then Going(State(TreeOf(spine), basePrio, isUnary)) else Stuck
    {
      ok, basePrio, isUnary := true, base, unary;
      if lx.isSpace(ch) {
        return;
      }
      var binaryOp: Option<BinaryOp>, unaryOp: Option<UnaryOp> := None, None;
      if ch == '~' {
        unaryOp := Some(Complement);
      } else if ch == '-' {
        if isUnary {
          unaryOp := Some(Negate);
        } else {
          binaryOp := Some(Subtract);
        }
      } else if ch == '+' {
        if isUnary {
          return;
        }
        binaryOp := Some(Add);
      } else if ch == '*' {
        binaryOp := Some(Multiply);
      } else if ch == '/' {
        binaryOp := Some(Divide);
      } else if ch == '|' {
        binaryOp := Some(BitOr);
      } else if ch == '&' {
        binaryOp := Some(BitAnd);
      } else if ch == '^' {
        binaryOp := Some(BitXor);
      } else if ch == '(' {
        basePrio := basePrio + LEVEL;
      } else if ch == ')' {
        basePrio := basePrio - LEVEL;
        ok := basePrio > 0;
      } else {
        ok := false;
      }
      if binaryOp.Some? {
        Splice(BinaryNode(binaryOp.value), basePrio + Rank(binaryOp.value));
        isUnary := true;
      } else if unaryOp.Some? {
        Splice(UnaryNode(unaryOp.value), basePrio + UNARY_RANK);
      }
    }

    /** A complete word: a number or a symbol. */
    method TakeWord(lx: Lexicon, word: string, ghost base: int, ghost unary: bool) returns (ok: bool)
      requires Valid() && word != ""
      modifies this, Repr
      ensures Valid() && fresh(Repr - old(Repr))
      ensures Step(old(State(TreeOf(spine), base, unary)), WordToken(lx, word))
           == if ok then Going(State(TreeOf(spine), base, false)) else Stuck
    {
      var leaf;
      if lx.isDigit(word[0]) {
        var number := lx.toNumber(word);
        if number.None? {
          return false;
        }
        leaf := Constant(number.value);
      } else {
        leaf := Symbol(word);
      }
      ok := InsertOperand(leaf);
    }

    /** The position `i` does not continue a word: finish the word before it, if any, and
        take the character there, if any. */
    method TakeAt(lx: Lexicon, s: string, i: nat, inWord: bool, wordStart: nat, base: int, unary: bool)
      returns (ok: bool, done: bool, basePrio: int, isUnary: bool)
      requires Valid() && lx.Sane() && i <= |s| && (i < |s| ==> !lx.IsWord(s[i]))
      requires inWord ==> IsWordRange(lx, s, wordStart, i)
      requires !Rest(lx, s, if inWord then wordStart else i, State(TreeOf(spine), base, unary)).Undefined?
      modifies this, Repr
      ensures Valid() && fresh(Repr - old(Repr))
      ensures var goal := Rest(lx, s, if inWord then wordStart else i, old(State(TreeOf(spine), base, unary)));
              && (!ok ==> done && goal == Stuck)
              && (ok && done ==> goal == Going(State(TreeOf(spine), basePrio, isUnary)))
              && (!done ==> i < |s| && goal == Rest(lx, s, i + 1, State(TreeOf(spine), basePrio, isUnary)))
    {
      ok, done, basePrio, isUnary := true, false, base, unary;
      if inWord {
        RestAtWord(lx, s, wordStart, i, State(TreeOf(spine), base, unary));
        ok := TakeWord(lx, s[wordStart..i], base, unary);
        isUnary := false;
        done := !ok || i >= |s|;
      }
      if !done {
        ghost var before := Repr;
        RestAtMark(lx, s, i, State(TreeOf(spine), basePrio, isUnary));
        ok, basePrio, isUnary := TakeMark(lx, if i < |s| then s[i] else '\0', basePrio, isUnary);
        assert fresh(Repr - old(Repr)) by { assert forall m :: m in Repr ==> m in before || m in Repr - before; }
        done := !ok;
      }
    }

    /** Reads the characters one by one, a word as long as it lasts, and grows the tree. */
    method Parse(lx: Lexicon, expression: string) returns (ok: bool)
      requires lx.Sane() && !Run(Start, Lex(lx, expression)).Undefined?
      modifies this
      ensures Valid() && fresh(Repr)
      ensures ok <==> Run(Start, Lex(lx, expression)).Going?
      ensures ok ==> TreeOf(spine) == Run(Start, Lex(lx, expression)).state.content
    {
      root, spine, Repr := null, [], {};
      var basePrio, isUnary := LEVEL, true;
      var inWord, wordStart := false, 0;
      var i := 0;
      ghost var goal := Run(Start, Lex(lx, expression));
      assert expression[0..] == expression;
      while true
        invariant Valid() && fresh(Repr)
        invariant i <= |expression| && (inWord ==> IsWordRange(lx, expression, wordStart, i))
        invariant goal == Rest(lx, expression, if inWord then wordStart else i, State(TreeOf(spine), basePrio, isUnary))
        decreases |expression| - i
      {
        if i >= |expression| || !lx.IsWord(expression[i]) {
          ghost var before := Repr;
          var done;
          ok, done, basePrio, isUnary := TakeAt(lx, expression, i, inWord, wordStart, basePrio, isUnary);
          assert fresh(Repr) by { assert forall m :: m in Repr ==> m in before || m in Repr - before; }
          if done {
            return;
          }
          inWord := false;
        } else {
          if !inWord {
            wordStart := i;
          }
          inWord := true;
        }
        i := i + 1;
      }
    }

    /** Evaluates the tree as the nodes do, operand by operand. */
    method Eval(env: Symbols) returns (r: Outcome)
      requires Valid()
      ensures r == FixMathEval.Eval(TreeOf(spine), env)
    {
      if root == null {
        return NoValue;
      }
      SpineRepresents(spine, Repr);
      r := EvalNode(root, TreeOf(spine), Repr, env);
    }
  }

  method EvalNode(n: FmeNode, ghost t: Tree, ghost nodes: set<FmeNode>, env: Symbols) returns (r: Outcome)
    requires Represents(n, t, nodes)
    ensures r == FixMathEval.Eval(t, env)
    decreases t
  {
    match n.kind
    case LeafNode(leaf) =>
      r := EvalLeaf(leaf, env);
    case UnaryNode(op) =>
      if n.child == null {
        return NoValue;
      }
      r := EvalNode(n.child, t.arg, nodes, env);
      if r.Value? {
        r := ComputeUnary(op, r.v);
      }
    case BinaryNode(op) =>
      if n.left == null || n.child == null {
        return NoValue;
      }
      var a := EvalNode(n.left, t.left, nodes, env);
      if !a.Value? {
        return a;
      }
      r := EvalNode(n.child, t.right, nodes, env);
      if r.Value? {
        r := Compute(op, a.v, r.v);
      }
  }

  // ----- What is left to read -----

  function StepMark(lx: Lexicon, s: State<Tree>, ch: char): Result<Tree> {
    if lx.isSpace(ch) then Going(s) else Step(s, CharToken(ch))
  }

  ghost predicate IsWordRange(lx: Lexicon, s: string, from: nat, to: nat) {
    from < to <= |s| && forall j :: from <= j < to ==> lx.IsWord(s[j])
  }

  /** The outcome of parsing the characters from `i` on in state `st`. */
  ghost function Rest(lx: Lexicon, s: string, i: nat, st: State<Tree>): Result<Tree>
    requires i <= |s|
  {
    Run(st, Lex(lx, s[i..]))
  }

  lemma {:induction false} RunCons(s: State<Tree>, tok: Token, rest: Tokens)
    ensures Run(s, [tok] + rest) == match Step(s, tok) case Going(s') => Run(s', rest) case r => r
  {
    assert ([tok] + rest)[1..] == rest;
  }

  lemma RestAtWord(lx: Lexicon, s: string, from: nat, to: nat, st: State<Tree>)
    requires IsWordRange(lx, s, from, to) && (to < |s| ==> !lx.IsWord(s[to]))
    ensures var step := Step(st, WordToken(lx, s[from..to]));
            Rest(lx, s, from, st) ==
            if !step.Going? then step else if to == |s| then step else Rest(lx, s, to, step.state)
  {
    var w := s[from..to];
    assert s[from..] == w + s[to..];
    LexWord(lx, w, s[to..]);
    RunCons(st, WordToken(lx, w), if to == |s| then [] else Lex(lx, s[to..]));
  }

  lemma RestAtMark(lx: Lexicon, s: string, i: nat, st: State<Tree>)
    requires lx.Sane() && i <= |s| && (i < |s| ==> !lx.IsWord(s[i]))
    ensures i == |s| ==> Rest(lx, s, i, st) == StepMark(lx, st, '\0') == Stuck
    ensures i < |s| ==>
              var step := StepMark(lx, st, s[i]);
              Rest(lx, s, i, st) == if step.Going? then Rest(lx, s, i + 1, step.state) else step
  {
    if i == |s| {
      assert '\0' in "~-+*/|&^()\0";
      assert Lex(lx, s[i..]) == [Junk];
    } else {
      assert s[i..][1..] == s[i + 1..];
      if !lx.isSpace(s[i]) {
        RunCons(st, CharToken(s[i]), Lex(lx, s[i + 1..]));
      }
    }
  }
}

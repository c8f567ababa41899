/**
 Evaluation of parsed expressions over 64-bit values, and the round trip: an expression
 printed with just the brackets the parser needs is parsed back to itself.
 */
module FixMathEval {
  import opened Basics
  import opened FixMath

  // ----- Values -----

  const INT64_MIN := -0x8000_0000_0000_0000
  const INT64_MAX := 0x7fff_ffff_ffff_ffff

  predicate Fits(v: int) {
    INT64_MIN <= v <= INT64_MAX
  }

  /** `NoValue`: evaluation returns false. `Fault`: it leaves the range of the 64-bit type or divides by zero. */
  datatype Outcome = Value(v: int) | NoValue | Fault

  function Checked(v: int): Outcome {
    if Fits(v) then Value(v) else Fault
  }

  /** The quotient rounded toward zero. */
  function Quotient(a: int, b: int): int
    requires b != 0
  {
    if a >= 0 then a / b else -((-a) / b)
  }

  /** How many halvings bring a two's-complement integer to 0 or -1. */
  function Magnitude(a: int): nat {
    if a >= 0 then a else -a - 1
  }

  function Bit(a: int): bool { a % 2 == 1 }

  /** A bitwise operator on two's-complement integers of unlimited width. */
  function Bitwise(op: BinaryOp, a: int, b: int): int
    decreases Magnitude(a) + Magnitude(b)
  {
    if Magnitude(a) == 0 && Magnitude(b) == 0 then -OnBits(op, a != 0, b != 0)
    else 2 * Bitwise(op, a / 2, b / 2) + OnBits(op, Bit(a), Bit(b))
  }

  function OnBits(op: BinaryOp, a: bool, b: bool): int {
    if (if op.BitOr? then a || b else if op.BitAnd? then a && b else a != b) then 1 else 0
  }

  function Compute(op: BinaryOp, a: int, b: int): Outcome {
    match op
    case Add => Checked(a + b)
    case Subtract => Checked(a - b)
    case Multiply => Checked(a * b)
    case Divide => if b == 0 then Fault else Checked(Quotient(a, b))
    case BitOr | BitAnd | BitXor => Value(Bitwise(op, a, b))
  }

  function ComputeUnary(op: UnaryOp, a: int): Outcome {
    if op.Negate? then Checked(-a) else Value(-a - 1)
  }

  function Power2(n: nat): (p: int)
    ensures p > 0
  {
    if n == 0 then 1 else 2 * Power2(n - 1)
  }

  /** Bitwise operators stay within any two's-complement width. */
  lemma {:induction false} BitwiseKeepsWidth(op: BinaryOp, a: int, b: int, n: nat)
    requires -Power2(n) <= a < Power2(n) && -Power2(n) <= b < Power2(n)
    ensures -Power2(n) <= Bitwise(op, a, b) < Power2(n)
    decreases n
  {
    if n > 0 && !(Magnitude(a) == 0 && Magnitude(b) == 0) {
      BitwiseKeepsWidth(op, a / 2, b / 2, n - 1);
    }
  }

  /** Bit `k` of a two's-complement integer. */
  function BitAt(a: int, k: nat): bool
    decreases k
  {
    if k == 0 then Bit(a) else BitAt(a / 2, k - 1)
  }

  lemma {:induction false} BitsOfSign(k: nat)
    ensures !BitAt(0, k) && BitAt(-1, k)
  {
    if k > 0 {
      BitsOfSign(k - 1);
    }
  }

  /** Bitwise operators act on every bit by itself. */
  lemma {:induction false} BitwiseActsOnBits(op: BinaryOp, a: int, b: int, k: nat)
    requires op.BitOr? || op.BitAnd? || op.BitXor?
    ensures var bit, x, y := BitAt(Bitwise(op, a, b), k), BitAt(a, k), BitAt(b, k);
            match op
            case BitOr => bit == (x || y)
            case BitAnd => bit == (x && y)
            case _ => bit == (x != y)
    decreases k
  {
    if Magnitude(a) == 0 && Magnitude(b) == 0 {
      BitsOfSign(k);
    } else if k > 0 {
      BitwiseActsOnBits(op, a / 2, b / 2, k - 1);
      assert Bitwise(op, a, b) / 2 == Bitwise(op, a / 2, b / 2);
    }
  }

  /** A remainder smaller than the divisor, with the sign of the dividend. */
  predicate Truncates(a: int, b: int, product: int) {
    && (if b > 0 then -b < a - product < b else b < a - product < -b)
    && (a >= 0 ==> product <= a) && (a <= 0 ==> product >= a)
  }

  lemma QuotientTruncates(a: int, b: int, product: int)
    requires b != 0 && product == Quotient(a, b) * b
    ensures Truncates(a, b, product)
  {
    if a >= 0 {
      assert a == product + a % b;
    } else {
      Opposite((-a) / b, b);
      assert -a == -product + (-a) % b;
    }
  }

  lemma ProductsApart(q: int, q': int, b: int)
    requires b != 0 && q > q'
    ensures if b > 0 then q * b >= q' * b + b else q * b <= q' * b + b
  {
    var d := q - q' - 1;
    assert q * b == q' * b + b + d * b;
    if b > 0 {
      assert d * b >= 0;
    } else {
      assert d * (-b) >= 0;
    }
  }

  /** The quotient is that of C++: the one number that leaves a remainder smaller than the divisor, with the sign of
      the dividend. */
  lemma QuotientIsTheTruncatedOne(a: int, b: int, q: int)
    requires b != 0
    ensures q == Quotient(a, b) <==> Truncates(a, b, q * b)
  {
    var p := Quotient(a, b);
    QuotientTruncates(a, b, p * b);
    if Truncates(a, b, q * b) && q != p {
      if q > p {
        ProductsApart(q, p, b);
      } else {
        ProductsApart(p, q, b);
      }
      assert false;
    }
  }

  lemma Opposite(q: int, b: int)
    ensures (-q) * b == -(q * b)
  {
  }

  lemma ComputeFits(op: BinaryOp, a: int, b: int)
    requires Fits(a) && Fits(b)
    ensures Compute(op, a, b).Value? ==> Fits(Compute(op, a, b).v)
  {
    Power2Of63();
    BitwiseKeepsWidth(op, a, b, 63);
  }

  lemma {:induction false} Power2Sum(m: nat, n: nat)
    ensures Power2(m + n) == Power2(m) * Power2(n)
  {
    if m > 0 {
      Power2Sum(m - 1, n);
    }
  }

  lemma Power2Of63()
    ensures Power2(63) == INT64_MAX + 1
  {
    assert Power2(7) == 128;
    Power2Sum(7, 7);
    Power2Sum(14, 7);
    Power2Sum(21, 21);
    Power2Sum(42, 21);
  }

  // ----- Evaluation -----

  type Symbols = map<string, int>

  function EvalLeaf(leaf: Leaf, env: Symbols): Outcome {
    match leaf
    case Constant(v) => Value(v)
    case Symbol(name) => if name in env then Value(env[name]) else NoValue
  }

  function Eval(t: Tree, env: Symbols): Outcome {
    match t
    case Nil => NoValue
    case Word(leaf) => EvalLeaf(leaf, env)
    case Unary(_, op, a) =>
      if a.Nil? then NoValue else
      (match Eval(a, env)
       case Value(v) => ComputeUnary(op, v)
       case r => r)
    case Binary(_, op, l, r) =>
      if l.Nil? || r.Nil? then NoValue else
      match Eval(l, env)
      case Value(v) =>
        (match Eval(r, env)
         case Value(w) => Compute(op, v, w)
         case x => x)
      case x => x
  }

  ghost predicate Extends(bigger: Symbols, smaller: Symbols) {
    forall name :: name in smaller ==> name in bigger && bigger[name] == smaller[name]
  }

  /** A value once found stays the same whatever symbols are added. */
  lemma {:induction false} EvalMonotone(t: Tree, smaller: Symbols, bigger: Symbols)
    requires Extends(bigger, smaller) && Eval(t, smaller).Value?
    ensures Eval(t, bigger) == Eval(t, smaller)
  {
    match t
    case Word(_) =>
    case Unary(_, _, a) => EvalMonotone(a, smaller, bigger);
    case Binary(_, _, l, r) =>
      EvalMonotone(l, smaller, bigger);
      EvalMonotone(r, smaller, bigger);
  }

  // ----- Expressions and their meaning -----

  datatype Expr =
    | Atom(leaf: Leaf)
    | Prefix(uop: UnaryOp, arg: Expr)
    | Infix(bop: BinaryOp, left: Expr, right: Expr)

  function Meaning(e: Expr, env: Symbols): Outcome {
    match e
    case Atom(leaf) => EvalLeaf(leaf, env)
    case Prefix(op, a) =>
      var x := Meaning(a, env);
      if x.Value? then ComputeUnary(op, x.v) else x
    case Infix(op, l, r) =>
      var x, y := Meaning(l, env), Meaning(r, env);
      if !x.Value? then x else if !y.Value? then y else Compute(op, x.v, y.v)
  }

  // ----- Printing -----

  function Binding(e: Expr): int {
    match e
    case Atom(_) => INT_MAX
    case Prefix(_, _) => UNARY_RANK
    case Infix(op, _, _) => Rank(op)
  }

  function UnaryToken(op: UnaryOp): Token {
    if op.Negate? then Minus else Tilde
  }

  function BinaryToken(op: BinaryOp): Token {
    match op
    case Add => Plus
    case Subtract => Minus
    case Multiply => Star
    case Divide => Slash
    case BitOr => Bar
    case BitAnd => Amp
    case BitXor => Caret
  }

  function Bracketed(needed: bool, toks: Tokens): Tokens {
    if needed then [Open] + toks + [Close] else toks
  }

  /** Brackets go round a left operand that binds looser than its operator, and round a right
      operand or a prefixed operand that does not bind tighter. */
  function Print(e: Expr): (toks: Tokens)
    ensures toks != []
  {
    match e
    case Atom(leaf) => [Operand(leaf)]
    case Prefix(op, a) => [UnaryToken(op)] + Bracketed(Binding(a) <= UNARY_RANK, Print(a))
    case Infix(op, l, r) =>
      Bracketed(Binding(l) < Rank(op), Print(l)) + [BinaryToken(op)] + Bracketed(Binding(r) <= Rank(op), Print(r))
  }

  /** The largest priority that parsing the printed form reaches above its base. */
  function Peak(e: Expr): int {
    match e
    case Atom(_) => 0
    case Prefix(_, a) => Max(UNARY_RANK, Raised(Binding(a) <= UNARY_RANK, Peak(a)))
    case Infix(op, l, r) =>
      Max(Rank(op), Max(Raised(Binding(l) < Rank(op), Peak(l)), Raised(Binding(r) <= Rank(op), Peak(r))))
  }

  function Raised(bracketed: bool, peak: int): int { if bracketed then LEVEL + peak else peak }

  /** The tree for `e` printed at bracket level `base`. */
  function Place(e: Expr, base: int): Tree {
    match e
    case Atom(leaf) => Word(leaf)
    case Prefix(op, a) => Unary(base + UNARY_RANK, op, Place(a, Raised(Binding(a) <= UNARY_RANK, base)))
    case Infix(op, l, r) =>
      Binary(base + Rank(op), op,
             Place(l, Raised(Binding(l) < Rank(op), base)),
             Place(r, Raised(Binding(r) <= Rank(op), base)))
  }

  /** Every node on the right spine has a priority below `p`. */
  predicate SpineBelow(t: Tree, p: int) {
    match t
    case Nil => true
    case Word(_) => INT_MAX < p
    case Unary(q, _, a) => q < p && SpineBelow(a, p)
    case Binary(q, _, _, r) => q < p && SpineBelow(r, p)
  }

  lemma {:induction false} SpliceAtHole(t: Tree, p: int, uop: UnaryOp)
    requires HasHole(t) && SpineBelow(t, p) && p <= INT_MAX
    ensures SpliceUnary(t, p, uop) == Graft(t, Unary(p, uop, Nil))
  {
    match t
    case Nil =>
    case Unary(_, _, a) => SpliceAtHole(a, p, uop);
    case Binary(_, _, _, r) => SpliceAtHole(r, p, uop);
  }

  lemma {:induction false} SpliceAboveGraft(t: Tree, sub: Tree, p: int, op: BinaryOp)
    requires HasHole(t) && SpineBelow(t, p) && p <= INT_MAX
    requires !sub.Nil? && Priority(sub) >= p
    ensures SpliceBinary(Graft(t, sub), p, op) == Graft(t, Binary(p, op, sub, Nil))
  {
    match t
    case Nil =>
    case Unary(_, _, a) => SpliceAboveGraft(a, sub, p, op);
    case Binary(_, _, _, r) => SpliceAboveGraft(r, sub, p, op);
  }

  lemma {:induction false} GraftTwice(t: Tree, sub: Tree, x: Tree, p: int)
    requires HasHole(t) && HasHole(sub)
    ensures HasHole(Graft(t, sub)) && Graft(Graft(t, sub), x) == Graft(t, Graft(sub, x))
    ensures SpineBelow(t, p) && SpineBelow(sub, p) ==> SpineBelow(Graft(t, sub), p)
  {
    match t
    case Nil =>
    case Unary(_, _, a) => GraftTwice(a, sub, x, p);
    case Binary(_, _, _, r) => GraftTwice(r, sub, x, p);
  }

  lemma {:induction false} SpineBelowMore(t: Tree, p: int, q: int)
    requires SpineBelow(t, p) && p <= q
    ensures SpineBelow(t, q)
  {
    match t
    case Nil =>
    case Word(_) =>
    case Unary(_, _, a) => SpineBelowMore(a, p, q);
    case Binary(_, _, _, r) => SpineBelowMore(r, p, q);
  }

  /** Every operator above the hole binds looser than the root of `e` will. */
  predicate Looser(t: Tree, e: Expr, base: int) {
    e.Atom? || SpineBelow(t, base + Binding(e))
  }

  ghost predicate Filled(r: Result<Tree>, t: Tree, sub: Tree, base: int)
    requires HasHole(t)
  {
    r == Going(State(Graft(t, sub), base, false))
  }

  lemma {:induction false} ParseBracketed(needed: bool, e: Expr, t: Tree, base: int)
    requires HasHole(t) && base > 0 && base + Raised(needed, Peak(e)) <= INT_MAX && Peak(e) >= 0
    requires Looser(t, e, Raised(needed, base))
    ensures Filled(Run(State(t, base, true), Bracketed(needed, Print(e))), t, Place(e, Raised(needed, base)), base)
    decreases e, 1
  {
    var inner := Raised(needed, base);
    ParsePrinted(e, t, inner);
    if needed {
      var s := State(t, base, true);
      assert Run(s, [Open]) == Going(State(t, inner, true)) by { assert [Open][1..] == []; }
      RunAppend(s, [Open], Print(e));
      RunAppend(s, [Open] + Print(e), [Close]);
      var done := State(Graft(t, Place(e, inner)), inner, false);
      assert Run(done, [Close]) == Going(done.(base := base)) by { assert [Close][1..] == []; }
    }
  }

  lemma {:induction false} PeakNonNegative(e: Expr)
    ensures Peak(e) >= 0 && (!e.Atom? ==> Peak(e) >= Binding(e))
  {
    match e
    case Atom(_) =>
    case Prefix(_, a) =>
    case Infix(_, l, r) =>
  }

  lemma {:induction false} ParsePrinted(e: Expr, t: Tree, base: int)
    requires HasHole(t) && base > 0 && base + Peak(e) <= INT_MAX
    requires Looser(t, e, base)
    ensures Filled(Run(State(t, base, true), Print(e)), t, Place(e, base), base)
    decreases e, 0
  {
    match e
    case Atom(_) => assert Print(e)[1..] == [];
    case Prefix(_, _) => ParsePrefix(e, t, base);
    case Infix(_, _, _) => ParseInfix(e, t, base);
  }

  lemma {:induction false} ParsePrefix(e: Expr, t: Tree, base: int)
    requires e.Prefix?
    requires HasHole(t) && base > 0 && base + Peak(e) <= INT_MAX
    requires Looser(t, e, base)
    ensures Filled(Run(State(t, base, true), Print(e)), t, Place(e, base), base)
    decreases e.arg, 2
  {
    var a, p, bracket := e.arg, base + UNARY_RANK, Binding(e.arg) <= UNARY_RANK;
    PeakNonNegative(a);
    var s, pending := State(t, base, true), Graft(t, Unary(p, e.uop, Nil));
    SpliceAtHole(t, p, e.uop);
    assert Run(s, [UnaryToken(e.uop)]) == Going(State(pending, base, true)) by {
      assert [UnaryToken(e.uop)][1..] == [];
    }
    var below := if a.Atom? then p else Raised(bracket, base) + Binding(a);
    SpineBelowMore(t, p, below);
    assert SpineBelow(Unary(p, e.uop, Nil), below) || a.Atom?;
    GraftTwice(t, Unary(p, e.uop, Nil), Place(a, Raised(bracket, base)), below);
    ParseBracketed(bracket, a, pending, base);
    RunAppend(s, [UnaryToken(e.uop)], Bracketed(bracket, Print(a)));
  }

  lemma {:induction false} ParseLeft(e: Expr, t: Tree, base: int)
    requires e.Infix?
    requires HasHole(t) && base > 0 && base + Peak(e) <= INT_MAX
    requires Looser(t, e, base)
    ensures var bracket := Binding(e.left) < Rank(e.bop);
            var node := Binary(base + Rank(e.bop), e.bop, Place(e.left, Raised(bracket, base)), Nil);
            Run(State(t, base, true), Bracketed(bracket, Print(e.left)) + [BinaryToken(e.bop)])
              == Going(State(Graft(t, node), base, true))
    decreases e.left, 2
  {
    var l, p, bracket := e.left, base + Rank(e.bop), Binding(e.left) < Rank(e.bop);
    PeakNonNegative(l);
    if !l.Atom? {
      SpineBelowMore(t, p, Raised(bracket, base) + Binding(l));
    }
    ParseBracketed(bracket, l, t, base);
    var left := Place(l, Raised(bracket, base));
    var s, s1 := State(t, base, true), State(Graft(t, left), base, false);
    var s2 := State(Graft(t, Binary(p, e.bop, left, Nil)), base, true);
    BinaryStep(t, left, base, p, e.bop, s1, s2);
    OneMore(s, Bracketed(bracket, Print(l)), BinaryToken(e.bop), s1, s2);
  }

  lemma BinaryStep(t: Tree, left: Tree, base: int, p: int, op: BinaryOp, s1: State<Tree>, s2: State<Tree>)
    requires HasHole(t) && SpineBelow(t, p) && p == base + Rank(op) <= INT_MAX && !left.Nil? && Priority(left) >= p
    requires s1 == State(Graft(t, left), base, false) && s2 == State(Graft(t, Binary(p, op, left, Nil)), base, true)
    ensures Step(s1, BinaryToken(op)) == Going(s2)
  {
    SpliceAboveGraft(t, left, p, op);
  }

  lemma OneMore(s: State<Tree>, toks: seq<Token>, tok: Token, s1: State<Tree>, s2: State<Tree>)
    requires Run(s, toks) == Going(s1) && Step(s1, tok) == Going(s2)
    ensures Run(s, toks + [tok]) == Going(s2)
  {
    RunAppend(s, toks, [tok]);
    RunOne(s1, tok);
  }

  lemma RunOne(s: State<Tree>, tok: Token)
    ensures Run(s, [tok]) == Step(s, tok)
  {
    assert [tok][1..] == [];
  }

  lemma {:induction false} ParseRight(e: Expr, t: Tree, left: Tree, base: int)
    requires e.Infix?
    requires HasHole(t) && base > 0 && base + Peak(e) <= INT_MAX
    requires Looser(t, e, base)
    ensures var bracket := Binding(e.right) <= Rank(e.bop);
            var node := Binary(base + Rank(e.bop), e.bop, left, Nil);
            && HasHole(Graft(t, node))
            && Filled(Run(State(Graft(t, node), base, true), Bracketed(bracket, Print(e.right))), t,
                      node.(right := Place(e.right, Raised(bracket, base))), base)
    decreases e.right, 2
  {
    var r, p, bracket := e.right, base + Rank(e.bop), Binding(e.right) <= Rank(e.bop);
    PeakNonNegative(r);
    var below := if r.Atom? then p else Raised(bracket, base) + Binding(r);
    SpineBelowMore(t, p, below);
    var node := Binary(p, e.bop, left, Nil);
    assert SpineBelow(node, below) || r.Atom?;
    GraftTwice(t, node, Place(r, Raised(bracket, base)), below);
    ParseBracketed(bracket, r, Graft(t, node), base);
  }

  lemma {:induction false} ParseInfix(e: Expr, t: Tree, base: int)
    requires e.Infix?
    requires HasHole(t) && base > 0 && base + Peak(e) <= INT_MAX
    requires Looser(t, e, base)
    ensures Filled(Run(State(t, base, true), Print(e)), t, Place(e, base), base)
    decreases e, 0, 0
  {
    var lb, rb := Binding(e.left) < Rank(e.bop), Binding(e.right) <= Rank(e.bop);
    ParseLeft(e, t, base);
    ParseRight(e, t, Place(e.left, Raised(lb, base)), base);
    RunAppend(State(t, base, true), Bracketed(lb, Print(e.left)) + [BinaryToken(e.bop)], Bracketed(rb, Print(e.right)));
  }

  // ----- Main results -----

  predicate Complete(t: Tree) {
    match t
    case Nil => false
    case Word(_) => true
    case Unary(_, _, a) => Complete(a)
    case Binary(_, _, l, r) => Complete(l) && Complete(r)
  }

  /** The expression a tree without missing operands stands for. */
  function Erase(t: Tree): Expr
    requires Complete(t)
  {
    match t
    case Word(leaf) => Atom(leaf)
    case Unary(_, op, a) => Prefix(op, Erase(a))
    case Binary(_, op, l, r) => Infix(op, Erase(l), Erase(r))
  }

  /** Evaluation returns false for a tree with a missing operand unless it goes wrong
      earlier; a complete tree evaluates to the meaning of its expression. */
  lemma {:induction false} EvalIsMeaning(t: Tree, env: Symbols)
    ensures Complete(t) ==> Eval(t, env) == Meaning(Erase(t), env)
    ensures !Complete(t) ==> !Eval(t, env).Value?
  {
    match t
    case Nil =>
    case Word(_) =>
    case Unary(_, _, a) => EvalIsMeaning(a, env);
    case Binary(_, _, l, r) => EvalIsMeaning(l, env); EvalIsMeaning(r, env);
  }

  lemma {:induction false} PlaceErases(e: Expr, base: int)
    ensures Complete(Place(e, base)) && Erase(Place(e, base)) == e
  {
    match e
    case Atom(_) =>
    case Prefix(_, a) => PlaceErases(a, Raised(Binding(a) <= UNARY_RANK, base));
    case Infix(op, l, r) =>
      PlaceErases(l, Raised(Binding(l) < Rank(op), base));
      PlaceErases(r, Raised(Binding(r) <= Rank(op), base));
  }

  /** Printing an expression and parsing the tokens gives the expression back, with its meaning. */
  lemma PrintParseRoundTrip(e: Expr, env: Symbols)
    requires LEVEL + Peak(e) <= INT_MAX
    ensures var r := Run(Start, Print(e));
            && r.Going? && Complete(r.state.content) && Erase(r.state.content) == e
            && Eval(r.state.content, env) == Meaning(e, env)
  {
    ParsePrinted(e, Nil, LEVEL);
    PlaceErases(e, LEVEL);
    EvalIsMeaning(Place(e, LEVEL), env);
  }

  lemma {:induction false} SecondSpliceReplacesFirst(t: Tree, p: int, a: UnaryOp, b: UnaryOp)
    requires p <= INT_MAX
    ensures SpliceUnary(SpliceUnary(t, p, a), p, b) == SpliceUnary(t, p, b)
  {
    if t.Nil? || Priority(t) >= p {
    } else if t.Unary? {
      SecondSpliceReplacesFirst(t.arg, p, a, b);
    } else {
      SecondSpliceReplacesFirst(t.right, p, a, b);
    }
  }

  lemma RunTwo(s: State<Tree>, first: Token, second: Token)
    ensures Run(s, [first, second]) == match Step(s, first) case Going(s') => Step(s', second) case r => r
  {
    assert [first, second][1..] == [second];
    match Step(s, first)
    case Going(s') => RunOne(s', second);
    case _ =>
  }

  lemma StepUnary(s: State<Tree>, op: UnaryOp)
    requires s.unary
    ensures Step(s, UnaryToken(op)) ==
            if s.base + UNARY_RANK > INT_MAX then Undefined
            else Going(s.(content := SpliceUnary(s.content, s.base + UNARY_RANK, op)))
  {
  }

  /** In every state where an operand is due, two unary operators with no bracket between
      them parse as the second one alone. */
  lemma AdjacentUnaryDropsTheFirst(s: State<Tree>, a: UnaryOp, b: UnaryOp)
    requires s.unary
    ensures Run(s, [UnaryToken(a), UnaryToken(b)]) == Run(s, [UnaryToken(b)])
  {
    RunTwo(s, UnaryToken(a), UnaryToken(b));
    RunOne(s, UnaryToken(b));
    StepUnary(s, a);
    StepUnary(s, b);
    var p := s.base + UNARY_RANK;
    if p <= INT_MAX {
      StepUnary(s.(content := SpliceUnary(s.content, p, a)), b);
      SecondSpliceReplacesFirst(s.content, p, a, b);
    }
  }
}

/**
 What the operators of expressions mean, without saying how their results are computed.
 */
module FixMathValues {
  import opened FixMath
  import opened FixMathEval

  predicate Is64Bit(v: int) {
    -0x8000_0000_0000_0000 <= v <= 0x7fff_ffff_ffff_ffff
  }

  /** The value of `a` with the operator between it and `b`. Division leaves a remainder smaller than the divisor, with
      the sign of the dividend; the bitwise operators decide about each bit of the two's complement by itself. */
  ghost predicate IsResult(op: BinaryOp, a: int, b: int, v: int) {
    match op
    case Add => v - a == b
    case Subtract => v + b == a
    case Multiply => v == a * b
    case Divide => b != 0 && Truncates(a, b, v * b)
    case BitOr => forall k: nat :: BitAt(v, k) == (BitAt(a, k) || BitAt(b, k))
    case BitAnd => forall k: nat :: BitAt(v, k) == (BitAt(a, k) && BitAt(b, k))
    case BitXor => forall k: nat :: BitAt(v, k) == (BitAt(a, k) != BitAt(b, k))
  }

  ghost predicate IsUnaryResult(op: UnaryOp, a: int, v: int) {
    match op
    case Negate => v + a == 0
    case Complement => forall k: nat :: BitAt(v, k) != BitAt(a, k)
  }

  // ----- Bits -----

  lemma SameHalves(a: int, b: int)
    requires forall k: nat :: BitAt(a, k) == BitAt(b, k)
    ensures forall k: nat :: BitAt(a / 2, k) == BitAt(b / 2, k)
  {
    forall k: nat
      ensures BitAt(a / 2, k) == BitAt(b / 2, k)
    {
      assert BitAt(a, k + 1) == BitAt(b, k + 1);
    }
  }

  /** A number is determined by its bits. */
  lemma {:induction false} BitsDetermine(a: int, b: int)
    requires forall k: nat :: BitAt(a, k) == BitAt(b, k)
    ensures a == b
    decreases Magnitude(a) + Magnitude(b)
  {
    assert BitAt(a, 0) == BitAt(b, 0);
    if Magnitude(a) + Magnitude(b) > 0 {
      SameHalves(a, b);
      BitsDetermine(a / 2, b / 2);
    }
  }

  lemma {:induction false} ComplementBits(a: int, k: nat)
    ensures BitAt(-a - 1, k) != BitAt(a, k)
    decreases k
  {
    if k > 0 {
      assert (-a - 1) / 2 == -(a / 2) - 1;
      ComplementBits(a / 2, k - 1);
    }
  }

  // ----- The operators -----

  lemma BitwiseExactly(op: BinaryOp, a: int, b: int, v: int)
    requires op.BitOr? || op.BitAnd? || op.BitXor?
    ensures v == Bitwise(op, a, b) <==> IsResult(op, a, b, v)
  {
    var w := Bitwise(op, a, b);
    forall k: nat
      ensures BitAt(w, k) == match op
                             case BitOr => BitAt(a, k) || BitAt(b, k)
                             case BitAnd => BitAt(a, k) && BitAt(b, k)
                             case _ => BitAt(a, k) != BitAt(b, k)
    {
      BitwiseActsOnBits(op, a, b, k);
    }
    if IsResult(op, a, b, v) {
      BitsDetermine(v, w);
    }
  }

  /** A binary operator has a value just if the result that it means fits 64 bits, and then that value. */
  lemma ComputeExactly(op: BinaryOp, a: int, b: int, v: int)
    requires Is64Bit(a) && Is64Bit(b)
    ensures Compute(op, a, b) == Value(v) <==> Is64Bit(v) && IsResult(op, a, b, v)
    ensures Compute(op, a, b) != NoValue
  {
    match op
    case Divide =>
      if b != 0 {
        QuotientIsTheTruncatedOne(a, b, v);
      }
    case BitOr | BitAnd | BitXor =>
      BitwiseExactly(op, a, b, v);
      ComputeFits(op, a, b);
    case _ =>
  }

  lemma ComputeUnaryExactly(op: UnaryOp, a: int, v: int)
    requires Is64Bit(a)
    ensures ComputeUnary(op, a) == Value(v) <==> Is64Bit(v) && IsUnaryResult(op, a, v)
    ensures ComputeUnary(op, a) != NoValue
  {
    if op.Complement? {
      forall k: nat
        ensures BitAt(-a - 1, k) != BitAt(a, k)
      {
        ComplementBits(a, k);
      }
      if IsUnaryResult(op, a, v) {
        assert forall k: nat :: BitAt(v, k) == BitAt(-a - 1, k);
        BitsDetermine(v, -a - 1);
      }
    }
  }

  // ----- Expressions -----

  /** All numbers that are written, and all values of symbols, have 64 bits. */
  ghost predicate FittingEnv(env: Symbols) {
    forall name :: name in env ==> Is64Bit(env[name])
  }

  predicate FittingConstants(e: Expr) {
    match e
    case Atom(leaf) => leaf.Constant? ==> Is64Bit(leaf.value)
    case Prefix(_, a) => FittingConstants(a)
    case Infix(_, l, r) => FittingConstants(l) && FittingConstants(r)
  }

  /** The expression has the value `v`. */
  ghost predicate Denotes(e: Expr, env: Symbols, v: int) {
    && Is64Bit(v)
    && match e
       case Atom(Constant(n)) => v == n
       case Atom(Symbol(name)) => name in env && v == env[name]
       case Prefix(op, a) => exists x :: Denotes(a, env, x) && IsUnaryResult(op, x, v)
       case Infix(op, l, r) => exists x, y :: Denotes(l, env, x) && Denotes(r, env, y) && IsResult(op, x, y, v)
  }

  lemma {:induction false} MeaningExactly(e: Expr, env: Symbols, v: int)
    requires FittingEnv(env) && FittingConstants(e)
    ensures Meaning(e, env) == Value(v) <==> Denotes(e, env, v)
    decreases e, 1
  {
    match e
    case Atom(_) =>
    case Prefix(op, a) =>
      PrefixExactly(op, a, env, v);
    case Infix(op, l, r) =>
      InfixExactly(op, l, r, env, v);
  }

  lemma {:induction false} ValuesFound(e: Expr, env: Symbols)
    requires FittingEnv(env) && FittingConstants(e)
    ensures forall x :: Meaning(e, env) == Value(x) <==> Denotes(e, env, x)
    decreases e, 2
  {
    forall x
      ensures Meaning(e, env) == Value(x) <==> Denotes(e, env, x)
    {
      MeaningExactly(e, env, x);
    }
  }

  lemma {:induction false} PrefixExactly(op: UnaryOp, a: Expr, env: Symbols, v: int)
    requires FittingEnv(env) && FittingConstants(a)
    ensures Meaning(Prefix(op, a), env) == Value(v) <==> Denotes(Prefix(op, a), env, v)
    decreases a, 3
  {
    ValuesFound(a, env);
    var m := Meaning(a, env);
    if m.Value? {
      assert Denotes(a, env, m.v);
      ComputeUnaryExactly(op, m.v, v);
    }
  }

  lemma {:induction false} InfixExactly(op: BinaryOp, l: Expr, r: Expr, env: Symbols, v: int)
    requires FittingEnv(env) && FittingConstants(l) && FittingConstants(r)
    ensures Meaning(Infix(op, l, r), env) == Value(v) <==> Denotes(Infix(op, l, r), env, v)
    decreases Infix(op, l, r), 0
  {
    ValuesFound(l, env);
    ValuesFound(r, env);
    var m, n := Meaning(l, env), Meaning(r, env);
    if m.Value? && n.Value? {
      assert Denotes(l, env, m.v) && Denotes(r, env, n.v);
      ComputeExactly(op, m.v, n.v, v);
    }
  }

  /** A tree without missing operands has exactly the value that its expression denotes. */
  lemma EvalExactly(t: Tree, env: Symbols, v: int)
    requires Complete(t) && FittingEnv(env) && FittingConstants(Erase(t))
    ensures Eval(t, env) == Value(v) <==> Denotes(Erase(t), env, v)
  {
    EvalIsMeaning(t, env);
    MeaningExactly(Erase(t), env, v);
  }
}

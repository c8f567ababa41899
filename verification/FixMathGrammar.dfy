/**
 The grammar of expressions with its levels and no priorities, and the proof that the parser follows it: from the
 characters of an expression to its value.
 */
module FixMathGrammar {
  import opened Basics
  import opened FixMath
  import opened FixMathEval
  import opened FixMathText
  import opened FixMathValues

  // ----- The grammar -----

  /** An expression as it is written, with its brackets, and plus signs where an operand is due. */
  datatype Phrase =
    | Name(word: string)
    | Group(inner: Phrase)
    | Plus(arg: Phrase)
    | Sign(mark: char, arg: Phrase)
    | Chain(left: Phrase, mark: char, right: Phrase)

  predicate IsPrimary(p: Phrase)
    decreases p, 0
  {
    p.Name? || (p.Group? && IsOr(p.inner))
  }

  predicate IsOperand(p: Phrase)
    decreases p, 1
  {
    IsPrimary(p) || (p.Plus? && IsOperand(p.arg))
  }

  predicate IsPrefixed(p: Phrase)
    decreases p, 2
  {
    IsOperand(p) || (p.Plus? && IsPrefixed(p.arg)) || (p.Sign? && p.mark in "-~" && IsOperand(p.arg))
  }

  /** Operators of one level group to the left. */
  predicate IsProduct(p: Phrase)
    decreases p, 3
  {
    IsPrefixed(p) || (p.Chain? && p.mark in "*/" && IsProduct(p.left) && IsPrefixed(p.right))
  }

  predicate IsSum(p: Phrase)
    decreases p, 4
  {
    IsProduct(p) || (p.Chain? && p.mark in "+-" && IsSum(p.left) && IsProduct(p.right))
  }

  predicate IsAnd(p: Phrase)
    decreases p, 5
  {
    IsSum(p) || (p.Chain? && p.mark in "&^" && IsAnd(p.left) && IsSum(p.right))
  }

  predicate IsOr(p: Phrase)
    decreases p, 6
  {
    IsAnd(p) || (p.Chain? && p.mark == '|' && IsOr(p.left) && IsAnd(p.right))
  }

  /** Each level is part of the next. */
  lemma Upwards(p: Phrase)
    ensures IsPrimary(p) ==> IsOperand(p)
    ensures IsOperand(p) ==> IsPrefixed(p)
    ensures IsPrefixed(p) ==> IsProduct(p)
    ensures IsProduct(p) ==> IsSum(p)
    ensures IsSum(p) ==> IsAnd(p)
    ensures IsAnd(p) ==> IsOr(p)
  {
  }

  /** What the parts of an expression are. */
  predicate Shaped(p: Phrase) {
    match p
    case Name(_) => true
    case Group(q) => IsOr(q)
    case Plus(a) => IsPrefixed(a)
    case Sign(c, a) => c in "-~" && IsOperand(a)
    case Chain(l, c, r) =>
      || (c in "*/" && IsProduct(l) && IsPrefixed(r))
      || (c in "+-" && IsSum(l) && IsProduct(r))
      || (c in "&^" && IsAnd(l) && IsSum(r))
      || (c == '|' && IsOr(l) && IsAnd(r))
  }

  lemma Shape(p: Phrase)
    requires IsOr(p)
    ensures Shaped(p)
    ensures p.Sign? ==> !IsOperand(p)
    ensures p.Plus? && IsOperand(p) ==> IsOperand(p.arg)
    ensures p.Chain? ==> !IsPrefixed(p)
    ensures p.Chain? && IsProduct(p) ==> p.mark in "*/"
    ensures p.Chain? && IsSum(p) ==> p.mark in "*/+-"
    ensures p.Chain? && IsAnd(p) ==> p.mark in "*/+-&^"
  {
    assert IsAnd(p) ==> IsSum(p) || (p.Chain? && p.mark in "&^" && IsAnd(p.left) && IsSum(p.right));
    assert IsSum(p) ==> IsProduct(p) || (p.Chain? && p.mark in "+-" && IsSum(p.left) && IsProduct(p.right));
    assert IsProduct(p) ==> IsPrefixed(p) || (p.Chain? && p.mark in "*/" && IsProduct(p.left) && IsPrefixed(p.right));
    assert IsPrefixed(p) ==>
      IsOperand(p) || (p.Plus? && IsPrefixed(p.arg)) || (p.Sign? && p.mark in "-~" && IsOperand(p.arg));
    assert IsOperand(p) ==> IsPrimary(p) || (p.Plus? && IsOperand(p.arg));
    assert IsPrimary(p) ==> p.Name? || (p.Group? && IsOr(p.inner));
    if p.Plus? {
      Upwards(p.arg);
    }
  }

  lemma PartsAreOr(p: Phrase)
    requires Shaped(p)
    ensures match p
            case Name(_) => true
            case Group(q) => IsOr(q)
            case Plus(a) => IsOr(a)
            case Sign(_, a) => IsOr(a)
            case Chain(l, _, r) => IsOr(l) && IsOr(r)
  {
    match p
    case Plus(a) => Upwards(a);
    case Sign(_, a) => Upwards(a);
    case Chain(l, _, r) =>
      Upwards(l);
      Upwards(r);
    case _ =>
  }

  /** The characters of the expression. */
  function Written(p: Phrase): string {
    match p
    case Name(word) => word
    case Group(q) => "(" + Written(q) + ")"
    case Plus(a) => "+" + Written(a)
    case Sign(c, a) => [c] + Written(a)
    case Chain(l, c, r) => Written(l) + [c] + Written(r)
  }

  function UnaryOf(mark: char): UnaryOp {
    if mark == '-' then Negate else Complement
  }

  function BinaryOf(mark: char): BinaryOp {
    match mark
    case '+' => Add
    case '-' => Subtract
    case '*' => Multiply
    case '/' => Divide
    case '|' => BitOr
    case '&' => BitAnd
    case _ => BitXor
  }

  /** A word that starts with a digit is the number that it is read as, and any other is a symbol. */
  function LeafOf(lx: Lexicon, word: string): Leaf {
    if word != "" && lx.isDigit(word[0]) && lx.toNumber(word).Some? then Constant(lx.toNumber(word).value)
    else Symbol(word)
  }

  function ExprOf(lx: Lexicon, p: Phrase): Expr {
    match p
    case Name(word) => Atom(LeafOf(lx, word))
    case Group(q) => ExprOf(lx, q)
    case Plus(a) => ExprOf(lx, a)
    case Sign(c, a) => Prefix(UnaryOf(c), ExprOf(lx, a))
    case Chain(l, c, r) => Infix(BinaryOf(c), ExprOf(lx, l), ExprOf(lx, r))
  }

  /** How deep the brackets are nested. */
  function Nesting(p: Phrase): nat {
    match p
    case Name(_) => 0
    case Group(q) => 1 + Nesting(q)
    case Plus(a) => Nesting(a)
    case Sign(_, a) => Nesting(a)
    case Chain(l, _, r) => Max(Nesting(l), Nesting(r))
  }

  // ----- From characters to tokens -----

  predicate IsWordOf(lx: Lexicon, w: string) {
    && w != "" && (forall i :: 0 <= i < |w| ==> lx.isLetterOrNumber(w[i]) || w[i] == '_')
    && (lx.isDigit(w[0]) ==> lx.toNumber(w).Some?)
  }

  predicate GoodWords(lx: Lexicon, p: Phrase) {
    match p
    case Name(word) => IsWordOf(lx, word)
    case Group(q) => GoodWords(lx, q)
    case Plus(a) => GoodWords(lx, a)
    case Sign(_, a) => GoodWords(lx, a)
    case Chain(l, _, r) => GoodWords(lx, l) && GoodWords(lx, r)
  }

  predicate EndsInWord(p: Phrase) {
    match p
    case Name(_) => true
    case Group(_) => false
    case Plus(a) => EndsInWord(a)
    case Sign(_, a) => EndsInWord(a)
    case Chain(_, _, r) => EndsInWord(r)
  }

  predicate Marked(p: Phrase) {
    match p
    case Name(_) => true
    case Group(q) => Marked(q)
    case Plus(a) => Marked(a)
    case Sign(c, a) => IsMark(c) && Marked(a)
    case Chain(l, c, r) => Marked(l) && IsMark(c) && Marked(r)
  }

  lemma {:induction false} GrammarMarks(p: Phrase)
    requires IsOr(p)
    ensures Marked(p)
  {
    Shape(p);
    PartsAreOr(p);
    match p
    case Name(_) =>
    case Group(q) => GrammarMarks(q);
    case Plus(a) => GrammarMarks(a);
    case Sign(_, a) => GrammarMarks(a);
    case Chain(l, _, r) =>
      GrammarMarks(l);
      GrammarMarks(r);
  }

  function TokensOf(lx: Lexicon, p: Phrase): (toks: Tokens)
    ensures toks != []
  {
    match p
    case Name(word) => [Operand(LeafOf(lx, word))]
    case Group(q) => [CharToken('(')] + TokensOf(lx, q) + [CharToken(')')]
    case Plus(a) => [CharToken('+')] + TokensOf(lx, a)
    case Sign(c, a) => [CharToken(c)] + TokensOf(lx, a)
    case Chain(l, c, r) => TokensOf(lx, l) + [CharToken(c)] + TokensOf(lx, r)
  }

  /** The tokens of what follows an expression. */
  function Following(lx: Lexicon, p: Phrase, rest: string): Tokens {
    if rest == "" && EndsInWord(p) then [] else Lex(lx, rest)
  }

  lemma MarkLexed(lx: Lexicon, c: char, tail: string, text: string)
    requires lx.Sane() && IsMark(c) && text == [c] + tail
    ensures !lx.IsWord(c) && Lex(lx, text) == [CharToken(c)] + Lex(lx, tail)
  {
    assert c in "~-+*/|&^()\0";
    assert text[1..] == tail;
  }

  /** The text `w` in brackets. */
  lemma GroupLexed(lx: Lexicon, w: string, toks: Tokens, rest: string, more: string)
    requires lx.Sane() && more == ")" + rest && Lex(lx, w + more) == toks + Lex(lx, more)
    ensures Lex(lx, "(" + w + ")" + rest) == [CharToken('(')] + toks + [CharToken(')')] + Lex(lx, rest)
  {
    MarkLexed(lx, ')', rest, more);
    assert "(" + w + ")" + rest == "(" + (w + more);
    MarkLexed(lx, '(', w + more, "(" + w + ")" + rest);
  }

  /** A mark, and then the text `w`, whose tokens are `toks` before `after`. */
  lemma MarkedLexed(lx: Lexicon, c: char, w: string, toks: Tokens, rest: string, after: Tokens)
    requires lx.Sane() && IsMark(c) && Lex(lx, w + rest) == toks + after
    ensures Lex(lx, [c] + w + rest) == [CharToken(c)] + toks + after
  {
    Joined([c], w, rest);
    Joined([CharToken(c)], toks, after);
    MarkLexed(lx, c, w + rest, [c] + w + rest);
  }

  lemma Joined<T>(a: seq<T>, b: seq<T>, c: seq<T>)
    ensures a + b + c == a + (b + c)
  {
  }

  lemma Regrouped<T>(a: seq<T>, b: seq<T>, c: seq<T>, d: seq<T>)
    ensures a + (b + c + d) == a + b + c + d
  {
  }

  /** The text `w`, and then a mark and the text `v`. */
  lemma ChainLexed(lx: Lexicon, w: string, toks: Tokens, c: char, v: string, toks2: Tokens, rest: string,
                   after: Tokens, more: string)
    requires lx.Sane() && IsMark(c) && more == [c] + v + rest
    requires Lex(lx, v + rest) == toks2 + after && Lex(lx, w + more) == toks + Lex(lx, more)
    ensures Lex(lx, w + [c] + v + rest) == toks + [CharToken(c)] + toks2 + after
  {
    MarkedLexed(lx, c, v, toks2, rest, after);
    Regrouped(w, [c], v, rest);
    Regrouped(toks, [CharToken(c)], toks2, after);
  }

  lemma {:induction false} PhraseLexed(lx: Lexicon, p: Phrase, rest: string)
    requires lx.Sane() && GoodWords(lx, p) && Marked(p) && (rest == "" || !lx.IsWord(rest[0]))
    ensures Lex(lx, Written(p) + rest) == TokensOf(lx, p) + Following(lx, p, rest)
    decreases p
  {
    match p
    case Name(word) => LexWord(lx, word, rest);
    case Group(q) =>
      var more := ")" + rest;
      MarkLexed(lx, ')', rest, more);
      PhraseLexed(lx, q, more);
      GroupLexed(lx, Written(q), TokensOf(lx, q), rest, more);
    case Plus(a) =>
      PhraseLexed(lx, a, rest);
      MarkedLexed(lx, '+', Written(a), TokensOf(lx, a), rest, Following(lx, a, rest));
    case Sign(c, a) =>
      PhraseLexed(lx, a, rest);
      MarkedLexed(lx, c, Written(a), TokensOf(lx, a), rest, Following(lx, a, rest));
    case Chain(l, c, r) =>
      var more := [c] + Written(r) + rest;
      PhraseLexed(lx, r, rest);
      MarkLexed(lx, c, Written(r) + rest, [c] + (Written(r) + rest));
      PhraseLexed(lx, l, more);
      ChainLexed(lx, Written(l), TokensOf(lx, l), c, Written(r), TokensOf(lx, r), rest, Following(lx, r, rest), more);
  }

  // ----- From tokens to the tree -----

  /** The tree of the phrase at bracket level `base`. */
  function PlaceOf(lx: Lexicon, p: Phrase, base: int): (t: Tree)
    ensures !t.Nil?
  {
    match p
    case Name(word) => Word(LeafOf(lx, word))
    case Group(q) => PlaceOf(lx, q, base + LEVEL)
    case Plus(a) => PlaceOf(lx, a, base)
    case Sign(c, a) => Unary(base + UNARY_RANK, UnaryOf(c), PlaceOf(lx, a, base))
    case Chain(l, c, r) =>
      Binary(base + Rank(BinaryOf(c)), BinaryOf(c), PlaceOf(lx, l, base), PlaceOf(lx, r, base))
  }

  /** A word, with brackets and plus signs at most. */
  predicate Lone(p: Phrase) {
    p.Name? || (p.Group? && Lone(p.inner)) || (p.Plus? && Lone(p.arg))
  }

  /** How far above its base a phrase with an operator binds. */
  function Binds(p: Phrase): int {
    match p
    case Name(_) => 0
    case Group(q) => LEVEL + Binds(q)
    case Plus(a) => Binds(a)
    case Sign(_, _) => UNARY_RANK
    case Chain(_, c, _) => Rank(BinaryOf(c))
  }

  lemma {:induction false} LevelsBind(p: Phrase)
    requires !Lone(p) && IsOr(p)
    ensures Binds(p) >= 10
    ensures IsAnd(p) ==> Binds(p) >= 15
    ensures IsSum(p) ==> Binds(p) >= 20
    ensures IsProduct(p) ==> Binds(p) >= 30
    ensures IsPrefixed(p) ==> Binds(p) >= 90
    ensures IsOperand(p) ==> Binds(p) > 90
  {
    Shape(p);
    PartsAreOr(p);
    match p
    case Group(q) => LevelsBind(q);
    case Plus(a) => LevelsBind(a);
    case _ =>
  }

  lemma {:induction false} PlacedBinds(lx: Lexicon, p: Phrase, base: int)
    ensures Priority(PlaceOf(lx, p, base)) == if Lone(p) then INT_MAX else base + Binds(p)
  {
    match p
    case Group(q) => PlacedBinds(lx, q, base + LEVEL);
    case Plus(a) => PlacedBinds(lx, a, base);
    case _ =>
  }

  lemma {:induction false} BindsWithin(p: Phrase)
    ensures Binds(p) <= LEVEL * Nesting(p) + UNARY_RANK
  {
    match p
    case Group(q) => BindsWithin(q);
    case Plus(a) => BindsWithin(a);
    case _ =>
  }

  /** There is room for the priorities of the phrase. */
  predicate HasRoom(p: Phrase, base: int) {
    base > 0 && base + LEVEL * Nesting(p) + UNARY_RANK <= INT_MAX
  }

  /** Up to this many brackets inside each other the priorities fit an int. */
  predicate RoomFor(p: Phrase) {
    Nesting(p) <= 21_474_834
  }

  /** Every operator above the hole binds looser than the phrase will. */
  predicate Above(t: Tree, p: Phrase, base: int) {
    HasHole(t) && (Lone(p) || SpineBelow(t, base + Binds(p)))
  }

  ghost predicate Parsed(lx: Lexicon, p: Phrase, t: Tree, base: int)
    requires HasHole(t)
  {
    Run(State(t, base, true), TokensOf(lx, p)) == Going(State(Graft(t, PlaceOf(lx, p, base)), base, false))
  }

  lemma {:induction false} PhraseParsed(lx: Lexicon, p: Phrase, t: Tree, base: int)
    requires IsOr(p) && HasRoom(p, base) && Above(t, p, base)
    ensures Parsed(lx, p, t, base)
    decreases p, 1
  {
    Shape(p);
    PartsAreOr(p);
    match p
    case Name(word) => RunOne(State(t, base, true), Operand(LeafOf(lx, word)));
    case Group(q) => GroupParsed(lx, q, t, base);
    case Plus(a) =>
      PhraseParsed(lx, a, t, base);
      RunOne(State(t, base, true), CharToken('+'));
      RunAppend(State(t, base, true), [CharToken('+')], TokensOf(lx, a));
    case Sign(c, a) => SignParsed(lx, c, a, t, base);
    case Chain(l, c, r) => ChainParsed(lx, l, c, r, t, base);
  }

  lemma {:induction false} GroupParsed(lx: Lexicon, q: Phrase, t: Tree, base: int)
    requires IsOr(q) && HasRoom(Group(q), base) && Above(t, Group(q), base)
    ensures Parsed(lx, Group(q), t, base)
    decreases q, 2
  {
    var s, inner := State(t, base, true), base + LEVEL;
    var done := State(Graft(t, PlaceOf(lx, q, inner)), inner, false);
    PhraseParsed(lx, q, t, inner);
    RunOne(s, CharToken('('));
    RunOne(done, CharToken(')'));
    RunAppend(s, [CharToken('(')], TokensOf(lx, q));
    RunAppend(s, [CharToken('(')] + TokensOf(lx, q), [CharToken(')')]);
  }

  lemma {:induction false} SignParsed(lx: Lexicon, c: char, a: Phrase, t: Tree, base: int)
    requires IsOr(Sign(c, a)) && HasRoom(a, base) && Above(t, Sign(c, a), base)
    ensures Parsed(lx, Sign(c, a), t, base)
    decreases a, 2
  {
    var s, p, node := State(t, base, true), base + UNARY_RANK, Unary(base + UNARY_RANK, UnaryOf(c), Nil);
    var below := if Lone(a) then p else base + Binds(a);
    Shape(Sign(c, a));
    Upwards(a);
    if !Lone(a) {
      LevelsBind(a);
    }
    SpliceAtHole(t, p, UnaryOf(c));
    SpineBelowMore(t, p, below);
    assert Lone(a) || SpineBelow(node, below);
    GraftTwice(t, node, PlaceOf(lx, a, base), below);
    RunOne(s, CharToken(c));
    PhraseParsed(lx, a, Graft(t, node), base);
    RunAppend(s, [CharToken(c)], TokensOf(lx, a));
  }

  /** What the levels of the grammar mean for an operator between two phrases. */
  lemma ChainBinds(l: Phrase, c: char, r: Phrase)
    requires IsOr(Chain(l, c, r))
    ensures IsOr(l) && IsOr(r)
    ensures Lone(l) || Binds(l) >= Rank(BinaryOf(c))
    ensures Lone(r) || Binds(r) > Rank(BinaryOf(c))
    ensures c in "*/+-&^|"
  {
    Shape(Chain(l, c, r));
    PartsAreOr(Chain(l, c, r));
    if !Lone(l) {
      LevelsBind(l);
    }
    if !Lone(r) {
      LevelsBind(r);
    }
  }

  lemma {:induction false} LeftParsed(lx: Lexicon, l: Phrase, c: char, t: Tree, base: int, p: int, left: Tree)
    requires IsOr(l) && HasRoom(l, base) && HasHole(t) && SpineBelow(t, p) && p == base + Rank(BinaryOf(c)) <= INT_MAX
    requires c in "*/+-&^|" && left == PlaceOf(lx, l, base) && (Lone(l) || base + Binds(l) >= p)
    ensures Run(State(t, base, true), TokensOf(lx, l) + [CharToken(c)])
         == Going(State(Graft(t, Binary(p, BinaryOf(c), left, Nil)), base, true))
    decreases l, 2
  {
    if !Lone(l) {
      SpineBelowMore(t, p, base + Binds(l));
    }
    PhraseParsed(lx, l, t, base);
    PlacedBinds(lx, l, base);
    SpliceAboveGraft(t, left, p, BinaryOf(c));
    OneMore(State(t, base, true), TokensOf(lx, l), CharToken(c), State(Graft(t, left), base, false),
            State(Graft(t, Binary(p, BinaryOf(c), left, Nil)), base, true));
  }

  lemma {:induction false} ChainParsed(lx: Lexicon, l: Phrase, c: char, r: Phrase, t: Tree, base: int)
    requires IsOr(Chain(l, c, r)) && HasRoom(Chain(l, c, r), base) && Above(t, Chain(l, c, r), base)
    ensures Parsed(lx, Chain(l, c, r), t, base)
    decreases Chain(l, c, r), 0
  {
    var p, left := base + Rank(BinaryOf(c)), PlaceOf(lx, l, base);
    var node := Binary(p, BinaryOf(c), left, Nil);
    var below := if Lone(r) then p else base + Binds(r);
    ChainBinds(l, c, r);
    LeftParsed(lx, l, c, t, base, p, left);
    SpineBelowMore(t, p, below);
    assert Lone(r) || SpineBelow(node, below);
    GraftTwice(t, node, PlaceOf(lx, r, base), below);
    PhraseParsed(lx, r, Graft(t, node), base);
    RunAppend(State(t, base, true), TokensOf(lx, l) + [CharToken(c)], TokensOf(lx, r));
  }

  lemma {:induction false} PlacedErases(lx: Lexicon, p: Phrase, base: int)
    ensures Complete(PlaceOf(lx, p, base)) && Erase(PlaceOf(lx, p, base)) == ExprOf(lx, p)
  {
    match p
    case Name(_) =>
    case Group(q) => PlacedErases(lx, q, base + LEVEL);
    case Plus(a) => PlacedErases(lx, a, base);
    case Sign(_, a) => PlacedErases(lx, a, base);
    case Chain(l, _, r) =>
      PlacedErases(lx, l, base);
      PlacedErases(lx, r, base);
  }

  // ----- Main results -----

  /** The parser follows the grammar: whatever token list it derives is accepted, with the tree of the derivation. */
  lemma ParserFollowsGrammar(lx: Lexicon, p: Phrase)
    requires IsOr(p) && RoomFor(p)
    ensures var r := Run(Start, TokensOf(lx, p));
            r.Going? && Complete(r.state.content) && Erase(r.state.content) == ExprOf(lx, p)
  {
    PhraseParsed(lx, p, Nil, LEVEL);
    PlacedErases(lx, p, LEVEL);
  }

  /** No token list has two derivations with different expressions. */
  lemma GrammarIsUnambiguous(lx: Lexicon, p: Phrase, q: Phrase)
    requires IsOr(p) && IsOr(q) && RoomFor(p) && RoomFor(q)
    requires TokensOf(lx, p) == TokensOf(lx, q)
    ensures ExprOf(lx, p) == ExprOf(lx, q)
  {
    ParserFollowsGrammar(lx, p);
    ParserFollowsGrammar(lx, q);
  }

  /** The text of an expression is accepted just if it ends in a word, with the tree of the derivation. */
  lemma TextParsed(lx: Lexicon, p: Phrase)
    requires lx.Sane() && GoodWords(lx, p) && IsOr(p) && RoomFor(p)
    ensures var r := Run(Start, Lex(lx, Written(p)));
            if EndsInWord(p) then r.Going? && Complete(r.state.content) && Erase(r.state.content) == ExprOf(lx, p)
            else r.Stuck?
  {
    GrammarMarks(p);
    PhraseLexed(lx, p, "");
    assert Written(p) + "" == Written(p);
    ParserFollowsGrammar(lx, p);
    RunThenEnding(TokensOf(lx, p), Following(lx, p, ""));
  }

  /** From characters to values: the text of an expression is accepted just if it ends in a word, and then evaluates to
      exactly the value that the grammar and the meaning of its operators give it. */
  lemma WrittenExpression(lx: Lexicon, p: Phrase, env: Symbols, v: int)
    requires lx.Sane() && GoodWords(lx, p) && IsOr(p) && RoomFor(p)
    requires FittingEnv(env) && FittingConstants(ExprOf(lx, p))
    ensures var r := Run(Start, Lex(lx, Written(p)));
            && (r.Going? <==> EndsInWord(p)) && (r.Stuck? <==> !EndsInWord(p))
            && (r.Going? ==> (Eval(r.state.content, env) == Value(v) <==> Denotes(ExprOf(lx, p), env, v)))
  {
    TextParsed(lx, p);
    if EndsInWord(p) {
      EvalExactly(Run(Start, Lex(lx, Written(p))).state.content, env, v);
    }
  }

  // ----- Three operands -----

  /** The second operator belongs to a later one of the classes or, and, sum, product. */
  predicate BindsTighter(first: char, second: char) {
    || (first == '|' && second in "&^+-*/")
    || (first in "&^" && second in "+-*/")
    || (first in "+-" && second in "*/")
  }

  lemma NamesAreAll(word: string)
    ensures IsPrefixed(Name(word)) && IsProduct(Name(word)) && IsSum(Name(word))
    ensures IsAnd(Name(word)) && IsOr(Name(word))
  {
    Upwards(Name(word));
  }

  /** An operator between a phrase of its own class and a phrase of the next. */
  lemma ChainIsOr(p: Phrase)
    requires p.Chain? && Shaped(p)
    ensures IsOr(p)
    ensures p.mark in "&^+-*/" ==> IsAnd(p)
    ensures p.mark in "+-*/" ==> IsSum(p)
    ensures p.mark in "*/" ==> IsProduct(p)
  {
    Upwards(p);
  }

  /** Without brackets the second operator groups first if and only if it is of a later class. */
  lemma ThreeOperands(lx: Lexicon, a: string, b: string, c: string, first: char, second: char)
    requires first in "|&^+-*/" && second in "|&^+-*/"
    ensures var x, y, z := Atom(LeafOf(lx, a)), Atom(LeafOf(lx, b)), Atom(LeafOf(lx, c));
            var toks := TokensOf(lx, Name(a)) + [CharToken(first)] + TokensOf(lx, Name(b)) + [CharToken(second)]
                        + TokensOf(lx, Name(c));
            var r := Run(Start, toks);
            && r.Going? && Complete(r.state.content)
            && Erase(r.state.content) ==
               if BindsTighter(first, second) then Infix(BinaryOf(first), x, Infix(BinaryOf(second), y, z))
               else Infix(BinaryOf(second), Infix(BinaryOf(first), x, y), z)
  {
    var right := Chain(Name(b), second, Name(c));
    var left := Chain(Name(a), first, Name(b));
    var p := if BindsTighter(first, second) then Chain(Name(a), first, right) else Chain(left, second, Name(c));
    NamesAreAll(a);
    NamesAreAll(b);
    NamesAreAll(c);
    ChainIsOr(left);
    ChainIsOr(right);
    ChainIsOr(p);
    assert Nesting(left) == 0 && Nesting(right) == 0 && Nesting(p) == 0;
    ParserFollowsGrammar(lx, p);
    var x, y, z := TokensOf(lx, Name(a)), TokensOf(lx, Name(b)), TokensOf(lx, Name(c));
    assert TokensOf(lx, left) == x + [CharToken(first)] + y;
    assert TokensOf(lx, right) == y + [CharToken(second)] + z;
    assert x + [CharToken(first)] + (y + [CharToken(second)] + z)
        == x + [CharToken(first)] + y + [CharToken(second)] + z;
    assert ExprOf(lx, left) == Infix(BinaryOf(first), Atom(LeafOf(lx, a)), Atom(LeafOf(lx, b)));
    assert ExprOf(lx, right) == Infix(BinaryOf(second), Atom(LeafOf(lx, b)), Atom(LeafOf(lx, c)));
  }

  // ----- Space -----

  /** Space between two tokens makes no difference, except between two words and at the end. */
  lemma {:induction false} SpaceIsSkipped(lx: Lexicon, a: string, c: char, b: string)
    requires lx.isSpace(c) && !lx.IsWord(c) && b != ""
    requires a != "" ==> !lx.IsWord(a[|a| - 1]) || !lx.IsWord(b[0])
    ensures Lex(lx, a + [c] + b) == Lex(lx, a + b)
    decreases |a|
  {
    var s, t := a + [c] + b, a + b;
    if a == "" {
      assert t == b && s[1..] == b;
    } else if lx.IsWord(a[0]) {
      var n := WordLength(lx, a);
      assert n == |a| ==> lx.IsWord(a[|a| - 1]);
      assert n < |a| ==> a[n..][|a| - n - 1] == a[|a| - 1];
      SpaceIsSkipped(lx, a[n..], c, b);
      assert s == a + ([c] + b) && a[n..] + ([c] + b) == a[n..] + [c] + b;
      WordLexed(lx, a, n, [c] + b);
      WordLexed(lx, a, n, b);
    } else {
      assert s[1..] == a[1..] + [c] + b && t[1..] == a[1..] + b;
      SpaceIsSkipped(lx, a[1..], c, b);
    }
  }

  lemma WordLexed(lx: Lexicon, a: string, n: nat, b: string)
    requires a != "" && lx.IsWord(a[0]) && n == WordLength(lx, a) && b != "" && (n == |a| ==> !lx.IsWord(b[0]))
    ensures Lex(lx, a + b) == [WordToken(lx, a[..n])] + Lex(lx, a[n..] + b)
  {
    var s := a + b;
    WordThen(lx, a, n, b);
    assert s[..n] == a[..n] && s[n..] == a[n..] + b;
    WordFirst(lx, s, n);
  }

  lemma WordFirst(lx: Lexicon, s: string, n: nat)
    requires s != "" && lx.IsWord(s[0]) && n == WordLength(lx, s) < |s|
    ensures Lex(lx, s) == [WordToken(lx, s[..n])] + Lex(lx, s[n..])
  {
  }

  lemma {:induction false} WordThen(lx: Lexicon, a: string, n: nat, b: string)
    requires n == WordLength(lx, a) && (n == |a| && b != "" ==> !lx.IsWord(b[0]))
    ensures WordLength(lx, a + b) == n
    decreases |a|
  {
    if a == "" {
      assert a + b == b;
    } else if lx.IsWord(a[0]) {
      assert (a + b)[1..] == a[1..] + b;
      WordThen(lx, a[1..], n - 1, b);
    }
  }

  // ----- A product written both ways round -----

  /** The digits of the example are words, and each stands for its number. */
  ghost predicate ReadsDigits(lx: Lexicon) {
    && lx.IsWord('2') && lx.IsWord('3') && lx.IsWord('4')
    && lx.isDigit('2') && lx.isDigit('3') && lx.isDigit('4')
    && lx.toNumber("2") == Some(2) && lx.toNumber("3") == Some(3) && lx.toNumber("4") == Some(4)
  }

  const TWO := Name("2")

  const SUM := Group(Chain(Name("3"), '+', Name("4")))

  lemma SumIsPrimary()
    ensures IsPrefixed(SUM) && IsProduct(SUM) && IsPrefixed(TWO) && IsProduct(TWO)
    ensures Nesting(SUM) == 1 && !EndsInWord(SUM) && Written(SUM) == "(3+4)"
  {
    NamesAreAll("2");
    NamesAreAll("3");
    NamesAreAll("4");
    ChainIsOr(Chain(Name("3"), '+', Name("4")));
    Upwards(SUM);
    assert Written(Chain(Name("3"), '+', Name("4"))) == "3+4";
  }

  lemma DigitMeans(lx: Lexicon, word: string, n: int)
    requires |word| == 1 && lx.IsWord(word[0]) && lx.isDigit(word[0]) && lx.toNumber(word) == Some(n)
    ensures GoodWords(lx, Name(word)) && ExprOf(lx, Name(word)) == Atom(Constant(n))
  {
  }

  lemma SumMeans(lx: Lexicon)
    requires ReadsDigits(lx)
    ensures GoodWords(lx, TWO) && GoodWords(lx, SUM) && ExprOf(lx, TWO) == Atom(Constant(2))
    ensures ExprOf(lx, SUM) == Infix(Add, Atom(Constant(3)), Atom(Constant(4)))
  {
    DigitMeans(lx, "2", 2);
    DigitMeans(lx, "3", 3);
    DigitMeans(lx, "4", 4);
    var p := Chain(Name("3"), '+', Name("4"));
    assert GoodWords(lx, p) && ExprOf(lx, p) == Infix(Add, Atom(Constant(3)), Atom(Constant(4)));
  }

  lemma ProductMeans(env: Symbols, e: Expr)
    requires e == Infix(Multiply, Infix(Add, Atom(Constant(3)), Atom(Constant(4))), Atom(Constant(2)))
    ensures Meaning(e, env) == Value(14)
  {
    assert Meaning(Infix(Add, Atom(Constant(3)), Atom(Constant(4))), env) == Value(7);
  }

  /** Twice three plus four can be written one way round but not the other. */
  lemma ProductRejected(lx: Lexicon, env: Symbols)
    requires lx.Sane() && ReadsDigits(lx)
    ensures Run(Start, Lex(lx, "2*(3+4)")).Stuck?
    ensures var r := Run(Start, Lex(lx, "(3+4)*2")); r.Going? && Eval(r.state.content, env) == Value(14)
  {
    SumIsPrimary();
    SumMeans(lx);
    var p, q := Chain(TWO, '*', SUM), Chain(SUM, '*', TWO);
    assert Written(p) == "2*(3+4)" && Written(q) == "(3+4)*2";
    ProductParsed(lx, p, "2*(3+4)");
    ProductParsed(lx, q, "(3+4)*2");
    ProductEvaluated(env, ExprOf(lx, q), Run(Start, Lex(lx, "(3+4)*2")).state.content);
  }

  lemma ProductEvaluated(env: Symbols, e: Expr, t: Tree)
    requires e == Infix(Multiply, Infix(Add, Atom(Constant(3)), Atom(Constant(4))), Atom(Constant(2)))
    requires Complete(t) && Erase(t) == e
    ensures Eval(t, env) == Value(14)
  {
    ProductMeans(env, e);
    EvalIsMeaning(t, env);
  }

  lemma ProductParsed(lx: Lexicon, p: Phrase, text: string)
    requires lx.Sane() && p.Chain? && Shaped(p) && GoodWords(lx, p) && Nesting(p) <= 1 && text == Written(p)
    ensures var r := Run(Start, Lex(lx, text));
            if EndsInWord(p) then r.Going? && Complete(r.state.content) && Erase(r.state.content) == ExprOf(lx, p)
            else r.Stuck?
  {
    ChainIsOr(p);
    TextParsed(lx, p);
  }
}

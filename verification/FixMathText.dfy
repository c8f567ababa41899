/**
 From characters to tokens: which strings the expression parser accepts.
 */
module FixMathText {
  import opened Basics
  import opened FixMath
  import opened FixMathEval

  /** The character classes and the number conversion of the string library. */
  datatype Lexicon = Lexicon(
    isLetterOrNumber: char -> bool,
    isSpace: char -> bool,
    isDigit: char -> bool,
    toNumber: string -> Option<int>)
  {
    predicate IsWord(c: char) {
      isLetterOrNumber(c) || c == '_'
    }

    /** Operators, brackets and the null character are neither word characters nor space. */
    ghost predicate Sane() {
      forall c :: c in "~-+*/|&^()\0" ==> !IsWord(c) && !isSpace(c)
    }
  }

  function WordLength(lx: Lexicon, s: string): (n: nat)
    ensures n <= |s| && (forall i :: 0 <= i < n ==> lx.IsWord(s[i])) && (n < |s| ==> !lx.IsWord(s[n]))
  {
    if s == "" || !lx.IsWord(s[0]) then 0 else 1 + WordLength(lx, s[1..])
  }

  function WordToken(lx: Lexicon, word: string): Token
    requires word != ""
  {
    if lx.isDigit(word[0]) then
      var n := lx.toNumber(word);
      if n.Some? then Operand(Constant(n.value)) else Junk
    else Operand(Symbol(word))
  }

  function CharToken(c: char): Token {
    match c
    case '~' => Tilde
    case '-' => Minus
    case '+' => Plus
    case '*' => Star
    case '/' => Slash
    case '|' => Bar
    case '&' => Amp
    case '^' => Caret
    case '(' => Open
    case ')' => Close
    case _ => Junk
  }

  /** Words are maximal. The end of input is junk unless it ends a word. */
  function Lex(lx: Lexicon, s: string): Tokens
    decreases |s|
  {
    if s == "" then [Junk]
    else if lx.IsWord(s[0]) then
      var n := WordLength(lx, s);
      [WordToken(lx, s[..n])] + if n == |s| then [] else Lex(lx, s[n..])
    else if lx.isSpace(s[0]) then Lex(lx, s[1..])
    else [CharToken(s[0])] + Lex(lx, s[1..])
  }

  /** A string that does not end in an operand is never accepted. */
  lemma UnendedTextRejected(lx: Lexicon, s: string)
    requires s == "" || !lx.IsWord(s[|s| - 1])
    ensures !Run(Start, Lex(lx, s)).Going?
  {
    LexEndsInJunk(lx, s);
    var toks := Lex(lx, s);
    var init := toks[..|toks| - 1];
    assert toks == init + [Junk];
    RunAppend(Start, init, [Junk]);
  }

  lemma {:induction false} LexEndsInJunk(lx: Lexicon, s: string)
    requires s == "" || !lx.IsWord(s[|s| - 1])
    ensures Lex(lx, s) != [] && Lex(lx, s)[|Lex(lx, s)| - 1] == Junk
    decreases |s|
  {
    if s == "" {
    } else if lx.IsWord(s[0]) {
      LexEndsInJunk(lx, s[WordLength(lx, s)..]);
    } else {
      LexEndsInJunk(lx, s[1..]);
    }
  }

  // ----- Printing to text -----

  function Spell(text: Leaf -> string, tok: Token): string {
    match tok
    case Operand(leaf) => text(leaf)
    case Minus => "-"
    case Plus => "+"
    case Tilde => "~"
    case Star => "*"
    case Slash => "/"
    case Bar => "|"
    case Amp => "&"
    case Caret => "^"
    case Open => "("
    case Close => ")"
    case Junk => "?"
  }

  function RenderTokens(text: Leaf -> string, toks: Tokens): string {
    if toks == [] then "" else Spell(text, toks[0]) + RenderTokens(text, toks[1..])
  }

  /** `text` writes every leaf as one word that is read back as that leaf. */
  ghost predicate SpellsToken(lx: Lexicon, text: Leaf -> string, tok: Token) {
    && tok != Junk
    && (tok.Operand? ==>
          var w := text(tok.leaf);
          w != "" && (forall i :: 0 <= i < |w| ==> lx.IsWord(w[i])) && WordToken(lx, w) == tok)
  }

  ghost predicate Spells(lx: Lexicon, text: Leaf -> string, toks: Tokens) {
    forall i :: 0 <= i < |toks| ==> SpellsToken(lx, text, toks[i])
  }

  ghost predicate OperandsApart(toks: Tokens) {
    forall i :: 0 <= i < |toks| - 1 ==> !(toks[i].Operand? && toks[i + 1].Operand?)
  }

  function Ending(toks: Tokens): Tokens {
    if toks != [] && toks[|toks| - 1].Operand? then [] else [Junk]
  }

  lemma {:induction false} WordLengthOf(lx: Lexicon, w: string, rest: string)
    requires forall i :: 0 <= i < |w| ==> lx.IsWord(w[i])
    requires rest == "" || !lx.IsWord(rest[0])
    ensures WordLength(lx, w + rest) == |w|
  {
    if w == "" {
      assert w + rest == rest;
    } else {
      assert (w + rest)[1..] == w[1..] + rest;
      WordLengthOf(lx, w[1..], rest);
    }
  }

  lemma LexWord(lx: Lexicon, w: string, rest: string)
    requires w != "" && forall i :: 0 <= i < |w| ==> lx.IsWord(w[i])
    requires rest == "" || !lx.IsWord(rest[0])
    ensures Lex(lx, w + rest) == [WordToken(lx, w)] + if rest == "" then [] else Lex(lx, rest)
  {
    WordLengthOf(lx, w, rest);
    assert (w + rest)[0] == w[0] && (w + rest)[..|w|] == w && (w + rest)[|w|..] == rest;
  }

  predicate IsMark(c: char) {
    c in "~-+*/|&^()"
  }

  lemma SpelledMark(lx: Lexicon, text: Leaf -> string, tok: Token)
    requires lx.Sane() && !tok.Operand? && tok != Junk
    ensures var w := Spell(text, tok);
            |w| == 1 && IsMark(w[0]) && CharToken(w[0]) == tok && !lx.IsWord(w[0]) && !lx.isSpace(w[0])
  {
    var c := Spell(text, tok)[0];
    assert c in "~-+*/|&^()\0";
  }

  lemma LexMark(lx: Lexicon, w: string, tail: string)
    requires |w| == 1 && !lx.IsWord(w[0]) && !lx.isSpace(w[0])
    ensures Lex(lx, w + tail) == [CharToken(w[0])] + Lex(lx, tail)
  {
    assert (w + tail)[0] == w[0] && (w + tail)[1..] == tail;
  }

  /** The tokens of the text of `tok` with `tail` behind it. */
  lemma LexToken(lx: Lexicon, text: Leaf -> string, tok: Token, tail: string)
    requires lx.Sane() && SpellsToken(lx, text, tok) && (tok.Operand? && tail != "" ==> !lx.IsWord(tail[0]))
    ensures Lex(lx, Spell(text, tok) + tail) == [tok] + if tok.Operand? && tail == "" then [] else Lex(lx, tail)
  {
    if tok.Operand? {
      LexWord(lx, text(tok.leaf), tail);
    } else {
      SpelledMark(lx, text, tok);
      LexMark(lx, Spell(text, tok), tail);
    }
  }

  lemma {:induction false} LexOfRendered(lx: Lexicon, text: Leaf -> string, toks: Tokens)
    requires lx.Sane() && Spells(lx, text, toks) && OperandsApart(toks)
    ensures Lex(lx, RenderTokens(text, toks)) == toks + Ending(toks)
  {
    if toks != [] {
      var tok, rest := toks[0], toks[1..];
      var tail := RenderTokens(text, rest);
      LexOfRendered(lx, text, rest);
      MarkAfterOperand(lx, text, toks, rest);
      LexToken(lx, text, tok, tail);
      WithFirst(toks, tok, rest);
    }
  }

  lemma MarkAfterOperand(lx: Lexicon, text: Leaf -> string, toks: Tokens, rest: Tokens)
    requires lx.Sane() && Spells(lx, text, toks) && OperandsApart(toks) && toks != [] && rest == toks[1..]
    ensures SpellsToken(lx, text, toks[0]) && (rest == [] <==> RenderTokens(text, rest) == "")
    ensures toks[0].Operand? && rest != [] ==> !lx.IsWord(RenderTokens(text, rest)[0])
  {
    if rest != [] {
      assert rest[0] == toks[1] && SpellsToken(lx, text, toks[1]);
      if !rest[0].Operand? {
        SpelledMark(lx, text, rest[0]);
      }
    }
  }

  lemma WithFirst(toks: Tokens, tok: Token, rest: Tokens)
    requires toks == [tok] + rest
    ensures toks + Ending(toks) == [tok] + if tok.Operand? && rest == [] then [] else rest + Ending(rest)
  {
    if rest == [] {
      assert toks == [tok];
    } else {
      assert toks[|toks| - 1] == rest[|rest| - 1];
    }
  }

  // ----- Printed expressions -----

  ghost predicate SpellsLeaves(lx: Lexicon, text: Leaf -> string, e: Expr) {
    match e
    case Atom(leaf) => Spells(lx, text, [Operand(leaf)])
    case Prefix(_, a) => SpellsLeaves(lx, text, a)
    case Infix(_, l, r) => SpellsLeaves(lx, text, l) && SpellsLeaves(lx, text, r)
  }

  /** The printed form ends in an operand, not in a bracket. */
  predicate EndsInOperand(e: Expr) {
    match e
    case Atom(_) => true
    case Prefix(_, a) => Binding(a) > UNARY_RANK && EndsInOperand(a)
    case Infix(op, _, r) => Binding(r) > Rank(op) && EndsInOperand(r)
  }

  ghost predicate WellPrinted(lx: Lexicon, text: Leaf -> string, toks: Tokens) {
    Spells(lx, text, toks) && OperandsApart(toks)
  }

  lemma JoinPrinted(lx: Lexicon, text: Leaf -> string, a: Tokens, b: Tokens)
    requires WellPrinted(lx, text, a) && WellPrinted(lx, text, b)
    requires a != [] && b != [] ==> !a[|a| - 1].Operand? || !b[0].Operand?
    ensures WellPrinted(lx, text, a + b)
  {
  }

  lemma BracketsPrinted(lx: Lexicon, text: Leaf -> string, needed: bool, toks: Tokens)
    requires WellPrinted(lx, text, toks) && toks != []
    ensures var b := Bracketed(needed, toks);
            WellPrinted(lx, text, b) && b != [] && (b[|b| - 1].Operand? <==> !needed && toks[|toks| - 1].Operand?)
  {
    if needed {
      JoinPrinted(lx, text, [Open], toks);
      JoinPrinted(lx, text, [Open] + toks, [Close]);
    }
  }

  lemma InfixPrinted(lx: Lexicon, text: Leaf -> string, left: Tokens, op: BinaryOp, right: Tokens)
    requires WellPrinted(lx, text, left) && WellPrinted(lx, text, right)
    ensures WellPrinted(lx, text, left + [BinaryToken(op)] + right)
  {
    JoinPrinted(lx, text, left, [BinaryToken(op)]);
    JoinPrinted(lx, text, left + [BinaryToken(op)], right);
  }

  lemma {:induction false} PrintedTokens(lx: Lexicon, text: Leaf -> string, e: Expr)
    requires SpellsLeaves(lx, text, e)
    ensures WellPrinted(lx, text, Print(e))
  {
    match e
    case Atom(_) =>
    case Prefix(op, a) =>
      PrintedTokens(lx, text, a);
      BracketsPrinted(lx, text, Binding(a) <= UNARY_RANK, Print(a));
      JoinPrinted(lx, text, [UnaryToken(op)], Bracketed(Binding(a) <= UNARY_RANK, Print(a)));
    case Infix(op, l, r) =>
      PrintedTokens(lx, text, l);
      PrintedTokens(lx, text, r);
      BracketsPrinted(lx, text, Binding(l) < Rank(op), Print(l));
      BracketsPrinted(lx, text, Binding(r) <= Rank(op), Print(r));
      InfixPrinted(lx, text, Bracketed(Binding(l) < Rank(op), Print(l)), op,
          Bracketed(Binding(r) <= Rank(op), Print(r)));
  }

  lemma {:induction false} PrintedEnding(e: Expr)
    ensures Ending(Print(e)) == if EndsInOperand(e) then [] else [Junk]
  {
    match e
    case Atom(_) =>
    case Prefix(op, a) =>
      PrintedEnding(a);
      OperandEnding([UnaryToken(op)], Binding(a) <= UNARY_RANK, Print(a));
    case Infix(op, l, r) =>
      PrintedEnding(r);
      OperandEnding(Bracketed(Binding(l) < Rank(op), Print(l)) + [BinaryToken(op)], Binding(r) <= Rank(op), Print(r));
  }

  lemma OperandEnding(before: Tokens, needed: bool, toks: Tokens)
    requires toks != []
    ensures Ending(before + Bracketed(needed, toks)) == if needed then [Junk] else Ending(toks)
  {
    BracketedEnding(needed, toks);
    var all := before + Bracketed(needed, toks);
    assert all[|all| - 1] == Bracketed(needed, toks)[|Bracketed(needed, toks)| - 1];
  }

  lemma BracketedEnding(needed: bool, toks: Tokens)
    requires toks != []
    ensures Bracketed(needed, toks) != []
    ensures Ending(Bracketed(needed, toks)) == if needed then [Junk] else Ending(toks)
  {
  }

  lemma RunThenEnding(toks: Tokens, ending: Tokens)
    requires Run(Start, toks).Going? && (ending == [] || ending == [Junk])
    ensures Run(Start, toks + ending) == if ending == [] then Run(Start, toks) else Stuck
  {
    RunAppend(Start, toks, ending);
  }

  /** The printed text of an expression parses back to it exactly when it ends in an operand;
      text that ends in a closing bracket is rejected. */
  lemma TextRoundTrip(lx: Lexicon, text: Leaf -> string, e: Expr, env: Symbols)
    requires lx.Sane() && SpellsLeaves(lx, text, e) && LEVEL + Peak(e) <= INT_MAX
    ensures var r := Run(Start, Lex(lx, RenderTokens(text, Print(e))));
            && (r.Going? <==> EndsInOperand(e)) && (r.Stuck? <==> !EndsInOperand(e))
            && (r.Going? ==>
                  && Complete(r.state.content) && Erase(r.state.content) == e
                  && Eval(r.state.content, env) == Meaning(e, env))
  {
    var toks := Print(e);
    PrintedTokens(lx, text, e);
    LexOfRendered(lx, text, toks);
    PrintedEnding(e);
    PrintParseRoundTrip(e, env);
    RunThenEnding(toks, Ending(toks));
  }

  // ----- Words that are no numbers -----

  /** A maximal word from `i` to `j`. */
  ghost predicate WordAt(lx: Lexicon, s: string, i: nat, j: nat) {
    && i < j <= |s| && (forall k :: i <= k < j ==> lx.IsWord(s[k]))
    && (i > 0 ==> !lx.IsWord(s[i - 1])) && (j < |s| ==> !lx.IsWord(s[j]))
  }

  /** The first `n` characters are one word, or one other character. */
  ghost predicate FirstPart(lx: Lexicon, s: string, n: nat) {
    s != "" && n == if lx.IsWord(s[0]) then WordLength(lx, s) else 1
  }

  lemma {:induction false} WordsBecomeTokens(lx: Lexicon, s: string, i: nat, j: nat)
    requires WordAt(lx, s, i, j)
    ensures WordToken(lx, s[i..j]) in Lex(lx, s)
    decreases |s|
  {
    var n := if lx.IsWord(s[0]) then WordLength(lx, s) else 1;
    if i == 0 {
      assert s[0..j] == s[..j];
      FirstWordToken(lx, s, j, n);
    } else {
      var rest, word := s[n..], s[i..j];
      WordBehind(lx, s, i, j, n, rest);
      WordsBecomeTokens(lx, rest, i - n, j - n);
      LexRest(lx, s, n, WordToken(lx, word));
    }
  }

  lemma FirstWordToken(lx: Lexicon, s: string, j: nat, n: nat)
    requires WordAt(lx, s, 0, j) && FirstPart(lx, s, n)
    ensures WordToken(lx, s[..j]) in Lex(lx, s)
  {
    assert n == j;
    assert Lex(lx, s)[0] == WordToken(lx, s[..n]);
  }

  lemma WordBehind(lx: Lexicon, s: string, i: nat, j: nat, n: nat, rest: string)
    requires WordAt(lx, s, i, j) && i > 0 && FirstPart(lx, s, n) && n <= |s| && rest == s[n..]
    ensures n <= i && WordAt(lx, rest, i - n, j - n) && rest[i - n..j - n] == s[i..j]
  {
    assert n <= i;
    forall k | i - n <= k < j - n
      ensures lx.IsWord(rest[k])
    {
      assert rest[k] == s[k + n];
    }
  }

  lemma LexRest(lx: Lexicon, s: string, n: nat, tok: Token)
    requires FirstPart(lx, s, n) && n < |s| && tok in Lex(lx, s[n..])
    ensures tok in Lex(lx, s)
  {
  }

  lemma {:induction false} JunkStops(s: State<Tree>, toks: Tokens)
    requires Junk in toks
    ensures !Run(s, toks).Going?
    decreases |toks|
  {
    if toks[0] != Junk {
      match Step(s, toks[0])
      case Going(s') =>
        assert toks == [toks[0]] + toks[1..];
        JunkStops(s', toks[1..]);
      case _ =>
    }
  }

  /** A text with a word that starts with a digit and is no number is not accepted. */
  lemma BadNumberRejected(lx: Lexicon, s: string, i: nat, j: nat)
    requires WordAt(lx, s, i, j) && lx.isDigit(s[i]) && lx.toNumber(s[i..j]).None?
    ensures !Run(Start, Lex(lx, s)).Going?
  {
    WordsBecomeTokens(lx, s, i, j);
    JunkStops(Start, Lex(lx, s));
  }
}

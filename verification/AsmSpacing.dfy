/**
 Statements written with any spacing are read back, and lines that are no statements are refused, with the complaint
 and its place.
 */
module AsmSpacing {
  import opened AsmLine
  import opened AsmPrint

  /** Space of any length between tokens. */
  ghost predicate Gap(tx: Text, g: string) {
    forall i :: 0 <= i < |g| ==> tx.isSpace(g[i]) && g[i] !in "#;/"
  }

  /** `t` is in the line from `p` to `q`. */
  ghost predicate Piece(line: string, p: nat, t: string, q: nat) {
    q == p + |t| && q <= |line| && line[p..q] == t
  }

  ghost predicate NoSlashAt(line: string, q: nat) {
    q < |line| ==> line[q] != '/'
  }

  lemma PieceChar(line: string, p: nat, t: string, q: nat, i: nat)
    requires Piece(line, p, t, q) && i < |t|
    ensures line[p + i] == t[i]
  {
    assert line[p..q][i] == t[i];
  }

  lemma TwoPieces(line: string, p: nat, a: string, b: string, q: nat) returns (m: nat)
    requires Piece(line, p, a + b, q)
    ensures Piece(line, p, a, m) && Piece(line, m, b, q)
  {
    m := p + |a|;
    assert line[p..m] == line[p..q][..|a|] == a;
    assert line[m..q] == line[p..q][|a|..] == b;
  }

  lemma SpaceStep(tx: Text, line: string, p: nat, s: Scan)
    requires Sane(tx) && p < |line| && tx.isSpace(line[p]) && line[p] !in "#;/"
    requires !s.inQuotes && !s.backslash && !s.spaceSeparated
    ensures StepAt(tx, line, p, s) == More(s)
  {
    assert !EndsHere(tx, line, p);
    assert Cut(tx, line, p, false, false, s) == More(s);
  }

  /** Space changes nothing, wherever it is outside quotes. */
  lemma {:induction false} GapScan(tx: Text, line: string, p: nat, g: string, q: nat, s: Scan)
    requires Sane(tx) && Gap(tx, g) && Piece(line, p, g, q)
    requires !s.inQuotes && !s.backslash && !s.spaceSeparated
    ensures ScanFrom(tx, line, p, s) == ScanFrom(tx, line, q, s)
    decreases |g|
  {
    if g != "" {
      PieceChar(line, p, g, q, 0);
      SpaceStep(tx, line, p, s);
      ScanOne(tx, line, p, p + 1, s, s);
      assert line[p + 1..q] == line[p..q][1..];
      GapScan(tx, line, p + 1, g[1..], q, s);
    }
  }

  lemma GapIsNoSlash(tx: Text, line: string, p: nat, gap: string, q: nat)
    requires Gap(tx, gap) && Piece(line, p, gap, q) && NoSlashAt(line, q)
    ensures NoSlashAt(line, p)
  {
    if gap != "" {
      PieceChar(line, p, gap, q, 0);
    }
  }

  lemma NameReach(tx: Text, line: string, p: nat, t: string, q: nat, s: Scan, s': Scan)
    requires Piece(line, p, t, q) && NoSlashAt(line, q) && Name(tx, t) && BeforeOperation(s)
    requires s' == s.(tokenBeg := p, tokenLast := q - 1)
    ensures ScanFrom(tx, line, p, s) == ScanFrom(tx, line, q, s')
  {
    NameScan(tx, line, p, t, |t|, s, q, s');
  }

  // ----- The label -----

  lemma LabelColon(tx: Text, line: string, p: nat, t: string, last: nat, q: nat, s: Scan, s2: Scan)
    requires t != "" && Piece(line, p, t, last) && last <= q < |line| && line[q] == ':'
    requires s == Fresh.(tokenBeg := p, tokenLast := last - 1) && s2 == Labelled(Fresh, t, last - 1)
    ensures StepAt(tx, line, q, s) == More(s2)
  {
    assert Mid(line, p, last - 1) == t;
    assert !EndsHere(tx, line, q);
    assert Cut(tx, line, q, false, true, s) == More(s.(maybeLabel := false, name := t, tokenBeg := -1));
  }

  /** The label `t` from `p` to `last` and its colon at `q`. */
  lemma LabelReach(tx: Text, line: string, p: nat, t: string, last: nat, gap: string, q: nat, s2: Scan)
    requires Sane(tx) && Name(tx, t) && Gap(tx, gap)
    requires Piece(line, p, t, last) && Piece(line, last, gap, q) && q < |line| && line[q] == ':'
    requires s2 == Labelled(Fresh, t, last - 1)
    ensures ScanFrom(tx, line, p, Fresh) == ScanFrom(tx, line, q + 1, s2)
  {
    var s := Fresh.(tokenBeg := p, tokenLast := last - 1);
    GapIsNoSlash(tx, line, last, gap, q);
    NameReach(tx, line, p, t, last, Fresh, s);
    GapScan(tx, line, last, gap, q, s);
    LabelColon(tx, line, p, t, last, q, s, s2);
    ScanOne(tx, line, q, q + 1, s, s2);
  }

  // ----- The operation -----

  /** The operation and the space behind it. */
  lemma OperationReach(tx: Text, line: string, p: nat, op: string, last: nat, gap: string, q: nat, s: Scan, s2: Scan)
    requires Sane(tx) && Name(tx, op) && Gap(tx, gap) && BeforeOperation(s)
    requires Piece(line, p, op, last) && Piece(line, last, gap, q) && NoSlashAt(line, last)
    requires s2 == s.(tokenBeg := p, tokenLast := last - 1)
    ensures ScanFrom(tx, line, p, s) == ScanFrom(tx, line, q, s2)
  {
    NameReach(tx, line, p, op, last, s, s2);
    GapScan(tx, line, last, gap, q, s2);
  }

  /** The operation, space and the start of an operand. */
  lemma OperandStarts(tx: Text, line: string, p: nat, op: string, last: nat, gap: string, q: nat, s: Scan, s2: Scan)
    requires Sane(tx) && Name(tx, op) && Gap(tx, gap) && gap != "" && BeforeOperation(s)
    requires Piece(line, p, op, last) && Piece(line, last, gap, q) && s2 == Operating(s, tx.upper(op), last - 1)
    requires q < |line| && !tx.isSpace(line[q]) && line[q] !in ",#;" && (s.maybeLabel ==> line[q] != ':')
    requires line[q] == '/' ==> NoSlashAt(line, q + 1)
    ensures ScanFrom(tx, line, p, s) == ScanFrom(tx, line, q, s2)
  {
    PieceChar(line, last, gap, q, 0);
    var s1 := s.(tokenBeg := p, tokenLast := last - 1);
    OperationReach(tx, line, p, op, last, gap, q, s, s1);
    assert Mid(line, p, last - 1) == op;
    OperationCut(tx, line, q, s1, s2);
  }

  // ----- The operands -----

  /** A comma between space on both sides. */
  datatype Comma = Comma(before: string, after: string)

  ghost predicate Commas(tx: Text, cs: seq<Comma>) {
    forall i :: 0 <= i < |cs| ==> Gap(tx, cs[i].before) && Gap(tx, cs[i].after)
  }

  function Separated(ops: seq<string>, cs: seq<Comma>): string
    requires |ops| == |cs| + 1
  {
    if cs == [] then ops[0] else ops[0] + cs[0].before + "," + cs[0].after + Separated(ops[1..], cs[1..])
  }

  lemma CommaStep(tx: Text, line: string, p: nat, t: string, last: nat, q: nat, s: Scan, s2: Scan)
    requires Sane(tx) && t != "" && Piece(line, p, t, last) && last <= q < |line| && line[q] == ','
    requires s.tokenBeg == p && s.tokenLast == last - 1 && s.operandNum >= 0
    requires !s.inQuotes && !s.backslash && !s.spaceSeparated && !s.maybeLabel
    requires s2 == s.(operands := s.operands + [t], tokenBeg := -1, operandNum := s.operandNum + 1)
    ensures ScanFrom(tx, line, q, s) == ScanFrom(tx, line, q + 1, s2)
  {
    assert Mid(line, p, last - 1) == t;
    assert StepAt(tx, line, q, s) == More(s2);
    ScanOne(tx, line, q, q + 1, s, s2);
  }

  ghost function InLast(s: Scan, p: nat, q: nat): Scan {
    s.(tokenBeg := p, tokenLast := q - 1)
  }

  /** An operand and the space behind it. */
  lemma OneReach(tx: Text, line: string, p: nat, t: string, last: nat, gap: string, q: nat, s: Scan)
    requires Sane(tx) && IsOperand(tx, t) && Gap(tx, gap) && BetweenOperands(s)
    requires Piece(line, p, t, last) && NoSlashAt(line, last) && Piece(line, last, gap, q)
    ensures ScanFrom(tx, line, p, s) == ScanFrom(tx, line, q, InLast(s, p, last))
  {
    WholeOperandScan(tx, line, p, t, s, last, InLast(s, p, last));
    GapScan(tx, line, last, gap, q, InLast(s, p, last));
  }

  /** An operand, a comma and the space around it. */
  lemma NextReach(tx: Text, line: string, p: nat, t: string, last: nat, c: Comma, q: nat, next: nat, s: Scan, s2: Scan)
    requires Sane(tx) && IsOperand(tx, t) && Gap(tx, c.before) && Gap(tx, c.after) && BetweenOperands(s)
    requires Piece(line, p, t, last) && Piece(line, last, c.before, q) && q < |line| && line[q] == ','
    requires Piece(line, q + 1, c.after, next)
    requires s2 == s.(operands := s.operands + [t], tokenBeg := -1, tokenLast := last - 1,
                      operandNum := s.operandNum + 1)
    ensures ScanFrom(tx, line, p, s) == ScanFrom(tx, line, next, s2)
  {
    GapIsNoSlash(tx, line, last, c.before, q);
    OneReach(tx, line, p, t, last, c.before, q, s);
    CommaReach(tx, line, p, t, last, q, c.after, next, InLast(s, p, last), s2);
  }

  lemma CommaReach(tx: Text, line: string, p: nat, t: string, last: nat, q: nat, gap: string, next: nat, s: Scan,
                   s2: Scan)
    requires Sane(tx) && t != "" && Piece(line, p, t, last) && last <= q < |line| && line[q] == ',' && Gap(tx, gap)
    requires Piece(line, q + 1, gap, next) && s.tokenBeg == p && s.tokenLast == last - 1 && s.operandNum >= 0
    requires !s.inQuotes && !s.backslash && !s.spaceSeparated && !s.maybeLabel
    requires s2 == s.(operands := s.operands + [t], tokenBeg := -1, operandNum := s.operandNum + 1)
    ensures ScanFrom(tx, line, q, s) == ScanFrom(tx, line, next, s2)
  {
    CommaStep(tx, line, p, t, last, q, s, s2);
    GapScan(tx, line, q + 1, gap, next, s2);
  }

  lemma SplitSeparated(line: string, p: nat, ops: seq<string>, cs: seq<Comma>, q: nat)
    returns (last: nat, comma: nat, next: nat)
    requires |ops| == |cs| + 1 && cs != [] && Piece(line, p, Separated(ops, cs), q)
    ensures Piece(line, p, ops[0], last) && Piece(line, last, cs[0].before, comma)
    ensures comma < |line| && line[comma] == ','
    ensures Piece(line, comma + 1, cs[0].after, next) && Piece(line, next, Separated(ops[1..], cs[1..]), q)
  {
    var rest := Separated(ops[1..], cs[1..]);
    assert Separated(ops, cs) == ops[0] + (cs[0].before + ("," + (cs[0].after + rest)));
    last := TwoPieces(line, p, ops[0], cs[0].before + ("," + (cs[0].after + rest)), q);
    comma := TwoPieces(line, last, cs[0].before, "," + (cs[0].after + rest), q);
    var behind := TwoPieces(line, comma, ",", cs[0].after + rest, q);
    PieceChar(line, comma, ",", behind, 0);
    next := TwoPieces(line, behind, cs[0].after, rest, q);
  }

  /** In the last of the operands, with all others filed. */
  ghost predicate InLastOperand(line: string, s: Scan, first: Scan, ops: seq<string>, q: nat)
    requires ops != []
  {
    && |ops[|ops| - 1]| <= q <= |line| && line[q - |ops[|ops| - 1]|..q] == ops[|ops| - 1]
    && s.operands == first.operands + ops[..|ops| - 1] && s.operandNum >= 0 && s.name == first.name && s.op == first.op
    && s.tokenBeg == q - |ops[|ops| - 1]| && s.tokenLast == q - 1
    && !s.inQuotes && !s.backslash && !s.spaceSeparated && !s.maybeLabel
  }

  lemma {:induction false} OperandsReach(tx: Text, line: string, p: nat, ops: seq<string>, cs: seq<Comma>, q: nat,
                                         s: Scan)
    returns (s': Scan)
    requires Sane(tx) && |ops| == |cs| + 1 && Commas(tx, cs) && BetweenOperands(s)
    requires forall i :: 0 <= i < |ops| ==> IsOperand(tx, ops[i])
    requires Piece(line, p, Separated(ops, cs), q) && NoSlashAt(line, q)
    ensures ScanFrom(tx, line, p, s) == ScanFrom(tx, line, q, s') && InLastOperand(line, s', s, ops, q)
    decreases |ops|
  {
    if cs == [] {
      s' := InLast(s, p, q);
      WholeOperandScan(tx, line, p, ops[0], s, q, s');
      assert ops[..0] == [] && s.operands + [] == s.operands;
    } else {
      var last, comma, next := SplitSeparated(line, p, ops, cs, q);
      var s2 := s.(operands := s.operands + [ops[0]], tokenBeg := -1, tokenLast := last - 1,
                   operandNum := s.operandNum + 1);
      NextReach(tx, line, p, ops[0], last, cs[0], comma, next, s, s2);
      s' := OperandsReach(tx, line, next, ops[1..], cs[1..], q, s2);
      OneMore(line, s', s2, s, ops, ops[1..], q);
    }
  }

  lemma OneMore(line: string, s': Scan, s2: Scan, s: Scan, ops: seq<string>, rest: seq<string>, q: nat)
    requires |ops| > 1 && rest == ops[1..] && InLastOperand(line, s', s2, rest, q)
    requires s2.operands == s.operands + [ops[0]] && s2.name == s.name && s2.op == s.op
    ensures InLastOperand(line, s', s, ops, q)
  {
    assert rest[|rest| - 1] == ops[|ops| - 1];
    assert s2.operands + rest[..|rest| - 1] == s.operands + ops[..|ops| - 1];
  }

  // ----- Whole lines -----

  /** The space in a line: at its start, around the colon, behind the operation, around the commas, and at its end. */
  datatype Spacing = Spacing(start: string, beforeColon: string, afterColon: string, afterOp: string,
                             commas: seq<Comma>, end: string)

  ghost predicate Fitting(tx: Text, st: Stmt, g: Spacing) {
    && WellFormed(tx, st) && Gap(tx, g.start) && Gap(tx, g.beforeColon) && Gap(tx, g.afterColon) && Gap(tx, g.afterOp)
    && Commas(tx, g.commas) && Gap(tx, g.end)
    && (st.operands != [] ==> g.afterOp != "" && |st.operands| == |g.commas| + 1)
  }

  /** The label and the space around it. */
  function Head(name: string, g: Spacing): string {
    g.start + if name == "" then "" else name + (g.beforeColon + (":" + g.afterColon))
  }

  function OperationPart(op: string, g: Spacing): string {
    op + g.afterOp
  }

  function Spaced(st: Stmt, g: Spacing): string
    requires st.operands != [] ==> |st.operands| == |g.commas| + 1
  {
    Head(st.name, g)
    + (OperationPart(st.op, g) + if st.operands == [] then "" else Separated(st.operands, g.commas) + g.end)
  }

  ghost predicate Labelless(s: Scan, name: string) {
    BeforeOperation(s) && s.name == name && s.op == "" && s.operands == [] && (s.maybeLabel ==> name == "")
  }

  lemma HeadReach(tx: Text, line: string, name: string, g: Spacing, p: nat) returns (s: Scan)
    requires Sane(tx) && (name == "" || Name(tx, name)) && Piece(line, 0, Head(name, g), p)
    requires Gap(tx, g.start) && Gap(tx, g.beforeColon) && Gap(tx, g.afterColon)
    ensures Tokenize(tx, line) == ScanFrom(tx, line, p, s) && Labelless(s, name)
  {
    var part := if name == "" then "" else name + (g.beforeColon + (":" + g.afterColon));
    var p0 := TwoPieces(line, 0, g.start, part, p);
    GapScan(tx, line, 0, g.start, p0, Fresh);
    if name == "" {
      s := Fresh;
    } else {
      s := LabelPart(tx, line, name, g, p0, p);
    }
  }

  lemma LabelPart(tx: Text, line: string, name: string, g: Spacing, p: nat, q: nat) returns (s: Scan)
    requires Sane(tx) && Name(tx, name) && Gap(tx, g.beforeColon) && Gap(tx, g.afterColon)
    requires Piece(line, p, name + (g.beforeColon + (":" + g.afterColon)), q)
    ensures ScanFrom(tx, line, p, Fresh) == ScanFrom(tx, line, q, s) && Labelless(s, name)
  {
    var last := TwoPieces(line, p, name, g.beforeColon + (":" + g.afterColon), q);
    var colon := TwoPieces(line, last, g.beforeColon, ":" + g.afterColon, q);
    var behind := TwoPieces(line, colon, ":", g.afterColon, q);
    PieceChar(line, colon, ":", behind, 0);
    s := Labelled(Fresh, name, last - 1);
    LabelReach(tx, line, p, name, last, g.beforeColon, colon, s);
    GapScan(tx, line, behind, g.afterColon, q, s);
  }

  lemma FirstOfSeparated(tx: Text, line: string, p: nat, ops: seq<string>, cs: seq<Comma>, q: nat)
    requires |ops| == |cs| + 1 && IsOperand(tx, ops[0]) && Commas(tx, cs)
    requires Piece(line, p, Separated(ops, cs), q) && NoSlashAt(line, q)
    ensures p < |line| && line[p] == ops[0][0] && !tx.isSpace(line[p]) && line[p] !in ",#;"
    ensures line[p] == '/' ==> NoSlashAt(line, p + 1)
  {
    var t, last := ops[0], q;
    if cs != [] {
      var comma, next;
      last, comma, next := SplitSeparated(line, p, ops, cs, q);
      GapIsNoSlash(tx, line, last, cs[0].before, comma);
    }
    PieceChar(line, p, t, last, 0);
    assert ModeAfter(t, 0) == Plain && Bare(t, 0);
    if |t| > 1 {
      PieceChar(line, p, t, last, 1);
    }
  }

  /** The operation, the operands and the space around them, up to the end of the last operand. */
  lemma StatementReach(tx: Text, line: string, p: nat, op: string, ops: seq<string>, g: Spacing, q: nat, s: Scan)
    returns (s': Scan)
    requires Sane(tx) && Name(tx, op) && Gap(tx, g.afterOp) && g.afterOp != "" && Commas(tx, g.commas)
    requires |ops| == |g.commas| + 1 && (forall i :: 0 <= i < |ops| ==> IsOperand(tx, ops[i])) && BeforeOperation(s)
    requires s.operands == [] && ops[0] != "" && (s.maybeLabel ==> ops[0][0] != ':')
    requires Piece(line, p, OperationPart(op, g) + Separated(ops, g.commas), q) && NoSlashAt(line, q)
    ensures ScanFrom(tx, line, p, s) == ScanFrom(tx, line, q, s')
    ensures InLastOperand(line, s', Operating(s, tx.upper(op), 0), ops, q)
  {
    var first := TwoPieces(line, p, OperationPart(op, g), Separated(ops, g.commas), q);
    var last := TwoPieces(line, p, op, g.afterOp, first);
    FirstOfSeparated(tx, line, first, ops, g.commas, q);
    var s2 := Operating(s, tx.upper(op), last - 1);
    OperandStarts(tx, line, p, op, last, g.afterOp, first, s, s2);
    s' := OperandsReach(tx, line, first, ops, g.commas, q, s2);
  }

  lemma LastFiled(tx: Text, line: string, s: Scan, first: Scan, ops: seq<string>, q: nat, end: nat)
    requires ops != [] && ops[|ops| - 1] != "" && InLastOperand(line, s, first, ops, q) && first.operands == []
    requires q <= end <= |line| && EndsHere(tx, line, end)
    ensures ScanFrom(tx, line, end, s) == Parsed(first.name, first.op, ops)
  {
    assert Mid(line, s.tokenBeg, s.tokenLast) == ops[|ops| - 1];
    assert [] + ops[..|ops| - 1] + [ops[|ops| - 1]] == ops;
    assert CharAt(line, end) != ',' && CharAt(line, end) != ':';
  }

  lemma OperationFiled(tx: Text, line: string, p: nat, op: string, last: nat, end: nat, s: Scan, s2: Scan)
    requires op != "" && Piece(line, p, op, last) && last <= end == |line| && BeforeOperation(s) && s.operands == []
    requires s2 == s.(tokenBeg := p, tokenLast := last - 1)
    ensures ScanFrom(tx, line, end, s2) == Parsed(s.name, tx.upper(op), [])
  {
    assert Mid(line, p, last - 1) == op;
  }

  lemma AfterHead(tx: Text, line: string, p: nat, st: Stmt, g: Spacing, s: Scan)
    requires Sane(tx) && Fitting(tx, st, g) && Labelless(s, st.name)
    requires Piece(line, p, OperationPart(st.op, g)
                            + if st.operands == [] then "" else Separated(st.operands, g.commas) + g.end, |line|)
    ensures ScanFrom(tx, line, p, s) == Parsed(st.name, tx.upper(st.op), st.operands)
  {
    if st.operands == [] {
      assert OperationPart(st.op, g) + "" == OperationPart(st.op, g);
      var last := TwoPieces(line, p, st.op, g.afterOp, |line|);
      var s2 := s.(tokenBeg := p, tokenLast := last - 1);
      GapIsNoSlash(tx, line, last, g.afterOp, |line|);
      OperationReach(tx, line, p, st.op, last, g.afterOp, |line|, s, s2);
      OperationFiled(tx, line, p, st.op, last, |line|, s, s2);
    } else {
      WithOperands(tx, line, p, st, g, s);
    }
  }

  lemma WithOperands(tx: Text, line: string, p: nat, st: Stmt, g: Spacing, s: Scan)
    requires Sane(tx) && Fitting(tx, st, g) && Labelless(s, st.name) && st.operands != []
    requires Piece(line, p, OperationPart(st.op, g) + (Separated(st.operands, g.commas) + g.end), |line|)
    ensures ScanFrom(tx, line, p, s) == Parsed(st.name, tx.upper(st.op), st.operands)
  {
    var ops := Separated(st.operands, g.commas);
    assert OperationPart(st.op, g) + (ops + g.end) == OperationPart(st.op, g) + ops + g.end;
    var q := TwoPieces(line, p, OperationPart(st.op, g) + ops, g.end, |line|);
    GapIsNoSlash(tx, line, q, g.end, |line|);
    var s' := StatementReach(tx, line, p, st.op, st.operands, g, q, s);
    GapScan(tx, line, q, g.end, |line|, s');
    LastFiled(tx, line, s', Operating(s, tx.upper(st.op), 0), st.operands, q, |line|);
  }

  /** A statement is read back however it is spaced. */
  lemma SpacedLine(tx: Text, st: Stmt, g: Spacing)
    requires Sane(tx) && Fitting(tx, st, g)
    ensures Tokenize(tx, Spaced(st, g)) == Parsed(st.name, tx.upper(st.op), st.operands)
  {
    var line := Spaced(st, g);
    var rest := OperationPart(st.op, g) + if st.operands == [] then "" else Separated(st.operands, g.commas) + g.end;
    assert line[0..|line|] == Head(st.name, g) + rest;
    var p := TwoPieces(line, 0, Head(st.name, g), rest, |line|);
    var s := HeadReach(tx, line, st.name, g, p);
    AfterHead(tx, line, p, st, g, s);
  }

  // ----- Lines that are refused -----

  lemma RefusedAt(tx: Text, line: string, p: nat, s: Scan, what: Complaint)
    requires p <= |line| && StepAt(tx, line, p, s) == Done(Malformed(what, p))
    ensures ScanFrom(tx, line, p, s) == Malformed(what, p)
  {
  }

  /** A colon without a label. */
  lemma EmptyLabelRefused(tx: Text, line: string, gap: string, p: nat)
    requires Sane(tx) && Gap(tx, gap) && Piece(line, 0, gap, p) && p < |line| && line[p] == ':'
    ensures Tokenize(tx, line) == Malformed(EmptyLabel, p)
  {
    GapScan(tx, line, 0, gap, p, Fresh);
    assert !EndsHere(tx, line, p);
    RefusedAt(tx, line, p, Fresh, EmptyLabel);
  }

  /** A quote in the label, or in the operation or before it. */
  lemma QuoteRefused(tx: Text, line: string, name: string, g: Spacing, p: nat, t: string, q: nat)
    requires Sane(tx) && (name == "" || Name(tx, name)) && (t == "" || Name(tx, t))
    requires Gap(tx, g.start) && Gap(tx, g.beforeColon) && Gap(tx, g.afterColon)
    requires Piece(line, 0, Head(name, g), p) && Piece(line, p, t, q) && q < |line| && line[q] == '"'
    ensures Tokenize(tx, line) == Malformed(UnexpectedQuote, q)
  {
    var s := HeadReach(tx, line, name, g, p);
    var s2 := s;
    if t != "" {
      s2 := s.(tokenBeg := p, tokenLast := q - 1);
      NameReach(tx, line, p, t, q, s, s2);
    }
    assert !EndsHere(tx, line, q);
    RefusedAt(tx, line, q, s2, UnexpectedQuote);
  }

  /** A comma where the first operand should be. */
  lemma FirstOperandRefused(tx: Text, line: string, name: string, g: Spacing, p: nat, op: string, q: nat)
    requires Sane(tx) && (name == "" || Name(tx, name)) && Name(tx, op)
    requires Gap(tx, g.start) && Gap(tx, g.beforeColon) && Gap(tx, g.afterColon)
    requires Gap(tx, g.afterOp) && g.afterOp != ""
    requires Piece(line, 0, Head(name, g), p) && Piece(line, p, OperationPart(op, g), q) && q < |line| && line[q] == ','
    ensures Tokenize(tx, line) == Malformed(EmptyFirstOperand, q)
  {
    var s := HeadReach(tx, line, name, g, p);
    var last := TwoPieces(line, p, op, g.afterOp, q);
    var s2 := s.(tokenBeg := p, tokenLast := last - 1);
    GapIsNoSlash(tx, line, last, g.afterOp, q);
    OperationReach(tx, line, p, op, last, g.afterOp, q, s, s2);
    assert !EndsHere(tx, line, q);
    RefusedAt(tx, line, q, s2, EmptyFirstOperand);
  }

  /** Label, operation and operands from the start of the line to `q`. */
  ghost predicate Begun(tx: Text, line: string, st: Stmt, g: Spacing, q: nat) {
    && Sane(tx) && Fitting(tx, st, g) && st.operands != []
    && Piece(line, 0, Head(st.name, g) + (OperationPart(st.op, g) + Separated(st.operands, g.commas)), q)
  }

  lemma BegunReach(tx: Text, line: string, st: Stmt, g: Spacing, q: nat) returns (s: Scan, first: Scan)
    requires Begun(tx, line, st, g, q) && NoSlashAt(line, q)
    ensures Tokenize(tx, line) == ScanFrom(tx, line, q, s) && InLastOperand(line, s, first, st.operands, q)
    ensures first.name == st.name && first.op == tx.upper(st.op) && first.operands == []
  {
    var p := TwoPieces(line, 0, Head(st.name, g), OperationPart(st.op, g) + Separated(st.operands, g.commas), q);
    var s1 := HeadReach(tx, line, st.name, g, p);
    first := Operating(s1, tx.upper(st.op), 0);
    s := StatementReach(tx, line, p, st.op, st.operands, g, q, s1);
  }

  /** A comma behind an operand, and then another comma, the end of the line or a comment. */
  lemma OperandRefused(tx: Text, line: string, st: Stmt, g: Spacing, q: nat, c: Comma, comma: nat, next: nat)
    requires Begun(tx, line, st, g, q) && Gap(tx, c.before) && Gap(tx, c.after)
    requires Piece(line, q, c.before, comma) && comma < |line| && line[comma] == ','
    requires Piece(line, comma + 1, c.after, next) && (EndsHere(tx, line, next) || line[next] == ',')
    ensures Tokenize(tx, line) == Malformed(EmptyOperand, next)
  {
    GapIsNoSlash(tx, line, q, c.before, comma);
    var s, first := BegunReach(tx, line, st, g, q);
    GapScan(tx, line, q, c.before, comma, s);
    var t := st.operands[|st.operands| - 1];
    var s2 := s.(operands := s.operands + [t], tokenBeg := -1, operandNum := s.operandNum + 1);
    CommaReach(tx, line, s.tokenBeg, t, q, comma, c.after, next, s, s2);
    RefusedAt(tx, line, next, s2, EmptyOperand);
  }

  /** A quote with text behind it that does not end it. */
  ghost predicate OpenQuote(t: string) {
    t != "" && t[0] == '"' && forall n :: 0 < n <= |t| ==> ModeAfter(t, n) != Plain
  }

  lemma {:induction false} OpenScan(tx: Text, line: string, p: nat, t: string, n: nat, s: Scan, q: nat, s': Scan)
    requires Sane(tx) && Piece(line, p, t, |line|) && OpenQuote(t) && 0 < n <= |t| && q == p + n
    requires BetweenOperands(s) && s' == s.(tokenBeg := p, tokenLast := q - 1, inQuotes := true,
                                            backslash := ModeAfter(t, n) == Escaped)
    ensures ScanFrom(tx, line, p, s) == ScanFrom(tx, line, q, s')
    decreases n
  {
    PieceChar(line, p, t, |line|, n - 1);
    if n == 1 {
      assert ModeAfter(t, 1) == NextMode(ModeAfter(t, 0), t[0]) == Quoted;
      assert !EndsHere(tx, line, p);
      ScanOne(tx, line, p, q, s, s');
    } else {
      var before := s.(tokenBeg := p, tokenLast := q - 2, inQuotes := true,
                       backslash := ModeAfter(t, n - 1) == Escaped);
      OpenScan(tx, line, p, t, n - 1, s, q - 1, before);
      assert ModeAfter(t, n) == NextMode(ModeAfter(t, n - 1), t[n - 1]);
      ScanOne(tx, line, q - 1, q, before, s');
    }
  }

  /** A quote that is not closed, in the first operand or in a later one. */
  lemma OpenQuoteRefused(tx: Text, line: string, p: nat, t: string, s: Scan)
    requires Sane(tx) && Piece(line, p, t, |line|) && OpenQuote(t) && BetweenOperands(s)
    requires Tokenize(tx, line) == ScanFrom(tx, line, p, s)
    ensures Tokenize(tx, line) == Malformed(UnterminatedQuote, |line|)
  {
    var end := |line|;
    var s' := s.(tokenBeg := p, tokenLast := end - 1, inQuotes := true, backslash := ModeAfter(t, |t|) == Escaped);
    OpenScan(tx, line, p, t, |t|, s, end, s');
    RefusedAt(tx, line, end, s', UnterminatedQuote);
  }

  lemma FirstQuoteRefused(tx: Text, line: string, name: string, g: Spacing, p: nat, op: string, q: nat, t: string)
    requires Sane(tx) && (name == "" || Name(tx, name)) && Name(tx, op) && OpenQuote(t)
    requires Gap(tx, g.start) && Gap(tx, g.beforeColon) && Gap(tx, g.afterColon)
    requires Gap(tx, g.afterOp) && g.afterOp != ""
    requires Piece(line, 0, Head(name, g), p) && Piece(line, p, OperationPart(op, g), q) && Piece(line, q, t, |line|)
    ensures Tokenize(tx, line) == Malformed(UnterminatedQuote, |line|)
  {
    var s := HeadReach(tx, line, name, g, p);
    var last := TwoPieces(line, p, op, g.afterOp, q);
    var s2 := Operating(s, tx.upper(op), last - 1);
    PieceChar(line, q, t, |line|, 0);
    OperandStarts(tx, line, p, op, last, g.afterOp, q, s, s2);
    OpenQuoteRefused(tx, line, q, t, s2);
  }

  lemma LaterQuoteRefused(tx: Text, line: string, st: Stmt, g: Spacing, q: nat, c: Comma, comma: nat, next: nat,
                          t: string)
    requires Begun(tx, line, st, g, q) && Gap(tx, c.before) && Gap(tx, c.after) && OpenQuote(t)
    requires Piece(line, q, c.before, comma) && comma < |line| && line[comma] == ','
    requires Piece(line, comma + 1, c.after, next) && Piece(line, next, t, |line|)
    ensures Tokenize(tx, line) == Malformed(UnterminatedQuote, |line|)
  {
    GapIsNoSlash(tx, line, q, c.before, comma);
    var s, first := BegunReach(tx, line, st, g, q);
    GapScan(tx, line, q, c.before, comma, s);
    var last := st.operands[|st.operands| - 1];
    var s2 := s.(operands := s.operands + [last], tokenBeg := -1, operandNum := s.operandNum + 1);
    CommaReach(tx, line, s.tokenBeg, last, q, comma, c.after, next, s, s2);
    OpenQuoteRefused(tx, line, next, t, s2);
  }

  // ----- Pragmas and includes -----

  /** Where there is no space, it does not matter whether space separates. */
  lemma {:induction false} NoSpaceLeft(tx: Text, line: string, p: nat, s: Scan, t: Scan)
    requires p <= |line| && (forall k :: p <= k < |line| ==> !tx.isSpace(line[k]))
    requires t == s.(spaceSeparated := t.spaceSeparated)
    ensures ScanFrom(tx, line, p, s) == ScanFrom(tx, line, p, t)
    decreases |line| - p
  {
    var b := SameButSpace(tx, line, p, s, t);
    match StepAt(tx, line, p, s)
    case Done(_) =>
    case More(s') =>
      if p < |line| {
        NoSpaceLeft(tx, line, p + 1, s', s'.(spaceSeparated := b));
      }
  }

  function Flagged(p: Progress, spaceSeparated: bool): Progress {
    match p
    case Done(l) => Done(l)
    case More(s) => More(s.(spaceSeparated := spaceSeparated))
  }

  lemma SameCutButSpace(tx: Text, line: string, p: nat, final: bool, separator: bool, s: Scan, b: bool)
    ensures Cut(tx, line, p, final, separator, s.(spaceSeparated := b))
         == Flagged(Cut(tx, line, p, final, separator, s), b)
  {
  }

  lemma SameTakeButSpace(tx: Text, ch: char, p: nat, separator: bool, s: Scan, b: bool)
    ensures Take(tx, ch, p, separator, s.(spaceSeparated := b)) == Flagged(Take(tx, ch, p, separator, s), b)
  {
  }

  lemma SamePlainButSpace(tx: Text, line: string, p: nat, s: Scan, t: Scan, s1: Scan, t1: Scan)
    requires p <= |line| && (p < |line| ==> !tx.isSpace(line[p])) && t == s.(spaceSeparated := t.spaceSeparated)
    requires var pragma := !EndsHere(tx, line, p) && Directive(tx, line, p, "#pragma");
             && s1 == s.(spaceSeparated := s.spaceSeparated || pragma)
             && t1 == t.(spaceSeparated := t.spaceSeparated || pragma)
    ensures PlainStep(tx, line, p, t) == Flagged(PlainStep(tx, line, p, s), t1.spaceSeparated)
  {
    var ch, final, b := CharAt(line, p), EndsHere(tx, line, p), t1.spaceSeparated;
    var separator := final || Separates(tx, ch, s1);
    assert separator == (final || Separates(tx, ch, t1)) && t1 == s1.(spaceSeparated := b);
    SameCutButSpace(tx, line, p, final, separator, s1, b);
    match Cut(tx, line, p, final, separator, s1)
    case Done(_) =>
    case More(s2) => SameTakeButSpace(tx, ch, p, separator, s2, b);
  }

  lemma SameButSpace(tx: Text, line: string, p: nat, s: Scan, t: Scan) returns (b: bool)
    requires p <= |line| && (p < |line| ==> !tx.isSpace(line[p])) && t == s.(spaceSeparated := t.spaceSeparated)
    ensures StepAt(tx, line, p, t) == Flagged(StepAt(tx, line, p, s), b)
  {
    b := t.spaceSeparated;
    if !s.inQuotes {
      var pragma := !EndsHere(tx, line, p) && Directive(tx, line, p, "#pragma");
      b := b || pragma;
      SamePlainButSpace(tx, line, p, s, t, s.(spaceSeparated := s.spaceSeparated || pragma), t.(spaceSeparated := b));
    }
  }

  ghost predicate IsDirective(tx: Text, word: string) {
    word in {"#pragma", "#include"} && forall i :: 0 <= i < |word| ==> !tx.isSpace(word[i])
  }

  lemma {:induction false} WordReach(tx: Text, line: string, word: string, n: nat) returns (s: Scan)
    requires IsDirective(tx, word) && Directive(tx, line, 0, word) && 0 < n <= |word| <= |line|
    ensures ScanFrom(tx, line, 0, Fresh) == ScanFrom(tx, line, n, s)
    ensures s == Fresh.(tokenBeg := 0, tokenLast := n - 1, spaceSeparated := s.spaceSeparated)
    decreases n
  {
    var before := Fresh;
    if n > 1 {
      before := WordReach(tx, line, word, n - 1);
    }
    assert line[0..|word|][n - 1] == line[n - 1];
    assert n > 1 ==> word[n - 1] !in "#;/:\",";
    assert !EndsHere(tx, line, n - 1);
    s := StepAt(tx, line, n - 1, before).scan;
    ScanOne(tx, line, n - 1, n, before, s);
  }

  lemma {:induction false} GapSkipped(tx: Text, line: string, p: nat, g: string, q: nat, s: Scan)
    requires Sane(tx) && Gap(tx, g) && Piece(line, p, g, q)
    requires !s.inQuotes && !s.backslash && s.operandNum == -1
    ensures ScanFrom(tx, line, p, s) == ScanFrom(tx, line, q, s)
    decreases |g|
  {
    if g != "" {
      PieceChar(line, p, g, q, 0);
      assert !EndsHere(tx, line, p);
      assert Cut(tx, line, p, false, false, s) == More(s);
      ScanOne(tx, line, p, p + 1, s, s);
      assert line[p + 1..q] == line[p..q][1..];
      GapSkipped(tx, line, p + 1, g[1..], q, s);
    }
  }

  /** Neither is a comment: the operation is the directive, and the operand what is behind it. */
  lemma DirectiveLine(tx: Text, line: string, word: string, p: nat, gap: string, q: nat, t: string)
    requires Sane(tx) && IsDirective(tx, word) && Gap(tx, gap) && gap != "" && IsOperand(tx, t) && t[0] != ':'
    requires forall i :: 0 <= i < |t| ==> !tx.isSpace(t[i])
    requires Piece(line, 0, word, p) && Piece(line, p, gap, q) && Piece(line, q, t, |line|)
    ensures Tokenize(tx, line) == Parsed("", tx.upper(word), [t])
  {
    PieceChar(line, p, gap, q, 0);
    var s := WordReach(tx, line, word, |word|);
    GapSkipped(tx, line, p, gap, q, s);
    forall k | q <= k < |line|
      ensures !tx.isSpace(line[k])
    {
      PieceChar(line, q, t, |line|, k - q);
    }
    var s1 := s.(spaceSeparated := false);
    NoSpaceLeft(tx, line, q, s, s1);
    PieceChar(line, q, t, |line|, 0);
    assert ModeAfter(t, 0) == Plain && Bare(t, 0);
    if |t| > 1 {
      PieceChar(line, q, t, |line|, 1);
    }
    var s2 := Operating(s1, tx.upper(word), p - 1);
    assert Mid(line, 0, p - 1) == word;
    OperationCut(tx, line, q, s1, s2);
    var end := |line|;
    WholeOperandScan(tx, line, q, t, s2, end, InLast(s2, q, end));
    EndScan(tx, line, q, t, end, InLast(s2, q, end));
    assert s2.operands + [t] == [t];
  }
}

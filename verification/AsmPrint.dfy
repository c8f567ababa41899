/**
 Statements written as lines: the pass over the characters finds label, operation and operands
 again, whatever the operands hide in quotes.
 */
module AsmPrint {
  import opened AsmLine

  ghost predicate Sane(tx: Text) {
    tx.isSpace(' ') && !tx.isSpace('"') && !tx.isSpace(',') && !tx.isSpace(':')
  }

  /** A label or an operation: no space, comment, colon or quote in it. */
  ghost predicate Name(tx: Text, t: string) {
    && t != ""
    && (forall i :: 0 <= i < |t| ==> !tx.isSpace(t[i]) && t[i] !in "#;:\"")
    && !HasDoubleSlash(t)
  }

  ghost predicate HasDoubleSlash(t: string) {
    exists i :: 0 <= i < |t| - 1 && t[i] == '/' && t[i + 1] == '/'
  }

  // ----- Operands: what is quoted is anything, what is not has no separator -----

  datatype Mode = Plain | Quoted | Escaped

  function NextMode(m: Mode, c: char): Mode {
    match m
    case Plain => if c == '"' then Quoted else Plain
    case Quoted => if c == '"' then Plain else if c == '\\' then Escaped else Quoted
    case Escaped => Quoted
  }

  function ModeAfter(t: string, n: nat): Mode
    requires n <= |t|
  {
    if n == 0 then Plain else NextMode(ModeAfter(t, n - 1), t[n - 1])
  }

  ghost predicate Bare(t: string, n: nat)
    requires n < |t|
  {
    t[n] !in ",;#" && !(t[n] == '/' && n + 1 < |t| && t[n + 1] == '/')
  }

  ghost predicate IsOperand(tx: Text, t: string) {
    && t != "" && !tx.isSpace(t[0]) && !tx.isSpace(t[|t| - 1])
    && ModeAfter(t, |t|) == Plain
    && forall n :: 0 <= n < |t| && ModeAfter(t, n) == Plain ==> Bare(t, n)
  }

  datatype Stmt = Stmt(name: string, op: string, operands: seq<string>)

  ghost predicate WellFormed(tx: Text, st: Stmt) {
    && (st.name == "" || Name(tx, st.name)) && Name(tx, st.op)
    && (forall i :: 0 <= i < |st.operands| ==> IsOperand(tx, st.operands[i]))
    && (st.name == "" && st.operands != [] ==> st.operands[0][0] != ':')
  }

  function RenderOperands(ops: seq<string>): string
    requires ops != []
  {
    if |ops| == 1 then ops[0] else ops[0] + ", " + RenderOperands(ops[1..])
  }

  function Render(st: Stmt): string {
    (if st.name == "" then "" else st.name + ": ") + st.op
      + if st.operands == [] then "" else " " + RenderOperands(st.operands)
  }

  // ----- Scanning names -----

  ghost predicate TextAt(line: string, p: nat, t: string) {
    p + |t| <= |line| && line[p..p + |t|] == t && (p + |t| < |line| ==> line[p + |t|] != '/')
  }

  lemma TextAtChar(line: string, p: nat, t: string, i: nat)
    requires TextAt(line, p, t) && i < |t|
    ensures line[p + i] == t[i]
    ensures i + 1 < |t| ==> line[p + i + 1] == t[i + 1]
    ensures i + 1 == |t| && p + i + 1 < |line| ==> line[p + i + 1] != '/'
  {
    assert line[p..p + |t|][i] == t[i];
    if i + 1 < |t| {
      assert line[p..p + |t|][i + 1] == t[i + 1];
    }
  }

  function InName(s: Scan, p: nat, n: nat): Scan {
    if n == 0 then s else s.(tokenBeg := p, tokenLast := p + n - 1)
  }

  lemma {:induction false} NameScan(tx: Text, line: string, p: nat, t: string, n: nat, s: Scan, q: nat, s': Scan)
    requires TextAt(line, p, t) && Name(tx, t) && n <= |t| && q == p + n && s' == InName(s, p, n)
    requires !s.inQuotes && !s.backslash && !s.spaceSeparated && s.operandNum == -1 && s.tokenBeg == -1
    ensures ScanFrom(tx, line, p, s) == ScanFrom(tx, line, q, s')
  {
    if n > 0 {
      var before := InName(s, p, n - 1);
      NameScan(tx, line, p, t, n - 1, s, q - 1, before);
      NameStep(tx, line, p, t, n, s, q - 1);
      ScanOne(tx, line, q - 1, q, before, s');
    }
  }

  lemma NameStep(tx: Text, line: string, p: nat, t: string, n: nat, s: Scan, q: nat)
    requires TextAt(line, p, t) && Name(tx, t) && 0 < n <= |t| && q == p + n - 1
    requires !s.inQuotes && !s.backslash && !s.spaceSeparated && s.operandNum == -1 && s.tokenBeg == -1
    ensures q < |line| && StepAt(tx, line, q, InName(s, p, n - 1)) == More(InName(s, p, n))
  {
    TextAtChar(line, p, t, n - 1);
    assert !EndsHere(tx, line, q);
    assert PlainStep(tx, line, q, InName(s, p, n - 1)) == More(InName(s, p, n));
  }

  lemma ScanOne(tx: Text, line: string, p: nat, next: nat, s: Scan, s': Scan)
    requires p < |line| && next == p + 1 && StepAt(tx, line, p, s) == More(s')
    ensures ScanFrom(tx, line, p, s) == ScanFrom(tx, line, next, s')
  {
  }

  /** Between tokens, a space is skipped. */
  lemma BlankStep(tx: Text, line: string, q: nat, s: Scan)
    requires Sane(tx) && q < |line| && line[q] == ' ' && s.tokenBeg == -1
    requires !s.inQuotes && !s.backslash && !s.maybeLabel
    ensures StepAt(tx, line, q, s) == More(s)
  {
    assert !EndsHere(tx, line, q);
    assert Cut(tx, line, q, false, false, s) == More(s);
  }

  // ----- Scanning operands -----

  /** The last character of the first `n` that belongs to the token: trailing space is not. */
  function LastTaken(tx: Text, t: string, n: nat): nat
    requires 0 < n <= |t|
  {
    if n == 1 || ModeAfter(t, n - 1) != Plain || !tx.isSpace(t[n - 1]) then n - 1 else LastTaken(tx, t, n - 1)
  }

  function InOperand(tx: Text, s: Scan, t: string, p: nat, n: nat): Scan
    requires n <= |t|
  {
    if n == 0 then s
    else s.(tokenBeg := p, tokenLast := p + LastTaken(tx, t, n),
            inQuotes := ModeAfter(t, n) != Plain, backslash := ModeAfter(t, n) == Escaped)
  }

  ghost predicate BetweenOperands(s: Scan) {
    !s.inQuotes && !s.backslash && !s.spaceSeparated && !s.maybeLabel && s.operandNum >= 0 && s.tokenBeg == -1
  }

  lemma OperandStep(tx: Text, line: string, p: nat, t: string, n: nat, s: Scan, q: nat, before: Scan, after: Scan)
    requires TextAt(line, p, t) && IsOperand(tx, t) && n < |t| && BetweenOperands(s) && q == p + n
    requires before == InOperand(tx, s, t, p, n) && after == InOperand(tx, s, t, p, n + 1)
    ensures StepAt(tx, line, q, before) == More(after)
  {
    TextAtChar(line, p, t, n);
    if ModeAfter(t, n) == Plain {
      assert Bare(t, n);
      assert !EndsHere(tx, line, q);
    }
  }

  lemma {:induction false} OperandScan(tx: Text, line: string, p: nat, t: string, n: nat, s: Scan, q: nat, s': Scan)
    requires TextAt(line, p, t) && IsOperand(tx, t) && n <= |t| && BetweenOperands(s)
    requires q == p + n && s' == InOperand(tx, s, t, p, n)
    ensures ScanFrom(tx, line, p, s) == ScanFrom(tx, line, q, s')
  {
    if n > 0 {
      var last, before := q - 1, InOperand(tx, s, t, p, n - 1);
      OperandStep(tx, line, p, t, n - 1, s, last, before, s');
      ScanOne(tx, line, last, q, before, s');
      OperandScan(tx, line, p, t, n - 1, s, last, before);
    }
  }

  lemma WholeOperandScan(tx: Text, line: string, p: nat, t: string, s: Scan, q: nat, s': Scan)
    requires TextAt(line, p, t) && IsOperand(tx, t) && BetweenOperands(s)
    requires q == p + |t| && s' == s.(tokenBeg := p, tokenLast := q - 1)
    ensures ScanFrom(tx, line, p, s) == ScanFrom(tx, line, q, s')
  {
    OperandScan(tx, line, p, t, |t|, s, q, s');
  }

  /** The comma after an operand files it; the space after the comma is skipped. */
  lemma SeparatorScan(tx: Text, line: string, p: nat, t: string, q: nat, s: Scan, next: nat, s2: Scan)
    requires Sane(tx) && TextAt(line, p, t) && t != "" && q == p + |t| && next == q + 2 <= |line|
    requires line[q] == ',' && line[q + 1] == ' '
    requires s.tokenBeg == p && s.tokenLast == q - 1 && s.operandNum >= 0
    requires !s.inQuotes && !s.backslash && !s.spaceSeparated && !s.maybeLabel
    requires s2 == s.(operands := s.operands + [t], tokenBeg := -1, operandNum := s.operandNum + 1)
    ensures ScanFrom(tx, line, q, s) == ScanFrom(tx, line, next, s2)
  {
    assert StepAt(tx, line, q, s) == More(s2);
    ScanOne(tx, line, q, q + 1, s, s2);
    BlankStep(tx, line, q + 1, s2);
    ScanOne(tx, line, q + 1, next, s2, s2);
  }

  lemma EndScan(tx: Text, line: string, p: nat, t: string, q: nat, s: Scan)
    requires TextAt(line, p, t) && t != "" && q == p + |t| == |line|
    requires s.tokenBeg == p && s.tokenLast == q - 1 && s.operandNum >= 0 && !s.inQuotes && !s.maybeLabel
    ensures ScanFrom(tx, line, q, s) == Parsed(s.name, s.op, s.operands + [t])
  {
  }

  lemma SplitOperands(line: string, p: nat, ops: seq<string>)
    requires ops != [] && ops[0] != "" && p <= |line| && line[p..] == RenderOperands(ops)
    ensures TextAt(line, p, ops[0])
    ensures var q := p + |ops[0]|;
            if |ops| == 1 then q == |line|
            else q + 2 <= |line| && line[q] == ',' && line[q + 1] == ' ' && line[q + 2..] == RenderOperands(ops[1..])
  {
    var t := ops[0];
    var q := p + |t|;
    assert line[p..q] == line[p..][..|t|] == t;
    if |ops| > 1 {
      assert line[q] == line[p..][|t|] && line[q + 1] == line[p..][|t| + 1];
      assert line[q + 2..] == line[p..][|t| + 2..] == RenderOperands(ops[1..]);
    }
  }

  lemma FirstOperandScan(tx: Text, line: string, p: nat, t: string, s: Scan, s2: Scan, next: nat)
    requires Sane(tx) && TextAt(line, p, t) && IsOperand(tx, t) && BetweenOperands(s)
    requires next == p + |t| + 2 <= |line| && line[p + |t|] == ',' && line[p + |t| + 1] == ' '
    requires s2 == s.(operands := s.operands + [t], tokenBeg := -1, tokenLast := p + |t| - 1,
                      operandNum := s.operandNum + 1)
    ensures ScanFrom(tx, line, p, s) == ScanFrom(tx, line, next, s2)
  {
    var q, s1 := p + |t|, s.(tokenBeg := p, tokenLast := p + |t| - 1);
    SeparatorScan(tx, line, p, t, q, s1, next, s2);
    WholeOperandScan(tx, line, p, t, s, q, s1);
  }

  lemma LastOperandScan(tx: Text, line: string, p: nat, t: string, s: Scan)
    requires TextAt(line, p, t) && IsOperand(tx, t) && BetweenOperands(s) && p + |t| == |line|
    ensures ScanFrom(tx, line, p, s) == Parsed(s.name, s.op, s.operands + [t])
  {
    var q, s1 := p + |t|, s.(tokenBeg := p, tokenLast := p + |t| - 1);
    EndScan(tx, line, p, t, q, s1);
    WholeOperandScan(tx, line, p, t, s, q, s1);
  }

  lemma {:induction false} OperandsScan(tx: Text, line: string, p: nat, ops: seq<string>, s: Scan)
    requires Sane(tx) && ops != [] && forall i :: 0 <= i < |ops| ==> IsOperand(tx, ops[i])
    requires p <= |line| && line[p..] == RenderOperands(ops) && BetweenOperands(s)
    ensures ScanFrom(tx, line, p, s) == Parsed(s.name, s.op, s.operands + ops)
    decreases ops
  {
    var t := ops[0];
    SplitOperands(line, p, ops);
    assert s.operands + [t] + ops[1..] == s.operands + ops;
    if |ops| == 1 {
      LastOperandScan(tx, line, p, t, s);
      assert ops == [t];
    } else {
      var next := p + |t| + 2;
      var s2 := s.(operands := s.operands + [t], tokenBeg := -1, tokenLast := p + |t| - 1,
                   operandNum := s.operandNum + 1);
      OperandsScan(tx, line, next, ops[1..], s2);
      FirstOperandScan(tx, line, p, t, s, s2, next);
    }
  }

  // ----- Whole lines -----

  function Labelled(s: Scan, name: string, last: int): Scan {
    s.(name := name, maybeLabel := false, tokenBeg := -1, tokenLast := last)
  }

  /** The colon files the name. */
  lemma ColonStep(tx: Text, line: string, t: string, q: nat, s: Scan, s2: Scan)
    requires t != "" && q == |t| < |line| && line[..q] == t && line[q] == ':'
    requires s == InName(Fresh, 0, q) && s2 == Labelled(Fresh, t, q - 1)
    ensures StepAt(tx, line, q, s) == More(s2)
  {
    assert Mid(line, 0, q - 1) == t;
    assert !EndsHere(tx, line, q);
    assert Cut(tx, line, q, false, true, s) == More(s.(maybeLabel := false, name := t, tokenBeg := -1));
  }

  /** The colon files the name and the space after it is skipped. */
  lemma ColonScan(tx: Text, line: string, t: string, q: nat, s: Scan, s2: Scan, after: nat, r: Line)
    requires Sane(tx) && t != "" && q == |t| && after == q + 2 <= |line| && line[..q] == t
    requires line[q] == ':' && line[q + 1] == ' '
    requires s == InName(Fresh, 0, q) && s2 == Labelled(Fresh, t, q - 1) && r == ScanFrom(tx, line, after, s2)
    ensures ScanFrom(tx, line, q, s) == r
  {
    ColonStep(tx, line, t, q, s, s2);
    BlankStep(tx, line, q + 1, s2);
    ScanOne(tx, line, q + 1, after, s2, s2);
    ScanOne(tx, line, q, q + 1, s, s2);
  }

  lemma LabelScan(tx: Text, line: string, t: string, s2: Scan, after: nat, r: Line)
    requires Sane(tx) && Name(tx, t) && after == |t| + 2 <= |line| && line[..|t|] == t
    requires line[|t|] == ':' && line[|t| + 1] == ' '
    requires s2 == Labelled(Fresh, t, |t| - 1) && r == ScanFrom(tx, line, after, s2)
    ensures Tokenize(tx, line) == r
  {
    assert TextAt(line, 0, t);
    var q, s := |t|, InName(Fresh, 0, |t|);
    ColonScan(tx, line, t, q, s, s2, after, r);
    NameScan(tx, line, 0, t, q, Fresh, q, s);
  }

  ghost predicate BeforeOperation(s: Scan) {
    !s.inQuotes && !s.backslash && !s.spaceSeparated && s.operandNum == -1 && s.tokenBeg == -1
  }

  /** An operation without operands ends with the line. */
  lemma BareOperationScan(tx: Text, line: string, p: nat, op: string, s: Scan)
    requires Name(tx, op) && BeforeOperation(s) && p + |op| == |line| && line[p..] == op
    ensures ScanFrom(tx, line, p, s) == Parsed(s.name, tx.upper(op), s.operands)
  {
    var q, s1 := |line|, s.(tokenBeg := p, tokenLast := |line| - 1);
    assert line[p..] == line[p..q] && TextAt(line, p, op);
    assert Mid(line, p, q - 1) == op;
    assert StepAt(tx, line, q, s1) == Done(Parsed(s.name, tx.upper(op), s.operands));
    NameScan(tx, line, p, op, |op|, s, q, s1);
  }

  function Operating(s: Scan, op: string, last: int): Scan {
    s.(op := op, maybeLabel := false, tokenBeg := -1, tokenLast := last, operandNum := 0)
  }

  /** After the operation and a space, the first character of an operand ends the operation. */
  lemma OperationCut(tx: Text, line: string, q: nat, s: Scan, s2: Scan)
    requires q < |line| && !tx.isSpace(line[q]) && line[q] !in ",#;" && (s.maybeLabel ==> line[q] != ':')
    requires line[q] == '/' && q + 1 < |line| ==> line[q + 1] != '/'
    requires !s.inQuotes && !s.spaceSeparated && s.operandNum == -1 && 0 <= s.tokenBeg && s.tokenLast < q - 1
    requires s2 == Operating(s, tx.upper(Mid(line, s.tokenBeg, s.tokenLast)), s.tokenLast)
    ensures ScanFrom(tx, line, q, s) == ScanFrom(tx, line, q, s2)
  {
    assert StepAt(tx, line, q, s) == StepAt(tx, line, q, s2);
  }

  lemma OperationScan(tx: Text, line: string, p: nat, op: string, s: Scan, q: nat, s1: Scan)
    requires Sane(tx) && Name(tx, op) && BeforeOperation(s) && q == p + |op| + 1 <= |line|
    requires line[p..q - 1] == op && line[q - 1] == ' ' && s1 == s.(tokenBeg := p, tokenLast := q - 2)
    ensures ScanFrom(tx, line, p, s) == ScanFrom(tx, line, q, s1)
  {
    assert TextAt(line, p, op);
    assert StepAt(tx, line, q - 1, s1) == More(s1);
    ScanOne(tx, line, q - 1, q, s1, s1);
    NameScan(tx, line, p, op, |op|, s, q - 1, s1);
  }

  lemma OperationThenOperand(tx: Text, line: string, p: nat, op: string, s: Scan, q: nat, s2: Scan)
    requires Sane(tx) && Name(tx, op) && BeforeOperation(s) && q == p + |op| + 1 < |line|
    requires line[p..q - 1] == op && line[q - 1] == ' ' && s2 == Operating(s, tx.upper(op), q - 2)
    requires !tx.isSpace(line[q]) && line[q] !in ",#;" && (s.maybeLabel ==> line[q] != ':')
    requires line[q] == '/' && q + 1 < |line| ==> line[q + 1] != '/'
    ensures ScanFrom(tx, line, p, s) == ScanFrom(tx, line, q, s2)
  {
    var s1 := s.(tokenBeg := p, tokenLast := q - 2);
    assert Mid(line, p, q - 2) == op;
    OperationCut(tx, line, q, s1, s2);
    OperationScan(tx, line, p, op, s, q, s1);
  }

  lemma SplitStatement(tx: Text, line: string, p: nat, op: string, ops: seq<string>)
    requires ops != [] && IsOperand(tx, ops[0]) && p <= |line| && line[p..] == op + " " + RenderOperands(ops)
    ensures var q := p + |op| + 1;
            && q < |line| && line[p..p + |op|] == op && line[p + |op|] == ' ' && line[q..] == RenderOperands(ops)
            && line[q] == ops[0][0] && line[q] !in ",#;" && !tx.isSpace(line[q])
            && (line[q] == '/' && q + 1 < |line| ==> line[q + 1] != '/')
  {
    var q := p + |op| + 1;
    assert line[p..p + |op|] == line[p..][..|op|] == op;
    assert line[p + |op|] == line[p..][|op|] == ' ';
    assert line[q..] == line[p..][|op| + 1..] == RenderOperands(ops);
    SplitOperands(line, q, ops);
    TextAtChar(line, q, ops[0], 0);
    assert ModeAfter(ops[0], 0) == Plain && Bare(ops[0], 0);
  }

  lemma StatementScan(tx: Text, line: string, p: nat, op: string, ops: seq<string>, s: Scan)
    requires Sane(tx) && Name(tx, op) && BeforeOperation(s) && p <= |line| && s.operands == []
    requires ops != [] && forall i :: 0 <= i < |ops| ==> IsOperand(tx, ops[i])
    requires ops[0] != "" && (s.maybeLabel ==> ops[0][0] != ':')
    requires line[p..] == op + " " + RenderOperands(ops)
    ensures ScanFrom(tx, line, p, s) == Parsed(s.name, tx.upper(op), ops)
  {
    SplitStatement(tx, line, p, op, ops);
    var q, s1 := p + |op| + 1, Operating(s, tx.upper(op), p + |op| - 1);
    OperandsScan(tx, line, q, ops, s1);
    assert s1.operands + ops == ops;
    OperationThenOperand(tx, line, p, op, s, q, s1);
  }

  /** The operation and the operands, after the label if there is one. */
  lemma AfterLabel(tx: Text, line: string, p: nat, st: Stmt, s: Scan)
    requires Sane(tx) && WellFormed(tx, st) && BeforeOperation(s) && s.operands == [] && p <= |line|
    requires s.maybeLabel ==> st.name == ""
    requires line[p..] == st.op + if st.operands == [] then "" else " " + RenderOperands(st.operands)
    ensures ScanFrom(tx, line, p, s) == Parsed(s.name, tx.upper(st.op), st.operands)
  {
    if st.operands == [] {
      assert line[p..] == st.op;
      BareOperationScan(tx, line, p, st.op, s);
    } else {
      assert line[p..] == st.op + " " + RenderOperands(st.operands);
      StatementScan(tx, line, p, st.op, st.operands, s);
    }
  }

  /** Every well-formed statement is read back from its line: the same label, the operation in
      upper case and the same operands, quoted or not. */
  lemma LineRoundTrip(tx: Text, st: Stmt)
    requires Sane(tx) && WellFormed(tx, st)
    ensures Tokenize(tx, Render(st)) == Parsed(st.name, tx.upper(st.op), st.operands)
  {
    var line, name := Render(st), st.name;
    if name == "" {
      assert line[0..] == st.op + if st.operands == [] then "" else " " + RenderOperands(st.operands);
      AfterLabel(tx, line, 0, st, Fresh);
    } else {
      var p, s := |name| + 2, Labelled(Fresh, name, |name| - 1);
      assert line[p..] == st.op + if st.operands == [] then "" else " " + RenderOperands(st.operands);
      AfterLabel(tx, line, p, st, s);
      LabelScan(tx, line, name, s, p, Parsed(name, tx.upper(st.op), st.operands));
    }
  }
}

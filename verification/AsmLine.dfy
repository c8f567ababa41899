/**
 One line of assembler source: label, operation and operands, found in a single pass
 that knows comments, separators and quotes.
 */
module AsmLine {
  import opened Basics

  /** The character classes and the case conversion of the string library. */
  datatype Text = Text(isSpace: char -> bool, upper: string -> string)

  datatype Complaint = EmptyLabel | EmptyFirstOperand | EmptyOperand | UnexpectedQuote | UnterminatedQuote

  datatype Line = Parsed(name: string, op: string, operands: seq<string>) | Malformed(what: Complaint, at: nat)

  /** What the pass remembers. `operandNum` is -1 until the operation is known. */
  datatype Scan = Scan(
    name: string, op: string, operands: seq<string>,
    inQuotes: bool, backslash: bool, maybeLabel: bool, spaceSeparated: bool,
    tokenBeg: int, tokenLast: int, operandNum: int)

  datatype Progress = More(scan: Scan) | Done(line: Line)

  const Fresh := Scan("", "", [], false, false, true, false, -1, -1, -1)

  /** The characters `first` to `last`, as far as they exist. */
  function Mid(s: string, first: int, last: int): string {
    if 0 <= first <= last < |s| then s[first..last + 1] else ""
  }

  predicate StartsAt(line: string, pos: nat, word: string): (b: bool)
    ensures b && word != "" ==> pos < |line| && line[pos] == word[0]
  {
    && pos + |word| <= |line| && line[pos..pos + |word|] == word
    && (assert word != "" ==> line[pos..pos + |word|][0] == line[pos]; true)
  }

  /** A directive word at `pos` that is not followed by more of a word. */
  predicate Directive(tx: Text, line: string, pos: nat, word: string) {
    StartsAt(line, pos, word) && (pos + |word| < |line| ==> tx.isSpace(line[pos + |word|]))
  }

  /** The rest of the line is not looked at: end of line or start of a comment. */
  predicate EndsHere(tx: Text, line: string, pos: nat)
    requires pos <= |line|
  {
    || pos == |line|
    || line[pos] == ';'
    || (line[pos] == '/' && pos + 1 < |line| && line[pos + 1] == '/')
    || (line[pos] == '#' && !Directive(tx, line, pos, "#include") && !Directive(tx, line, pos, "#pragma"))
  }

  function CharAt(line: string, pos: nat): char {
    if pos < |line| then line[pos] else ' '
  }

  /** Ends the token before `pos` when the character there calls for it. */
  function Cut(tx: Text, line: string, pos: nat, final: bool, separator: bool, s: Scan): Progress {
    var ch := CharAt(line, pos);
    if s.maybeLabel && ch == ':' then
      if s.tokenBeg == -1 then Done(Malformed(EmptyLabel, pos))
      else More(s.(maybeLabel := false, name := Mid(line, s.tokenBeg, s.tokenLast), tokenBeg := -1))
    else if ((!tx.isSpace(ch) && s.tokenBeg >= 0 && s.tokenLast < pos - 1) || final) && s.operandNum == -1 then
      var op := if s.tokenBeg != -1 then tx.upper(Mid(line, s.tokenBeg, s.tokenLast)) else s.op;
      if ch == ',' then Done(Malformed(EmptyFirstOperand, pos))
      else More(s.(maybeLabel := false, op := op, tokenBeg := -1, operandNum := 0))
    else if separator then
      if s.tokenBeg == -1 then Done(Malformed(EmptyOperand, pos))
      else
        var t := Mid(line, s.tokenBeg, s.tokenLast);
        More(s.(operands := s.operands + [t], tokenBeg := -1, operandNum := s.operandNum + 1))
    else More(s)
  }

  function Separates(tx: Text, ch: char, s: Scan): bool {
    || (s.maybeLabel && ch == ':')
    || (s.operandNum >= 0 && (ch == ',' || (s.spaceSeparated && tx.isSpace(ch) && s.tokenBeg != -1)))
  }

  /** Takes the character at `pos` into the current token, outside quotes. */
  function Take(tx: Text, ch: char, pos: nat, separator: bool, s: Scan): Progress {
    var t := s.(backslash := false,
                tokenBeg := if tx.isSpace(ch) || separator || s.tokenBeg != -1 then s.tokenBeg else pos,
                tokenLast := if tx.isSpace(ch) || separator then s.tokenLast else pos);
    if ch != '"' then More(t)
    else if s.operandNum == -1 then Done(Malformed(UnexpectedQuote, pos))
    else More(t.(inQuotes := true))
  }

  function PlainStep(tx: Text, line: string, pos: nat, s: Scan): Progress
    requires pos <= |line|
  {
    var ch := CharAt(line, pos);
    var final := EndsHere(tx, line, pos);
    var s1 := s.(spaceSeparated := s.spaceSeparated || (!final && Directive(tx, line, pos, "#pragma")));
    var separator := final || Separates(tx, ch, s1);
    match Cut(tx, line, pos, final, separator, s1)
    case Done(l) => Done(l)
    case More(s2) => if final then Done(Parsed(s2.name, s2.op, s2.operands)) else Take(tx, ch, pos, separator, s2)
  }

  function QuotedStep(line: string, pos: nat, s: Scan): Progress
    requires pos <= |line|
  {
    if pos == |line| then Done(Malformed(UnterminatedQuote, pos))
    else More(s.(tokenLast := pos,
                 inQuotes := !(line[pos] == '"' && !s.backslash),
                 backslash := line[pos] == '\\' && !s.backslash))
  }

  function StepAt(tx: Text, line: string, pos: nat, s: Scan): Progress
    requires pos <= |line|
  {
    if s.inQuotes then QuotedStep(line, pos, s) else PlainStep(tx, line, pos, s)
  }

  function ScanFrom(tx: Text, line: string, pos: nat, s: Scan): Line
    requires pos <= |line|
    decreases |line| - pos
  {
    match StepAt(tx, line, pos, s)
    case Done(l) => l
    case More(t) => if pos < |line| then ScanFrom(tx, line, pos + 1, t) else Malformed(UnterminatedQuote, pos)
  }

  function Tokenize(tx: Text, line: string): Line {
    ScanFrom(tx, line, 0, Fresh)
  }

  // ----- The pass as the source makes it -----

  method LookForEnd(tx: Text, line: string, pos: nat) returns (final: bool, pragma: bool)
    requires pos <= |line|
    ensures final == EndsHere(tx, line, pos) && pragma == (!final && Directive(tx, line, pos, "#pragma"))
  {
    assert StartsAt(line, pos, "#pragma") ==> line[pos..pos + 7][0] == '#' && line[pos..pos + 7][1] == 'p';
    assert StartsAt(line, pos, "#include") ==> line[pos..pos + 8][0] == '#' && line[pos..pos + 8][1] == 'i';
    final, pragma := pos >= |line|, false;
    var ch := if final then ' ' else line[pos];
    if ch == '#' {
      if StartsAt(line, pos, "#include") {
        if pos + 8 < |line| && !tx.isSpace(line[pos + 8]) {
          final := true;
        }
      } else if StartsAt(line, pos, "#pragma") {
        if pos + 7 < |line| && !tx.isSpace(line[pos + 7]) {
          final := true;
        } else {
          pragma := true;
        }
      } else {
        final := true;
      }
    }
    if ch == ';' {
      final := true;
    }
    if ch == '/' && pos + 1 < |line| && line[pos + 1] == '/' {
      final := true;
    }
  }

  /** Ends the label, the operation or the operand before `pos` if one ends there. */
  method EndToken(tx: Text, line: string, pos: nat, final: bool, separator: bool, ghost s: Scan,
                  name0: string, op0: string, operands0: seq<string>, maybeLabel0: bool, tokenBeg0: int,
                      tokenLast: int, operandNum0: int)
    returns (wrong: Option<Complaint>, name: string, op: string, operands: seq<string>, maybeLabel: bool,
        tokenBeg: int, operandNum: int)
    requires s == Scan(name0, op0, operands0, s.inQuotes, s.backslash, maybeLabel0, s.spaceSeparated, tokenBeg0,
             tokenLast, operandNum0)
    requires final ==> separator
    ensures Cut(tx, line, pos, final, separator, s)
         == if wrong.Some? then Done(Malformed(wrong.value, pos))
            else More(s.(name := name, op := op, operands := operands, maybeLabel := maybeLabel, tokenBeg := tokenBeg,
                operandNum := operandNum))
  {
    wrong, name, op, operands := None, name0, op0, operands0;
    maybeLabel, tokenBeg, operandNum := maybeLabel0, tokenBeg0, operandNum0;
    var ch := CharAt(line, pos);
    if maybeLabel && ch == ':' {
      maybeLabel := false;
      if tokenBeg == -1 {
        wrong := Some(EmptyLabel);
        return;
      }
      name := Mid(line, tokenBeg, tokenLast);
      tokenBeg := -1;
    } else if ((!tx.isSpace(ch) && tokenBeg >= 0 && tokenLast < pos - 1) || final) && operandNum == -1 {
      maybeLabel := false;
      if tokenBeg != -1 {
        op := tx.upper(Mid(line, tokenBeg, tokenLast));
      }
      tokenBeg := -1;
      operandNum := 0;
      if ch == ',' {
        wrong := Some(EmptyFirstOperand);
      }
    } else if separator || final {
      if tokenBeg == -1 {
        wrong := Some(EmptyOperand);
        return;
      }
      operands := operands + [Mid(line, tokenBeg, tokenLast)];
      tokenBeg := -1;
      operandNum := operandNum + 1;
    }
  }

  /** A character outside quotes that does not end the line becomes part of a token, unless it separates tokens. */
  method TakeChar(tx: Text, ch: char, pos: nat, separator: bool, ghost s: Scan, tokenBeg0: int, tokenLast0: int,
                  operandNum: int)
    returns (ok: bool, tokenBeg: int, tokenLast: int, inQuotes: bool)
    requires tokenBeg0 == s.tokenBeg && tokenLast0 == s.tokenLast && operandNum == s.operandNum && !s.inQuotes
    ensures Take(tx, ch, pos, separator, s)
         == if ok then More(s.(backslash := false, tokenBeg := tokenBeg, tokenLast := tokenLast, inQuotes := inQuotes))
            else Done(Malformed(UnexpectedQuote, pos))
  {
    ok, tokenBeg, tokenLast, inQuotes := true, tokenBeg0, tokenLast0, false;
    if !tx.isSpace(ch) && !separator {
      if tokenBeg == -1 {
        tokenBeg := pos;
      }
      tokenLast := pos;
    }
    if ch == '"' {
      ok := operandNum != -1;
      inQuotes := ok;
    }
  }

  /** One character outside quotes. */
  method PlainChar(tx: Text, line: string, pos: nat, ghost s: Scan, name0: string, op0: string, operands0: seq<string>,
                   maybeLabel0: bool, spaceSeparated0: bool, tokenBeg0: int, tokenLast0: int, operandNum0: int)
    returns (end: Option<Line>, name: string, op: string, operands: seq<string>, inQuotes: bool,
             maybeLabel: bool, spaceSeparated: bool, tokenBeg: int, tokenLast: int, operandNum: int)
    requires pos <= |line| && !s.inQuotes
    requires s == Scan(name0, op0, operands0, false, s.backslash, maybeLabel0, spaceSeparated0, tokenBeg0, tokenLast0,
             operandNum0)
    ensures PlainStep(tx, line, pos, s)
         == if end.Some? then Done(end.value)
            else More(Scan(name, op, operands, inQuotes, false, maybeLabel, spaceSeparated, tokenBeg, tokenLast,
                operandNum))
  {
    end, inQuotes, tokenLast := None, false, tokenLast0;
    var ch := CharAt(line, pos);
    var final, pragma := LookForEnd(tx, line, pos);
    spaceSeparated := spaceSeparated0 || pragma;
    ghost var s1 := s.(spaceSeparated := spaceSeparated);
    var separator := final || (maybeLabel0 && ch == ':')
                  || (operandNum0 >= 0 && (ch == ',' || (spaceSeparated && tx.isSpace(ch) && tokenBeg0 != -1)));
    var wrong;
    wrong, name, op, operands, maybeLabel, tokenBeg, operandNum :=
      EndToken(tx, line, pos, final, separator, s1, name0, op0, operands0, maybeLabel0, tokenBeg0, tokenLast0,
          operandNum0);
    if wrong.Some? {
      end := Some(Malformed(wrong.value, pos));
      return;
    }
    if final {
      end := Some(Parsed(name, op, operands));
      return;
    }
    ghost var s2 := s1.(name := name, op := op, operands := operands, maybeLabel := maybeLabel,
                        tokenBeg := tokenBeg, operandNum := operandNum);
    var ok;
    ok, tokenBeg, tokenLast, inQuotes := TakeChar(tx, ch, pos, separator, s2, tokenBeg, tokenLast, operandNum);
    if !ok {
      end := Some(Malformed(UnexpectedQuote, pos));
    }
  }

  method QuotedChar(line: string, pos: nat, ghost s: Scan, backslash0: bool)
    returns (end: Option<Line>, inQuotes: bool, backslash: bool)
    requires pos <= |line| && s.backslash == backslash0
    ensures QuotedStep(line, pos, s)
         == if end.Some? then Done(end.value)
             else More(s.(tokenLast := pos, inQuotes := inQuotes, backslash := backslash))
    ensures end.None? ==> pos < |line|
  {
    end, inQuotes, backslash := None, true, false;
    if pos >= |line| {
      end := Some(Malformed(UnterminatedQuote, pos));
      return;
    }
    if line[pos] == '"' && !backslash0 {
      inQuotes := false;
    }
    backslash := line[pos] == '\\' && !backslash0;
  }

  lemma ScanOnward(tx: Text, line: string, pos: nat, s: Scan)
    requires pos <= |line|
    ensures match StepAt(tx, line, pos, s)
            case Done(l) => ScanFrom(tx, line, pos, s) == l
            case More(t) => pos < |line| && ScanFrom(tx, line, pos, s) == ScanFrom(tx, line, pos + 1, t)
  {
  }

  method ProcessChars(tx: Text, line: string) returns (r: Line)
    ensures r == Tokenize(tx, line)
  {
    var name, op, operands := "", "", [];
    var inQuotes, backslash, maybeLabel, spaceSeparated := false, false, true, false;
    var tokenBeg, tokenLast, operandNum := -1, -1, -1;
    var pos := 0;
    while true
      invariant pos <= |line|
      invariant Tokenize(tx, line) == ScanFrom(tx, line, pos,
                  Scan(name, op, operands, inQuotes, backslash, maybeLabel, spaceSeparated, tokenBeg, tokenLast,
                      operandNum))
      decreases |line| - pos
    {
      ghost var s := Scan(name, op, operands, inQuotes, backslash, maybeLabel, spaceSeparated, tokenBeg, tokenLast,
          operandNum);
      ScanOnward(tx, line, pos, s);
      var end;
      if !inQuotes {
        end, name, op, operands, inQuotes, maybeLabel, spaceSeparated, tokenBeg, tokenLast, operandNum :=
          PlainChar(tx, line, pos, s, name, op, operands, maybeLabel, spaceSeparated, tokenBeg, tokenLast, operandNum);
        backslash := false;
      } else {
        end, inQuotes, backslash := QuotedChar(line, pos, s, backslash);
        tokenLast := pos;
      }
      if end.Some? {
        return end.value;
      }
      pos := pos + 1;
    }
  }
}

/**
 Comments: what is behind the start of a comment does not change what a line says.
 */
module AsmComments {
  import opened AsmLine
  import opened AsmPrint

  /** A semicolon, two slashes, or a hash mark that starts none of the two directives. */
  predicate StartsComment(tx: Text, c: string) {
    || (c != "" && c[0] == ';')
    || (|c| > 1 && c[0] == '/' && c[1] == '/')
    || (c != "" && c[0] == '#' && !Directive(tx, c, 0, "#include") && !Directive(tx, c, 0, "#pragma"))
  }

  /** Nothing at the end of `a` is taken together with the comment: it ends with a space, or it has no hash mark that a
      directive could start with, and no slash before a slash. */
  predicate EndsApart(a: string, c: string) {
    || a == "" || a[|a| - 1] == ' '
    || ((forall k :: 0 <= k < |a| && |a| - 8 <= k ==> a[k] != '#') && (c != "" && c[0] == '/' ==> a[|a| - 1] != '/'))
  }

  lemma WordInside(tx: Text, a: string, c: string, pos: nat, word: string)
    requires pos < |a| && (word == "#include" || word == "#pragma")
    requires EndsApart(a, c)
    ensures Directive(tx, a + c, pos, word) == Directive(tx, a, pos, word)
  {
    var line, end := a + c, pos + |word|;
    if end < |a| {
      assert line[pos..end] == a[pos..end] && line[end] == a[end];
    } else if end <= |line| {
      var w := line[pos..end];
      assert w[0] == a[pos] && w[|a| - 1 - pos] == a[|a| - 1];
      if end == |a| {
        assert a[pos..end] == w;
      }
    }
  }

  lemma SameEnd(tx: Text, a: string, c: string, pos: nat)
    requires pos < |a| && EndsApart(a, c)
    ensures EndsHere(tx, a + c, pos) == EndsHere(tx, a, pos)
  {
    WordInside(tx, a, c, pos, "#include");
    WordInside(tx, a, c, pos, "#pragma");
  }

  lemma CommentEnds(tx: Text, a: string, c: string)
    requires StartsComment(tx, c)
    ensures EndsHere(tx, a + c, |a|)
  {
    var line := a + c;
    assert line[|a|..] == c;
    forall word | word == "#include" || word == "#pragma"
      ensures Directive(tx, line, |a|, word) == Directive(tx, c, 0, word)
    {
      if |word| <= |c| {
        assert line[|a|..|a| + |word|] == c[0..|word|];
      }
    }
  }

  lemma SameMid(a: string, c: string, first: int, last: int)
    requires last < |a|
    ensures Mid(a + c, first, last) == Mid(a, first, last)
  {
    if 0 <= first <= last {
      assert (a + c)[first..last + 1] == a[first..last + 1];
    }
  }

  lemma SameStep(tx: Text, a: string, c: string, pos: nat, s: Scan)
    requires pos < |a| && EndsApart(a, c) && s.tokenLast < pos
    ensures StepAt(tx, a + c, pos, s) == StepAt(tx, a, pos, s)
    ensures StepAt(tx, a, pos, s).More? ==> StepAt(tx, a, pos, s).scan.tokenLast < pos + 1
  {
    SameEnd(tx, a, c, pos);
    WordInside(tx, a, c, pos, "#pragma");
    SameMid(a, c, s.tokenBeg, s.tokenLast);
    assert (a + c)[pos] == a[pos];
  }

  /** What a pass outside quotes does where the line ends for it. */
  function Finish(line: string, pos: nat, tx: Text, s: Scan): Line {
    match Cut(tx, line, pos, true, true, s)
    case Done(l) => l
    case More(t) => Parsed(t.name, t.op, t.operands)
  }

  lemma FinishesHere(tx: Text, line: string, pos: nat, s: Scan)
    requires pos <= |line| && EndsHere(tx, line, pos) && !s.inQuotes
    ensures ScanFrom(tx, line, pos, s) == Finish(line, pos, tx, s)
  {
    assert s.(spaceSeparated := s.spaceSeparated) == s;
  }

  lemma SameCut(tx: Text, a: string, c: string, s: Scan)
    requires c != "" && c[0] != ':' && c[0] != ',' && s.tokenLast < |a|
    ensures Finish(a + c, |a|, tx, s) == Finish(a, |a|, tx, s)
  {
    SameMid(a, c, s.tokenBeg, s.tokenLast);
    assert CharAt(a + c, |a|) == c[0] && CharAt(a, |a|) == ' ';
  }

  /** At the start of the comment the pass ends as it does at the end of the line without it. */
  lemma SameFinish(tx: Text, a: string, c: string, s: Scan)
    requires StartsComment(tx, c) && s.tokenLast < |a| && !s.inQuotes
    ensures ScanFrom(tx, a + c, |a|, s) == ScanFrom(tx, a, |a|, s)
  {
    CommentEnds(tx, a, c);
    FinishesHere(tx, a + c, |a|, s);
    FinishesHere(tx, a, |a|, s);
    SameCut(tx, a, c, s);
  }

  lemma {:induction false} SameScan(tx: Text, a: string, c: string, pos: nat, s: Scan)
    requires StartsComment(tx, c) && EndsApart(a, c) && pos <= |a| && s.tokenLast < pos
    ensures ScanFrom(tx, a, pos, s) == ScanFrom(tx, a + c, pos, s)
            || ScanFrom(tx, a, pos, s) == Malformed(UnterminatedQuote, |a|)
    decreases |a| - pos
  {
    if pos == |a| {
      if !s.inQuotes {
        SameFinish(tx, a, c, s);
      }
    } else {
      SameStep(tx, a, c, pos, s);
      match StepAt(tx, a, pos, s)
      case Done(_) =>
      case More(t) => SameScan(tx, a, c, pos + 1, t);
    }
  }

  /** A comment behind any line whose quotes are closed changes nothing: same statement, or same complaint. */
  lemma CommentIgnored(tx: Text, a: string, c: string)
    requires StartsComment(tx, c) && EndsApart(a, c)
    ensures Tokenize(tx, a + c) == Tokenize(tx, a) || Tokenize(tx, a) == Malformed(UnterminatedQuote, |a|)
  {
    SameScan(tx, a, c, 0, Fresh);
  }

  /** A statement with a comment behind it is read back. */
  lemma CommentedLine(tx: Text, st: Stmt, c: string)
    requires Sane(tx) && WellFormed(tx, st) && StartsComment(tx, c) && EndsApart(Render(st), c)
    ensures Tokenize(tx, Render(st) + c) == Parsed(st.name, tx.upper(st.op), st.operands)
  {
    LineRoundTrip(tx, st);
    CommentIgnored(tx, Render(st), c);
  }

  /** A line that is only a comment says nothing. */
  lemma CommentAlone(tx: Text, c: string)
    requires StartsComment(tx, c)
    ensures Tokenize(tx, c) == Parsed("", "", [])
  {
    CommentEnds(tx, "", c);
    assert "" + c == c;
    assert StepAt(tx, c, 0, Fresh) == Done(Parsed("", "", []));
  }
}

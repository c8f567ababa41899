/**
 Quoted text: the escapes of the .ascii directive and the quote scanner of the line pass agree.
 */
module AsmAscii {
  import opened Basics
  import opened AsmLine
  import opened AsmPrint

  datatype Decoded = Bytes(bytes: seq<byte>) | BadEscape

  /** The byte of a Latin-1 character; other characters have none and give zero. */
  function Latin1(c: char): byte {
    if c as int < 256 then c as int else 0
  }

  function EscapeValue(c: char): Decoded {
    match c
    case '0' => Bytes([0x00])
    case 'b' => Bytes([0x08])
    case 't' => Bytes([0x09])
    case 'n' => Bytes([0x0a])
    case 'r' => Bytes([0x0d])
    case '"' => Bytes([0x22])
    case '\\' => Bytes([0x5c])
    case _ => BadEscape
  }

  /** Each escape is the character that it is in C. */
  lemma EscapesAsInC(c: char)
    ensures EscapeValue(c) == if c == '0' then Bytes(['\0' as int]) else if c == 't' then Bytes(['\t' as int])
                              else if c == 'n' then Bytes(['\n' as int]) else if c == 'r' then Bytes(['\r' as int])
                              else if c == 'b' then Bytes([8])
                              else if c == '"' || c == '\\' then Bytes([c as int])
                              else BadEscape
  {
  }

  /** The bytes between the quotes. */
  function Decode(s: string): Decoded {
    if s == "" then Bytes([])
    else if s[0] == '\\' then
      if |s| == 1 then BadEscape
      else
        var first := EscapeValue(s[1]);
        var rest := Decode(s[2..]);
        if first.BadEscape? || rest.BadEscape? then BadEscape else Bytes(first.bytes + rest.bytes)
    else
      var rest := Decode(s[1..]);
      if rest.BadEscape? then BadEscape else Bytes([Latin1(s[0])] + rest.bytes)
  }

  function EscapeByte(b: byte): (s: string)
    ensures |s| == 1 || |s| == 2
  {
    if b == 0x00 then "\\0" else if b == 0x08 then "\\b" else if b == 0x09 then "\\t"
    else if b == 0x0a then "\\n" else if b == 0x0d then "\\r"
    else if b == 0x22 then "\\\"" else if b == 0x5c then "\\\\"
    else [b as char]
  }

  function Escape(bytes: seq<byte>): string {
    if bytes == [] then "" else EscapeByte(bytes[0]) + Escape(bytes[1..])
  }

  function Quote(bytes: seq<byte>): string {
    "\"" + Escape(bytes) + "\""
  }

  lemma {:induction false} EscapeRoundTrip(bytes: seq<byte>)
    ensures Decode(Escape(bytes)) == Bytes(bytes)
  {
    if bytes != [] {
      var e, rest := EscapeByte(bytes[0]), Escape(bytes[1..]);
      EscapeRoundTrip(bytes[1..]);
      assert (e + rest)[|e|..] == rest;
      assert [bytes[0]] + bytes[1..] == bytes;
    }
  }

  // ----- The quote scanner on escaped text -----

  function RunMode(m: Mode, t: string): Mode
    decreases |t|
  {
    if t == "" then m else RunMode(NextMode(m, t[0]), t[1..])
  }

  lemma {:induction false} RunModeAppend(m: Mode, t: string, u: string)
    ensures RunMode(m, t + u) == RunMode(RunMode(m, t), u)
    decreases |t|
  {
    if t == "" {
      assert t + u == u;
    } else {
      assert (t + u)[1..] == t[1..] + u;
      RunModeAppend(NextMode(m, t[0]), t[1..], u);
    }
  }

  lemma {:induction false} ModeAfterIsRun(t: string, n: nat)
    requires n <= |t|
    ensures ModeAfter(t, n) == RunMode(Plain, t[..n])
  {
    if n > 0 {
      ModeAfterIsRun(t, n - 1);
      assert t[..n] == t[..n - 1] + [t[n - 1]];
      RunModeAppend(Plain, t[..n - 1], [t[n - 1]]);
    }
  }

  lemma EscapeByteModes(b: byte, n: nat)
    requires n <= |EscapeByte(b)|
    ensures RunMode(Quoted, EscapeByte(b)[..n]) != Plain
    ensures RunMode(Quoted, EscapeByte(b)) == Quoted
  {
    var e := EscapeByte(b);
    if |e| == 1 {
      assert e[1..] == "" && (n == 0 || e[..n] == e);
    } else {
      assert e == [e[0]] + [e[1]] && e[0] == '\\' && (n == 0 || e[..n] == [e[0]] || e[..n] == e);
      RunModeAppend(Quoted, [e[0]], [e[1]]);
      assert [e[0]][1..] == "" && [e[1]][1..] == "";
    }
  }

  /** Inside the quotes no character of escaped text ends them. */
  lemma {:induction false} EscapedStaysQuoted(bytes: seq<byte>, n: nat)
    requires n <= |Escape(bytes)|
    ensures RunMode(Quoted, Escape(bytes)[..n]) != Plain
    ensures RunMode(Quoted, Escape(bytes)) == Quoted
  {
    if bytes != [] {
      var e, rest := EscapeByte(bytes[0]), Escape(bytes[1..]);
      EscapeByteModes(bytes[0], if n < |e| then n else |e|);
      EscapedStaysQuoted(bytes[1..], if n < |e| then 0 else n - |e|);
      RunModeAppend(Quoted, e, rest);
      if n < |e| {
        assert (e + rest)[..n] == e[..n];
      } else {
        assert (e + rest)[..n] == e + rest[..n - |e|];
        RunModeAppend(Quoted, e, rest[..n - |e|]);
      }
    }
  }

  lemma QuoteModes(bytes: seq<byte>, n: nat)
    requires n <= |Quote(bytes)|
    ensures ModeAfter(Quote(bytes), n) == Plain <==> n == 0 || n == |Quote(bytes)|
  {
    var t, e := Quote(bytes), Escape(bytes);
    ModeAfterIsRun(t, n);
    assert RunMode(Plain, "\"") == Quoted by { assert "\""[1..] == ""; }
    if n == |t| {
      assert t[..n] == t == ("\"" + e) + "\"";
      RunModeAppend(Plain, "\"" + e, "\"");
      RunModeAppend(Plain, "\"", e);
      EscapedStaysQuoted(bytes, |e|);
      assert "\""[1..] == "";
    } else if n > 0 {
      assert t[..n] == "\"" + e[..n - 1];
      RunModeAppend(Plain, "\"", e[..n - 1]);
      EscapedStaysQuoted(bytes, n - 1);
    }
  }

  /** Any quoted bytes are one operand, whatever separators and comment marks they contain. */
  lemma QuoteIsOperand(tx: Text, bytes: seq<byte>)
    requires Sane(tx)
    ensures IsOperand(tx, Quote(bytes))
  {
    var t := Quote(bytes);
    forall n | 0 <= n < |t| && ModeAfter(t, n) == Plain
      ensures Bare(t, n)
    {
      QuoteModes(bytes, n);
    }
    QuoteModes(bytes, |t|);
  }

  /** What the directive takes from an operand: the text between its quotes. */
  function Unquoted(operand: string): Decoded {
    if |operand| < 2 || operand[0] != '"' || operand[|operand| - 1] != '"' then BadEscape
    else Decode(operand[1..|operand| - 1])
  }

  /** Any list of byte strings, quoted on one line, is read back as that list. */
  lemma QuotedLineRoundTrip(tx: Text, name: string, op: string, texts: seq<seq<byte>>)
    requires Sane(tx) && Name(tx, op) && (name == "" || Name(tx, name))
    ensures var operands := seq(|texts|, i requires 0 <= i < |texts| => Quote(texts[i]));
            && Tokenize(tx, Render(Stmt(name, op, operands))) == Parsed(name, tx.upper(op), operands)
            && forall i :: 0 <= i < |texts| ==> Unquoted(operands[i]) == Bytes(texts[i])
  {
    var operands := seq(|texts|, i requires 0 <= i < |texts| => Quote(texts[i]));
    forall i | 0 <= i < |texts|
      ensures IsOperand(tx, operands[i]) && operands[i][0] == '"' && Unquoted(operands[i]) == Bytes(texts[i])
    {
      var t, e := Quote(texts[i]), Escape(texts[i]);
      assert operands[i] == t && t[1..|t| - 1] == e;
      QuoteIsOperand(tx, texts[i]);
      EscapeRoundTrip(texts[i]);
    }
    LineRoundTrip(tx, Stmt(name, op, operands));
  }

  /** Text without backslashes is its Latin-1 codes; characters beyond have none and become zero. */
  lemma {:induction false} PlainText(s: string)
    requires '\\' !in s
    ensures Decode(s) == Bytes(seq(|s|, i requires 0 <= i < |s| => if s[i] as int < 0x100 then s[i] as int else 0))
    decreases |s|
  {
    var all := seq(|s|, i requires 0 <= i < |s| => if s[i] as int < 0x100 then s[i] as int else 0);
    if s != "" {
      var t := s[1..];
      PlainText(t);
      assert all == [all[0]] + seq(|t|, i requires 0 <= i < |t| => if t[i] as int < 0x100 then t[i] as int else 0);
    }
  }
}

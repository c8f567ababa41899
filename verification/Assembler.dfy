/**
 The assembler: lines executed one after the other on a symbol table, a memory and a location
 counter, with the relocations patched in at the end.
 */
module Assembler {
  import opened Basics
  import opened FixMath
  import opened FixMathEval
  import opened FixMathText
  import opened AsmLine
  import opened AsmAscii

  const WORD_LIMIT := 0x1_0000_0000
  const ADDRESS_LIMIT := 0x1_0000_0000_0000_0000

  datatype Reloc = Reloc(
    location: nat, expression: string, offset: int, min: int, max: int,
    lsbBit: nat, bits: nat, shift: nat, options: int)

  /** An encoded instruction: its words and what is left to patch. */
  datatype Code = Words(words: seq<nat>, relocs: seq<Reloc>) | NoCode

  /** The parts of the simulator and of the string library that the assembler calls. `toInt` gives
      the number at the start of a string and how many characters it takes. */
  datatype Host<!M> = Host(
    text: Text,
    lexicon: Lexicon,
    trim: string -> string,
    simplify: string -> string,
    toInt: string -> (int, nat),
    write8: (M, nat, nat) -> M,
    write32: (M, nat, nat) -> M,
    read32: (M, nat) -> nat,
    encode: (string, seq<string>, nat) -> Code,
    update: (nat, int, Reloc) -> (bool, nat))

  datatype AsmState<M> = AsmState(symbols: Symbols, mem: M, address: nat, relocs: seq<Reloc>, error: bool, fatal: bool)

  /** The expression evaluator as the assembler uses it: a text that does not parse has no value. */
  function Evaluate<M>(h: Host<M>, text: string, symbols: Symbols): Outcome {
    match Run(Start, Lex(h.lexicon, text))
    case Going(s) => Eval(s.content, symbols)
    case Stuck => NoValue
    case Undefined => Fault
  }

  function Signed(a: nat): int {
    if a % ADDRESS_LIMIT <= INT64_MAX then a % ADDRESS_LIMIT else a % ADDRESS_LIMIT - ADDRESS_LIMIT
  }

  // ----- Single effects -----

  function Put8<M>(h: Host<M>, s: AsmState<M>, v: int): AsmState<M> {
    s.(mem := if s.fatal then s.mem else h.write8(s.mem, s.address, v % 0x100),
       address := (s.address + 1) % ADDRESS_LIMIT)
  }

  function Put32<M>(h: Host<M>, s: AsmState<M>, v: int): AsmState<M> {
    s.(mem := if s.fatal then s.mem else h.write32(s.mem, s.address, v % WORD_LIMIT),
       address := (s.address + 4) % ADDRESS_LIMIT)
  }

  function Put8s<M>(h: Host<M>, s: AsmState<M>, bytes: seq<byte>): AsmState<M>
    decreases |bytes|
  {
    if bytes == [] then s else Put8s(h, Put8(h, s, bytes[0]), bytes[1..])
  }

  function Put32s<M>(h: Host<M>, s: AsmState<M>, words: seq<nat>): AsmState<M>
    decreases |words|
  {
    if words == [] then s else Put32s(h, Put32(h, s, words[0]), words[1..])
  }

  function Fill<M>(h: Host<M>, s: AsmState<M>, n: int, v: int): AsmState<M>
    decreases if n > 0 then n else 0
  {
    if n <= 0 then s else Fill(h, Put8(h, s, v), n - 1, v)
  }

  function Gap(a: nat): nat {
    if a % 4 == 0 then 0 else 4 - a % 4
  }

  lemma NextAddress(a: nat)
    ensures (a + 1) % ADDRESS_LIMIT % 4 == (a + 1) % 4
    ensures a % 4 != 0 ==> Gap((a + 1) % ADDRESS_LIMIT) == Gap(a) - 1
  {
    var q := (a + 1) / ADDRESS_LIMIT;
    assert a + 1 == (a + 1) % ADDRESS_LIMIT + 4 * (q * 0x4000_0000_0000_0000);
  }

  function Pad<M>(h: Host<M>, s: AsmState<M>): AsmState<M>
    decreases Gap(s.address)
  {
    if s.address % 4 == 0 then s
    else
      NextAddress(s.address);
      Pad(h, Put8(h, s, 0))
  }

  function SetSymbol<M>(s: AsmState<M>, name: string, v: int): AsmState<M> {
    s.(symbols := s.symbols[name := v])
  }

  function Err<M>(s: AsmState<M>): AsmState<M> { s.(error := true) }

  function Die<M>(s: AsmState<M>): AsmState<M> { s.(error := true, fatal := true) }

  // ----- Directives -----

  function Org<M>(h: Host<M>, s: AsmState<M>, operands: seq<string>): AsmState<M> {
    if |operands| != 1 then Err(s)
    else
      match Evaluate(h, operands[0], s.symbols)
      case Value(v) => s.(address := v % ADDRESS_LIMIT)
      case _ => Die(s)
  }

  function Space<M>(h: Host<M>, s: AsmState<M>, operands: seq<string>): AsmState<M> {
    if |operands| != 1 && |operands| != 2 then Err(s)
    else
      var fill := if |operands| == 2 then Evaluate(h, operands[1], s.symbols) else Value(0);
      if !fill.Value? then Die(s)
      else
        match Evaluate(h, operands[0], s.symbols)
        case Value(n) => Fill(h, s, n, fill.v)
        case _ => Die(s)
  }

  function Equ<M>(h: Host<M>, s: AsmState<M>, operands: seq<string>): AsmState<M> {
    if |operands| > 2 || |operands| < 1 then Err(s)
    else
      var name := h.trim(operands[0]);
      if name == "noat" || name == "noreored" then s
      else
        match if |operands| > 1 then Evaluate(h, operands[1], s.symbols) else Value(1)
        case Value(v) => SetSymbol(s, name, v)
        case _ => Err(s)
  }

  /** The bytes before a bad escape are already placed. */
  function Chars<M>(h: Host<M>, s: AsmState<M>, text: string): AsmState<M>
    decreases |text|
  {
    if text == "" then s
    else if text[0] == '\\' then
      if |text| == 1 then Err(s)
      else
        match EscapeValue(text[1])
        case Bytes(b) => Chars(h, Put8(h, s, b[0]), text[2..])
        case BadEscape => Err(s)
    else Chars(h, Put8(h, s, Latin1(text[0])), text[1..])
  }

  predicate IsQuoted(operand: string) {
    |operand| >= 2 && operand[0] == '"' && operand[|operand| - 1] == '"'
  }

  predicate GoodEscapes(text: string)
    decreases |text|
  {
    text == ""
    || (if text[0] == '\\' then
          |text| > 1 && EscapeValue(text[1]).Bytes? && GoodEscapes(text[2..])
        else
          GoodEscapes(text[1..]))
  }

  function Ascii<M>(h: Host<M>, s: AsmState<M>, operands: seq<string>, zero: bool): AsmState<M>
    decreases |operands|
  {
    if operands == [] then s
    else
      var operand := operands[0];
      if !IsQuoted(operand) then Err(s)
      else
        var text := operand[1..|operand| - 1];
        var s1 := Chars(h, s, text);
        if !GoodEscapes(text) then s1 else Ascii(h, if zero then Put8(h, s1, 0) else s1, operands[1..], zero)
  }

  function ByteValue<M>(h: Host<M>, s: AsmState<M>, operand: string): Outcome {
    var (v, taken) := h.toInt(operand);
    if taken == |operand| then Value(v) else Evaluate(h, operand, s.symbols)
  }

  function ByteList<M>(h: Host<M>, s: AsmState<M>, operands: seq<string>): AsmState<M>
    decreases |operands|
  {
    if operands == [] then s
    else
      match ByteValue(h, s, operands[0])
      case Value(v) => ByteList(h, Put8(h, s, v), operands[1..])
      case _ => Die(s)
  }

  function WordReloc(address: nat, expression: string): Reloc {
    Reloc(address, expression, 0, -0xffff_ffff, 0xffff_ffff, 0, 32, 0, 0)
  }

  function WordList<M>(h: Host<M>, s: AsmState<M>, operands: seq<string>): AsmState<M>
    decreases |operands|
  {
    if operands == [] then s
    else
      var text := h.simplify(operands[0]);
      var (v, taken) := h.toInt(text);
      var s1 :=
        if taken == |text| then Put32(h, s, v)
        else Put32(h, s.(relocs := s.relocs + [WordReloc(s.address, text)]), 0);
      WordList(h, s1, operands[1..])
  }

  function Instruction<M>(h: Host<M>, s: AsmState<M>, op: string, operands: seq<string>): AsmState<M> {
    match h.encode(op, operands, s.address)
    case Words(words, relocs) => Put32s(h, s.(relocs := s.relocs + relocs), words)
    case NoCode => Err(s)
  }

  function Emit<M>(h: Host<M>, s: AsmState<M>, op: string, operands: seq<string>): AsmState<M> {
    if op == ".WORD" then WordList(h, s, operands) else Instruction(h, s, op, operands)
  }

  /** An include line is one whose file cannot be opened. */
  function Operation<M>(h: Host<M>, s: AsmState<M>, op: string, operands: seq<string>): AsmState<M> {
    if op == "" then (if operands != [] then Err(s) else s)
    else if op == "#PRAGMA" then s
    else if op == "#INCLUDE" then Err(s)
    else if op == ".DATA" || op == ".TEXT" || op == ".GLOBL" || op == ".END" || op == ".ENT" then s
    else if op == ".ORG" then Org(h, s, operands)
    else if op == ".SPACE" || op == ".SKIP" then Space(h, s, operands)
    else if op == ".EQU" || op == ".SET" then Equ(h, s, operands)
    else if op == ".ASCII" || op == ".ASCIZ" then Ascii(h, s, operands, op == ".ASCIZ")
    else if op == ".BYTE" then ByteList(h, s, operands)
    else Emit(h, Pad(h, s), op, operands)
  }

  function ExecLine<M>(h: Host<M>, s: AsmState<M>, line: string): AsmState<M> {
    match Tokenize(h.text, line)
    case Malformed(_, _) => Err(s)
    case Parsed(name, op, operands) =>
      Operation(h, if name != "" then SetSymbol(s, name, Signed(s.address)) else s, op, operands)
  }

  function ExecLines<M>(h: Host<M>, s: AsmState<M>, lines: seq<string>): AsmState<M>
    decreases |lines|
  {
    if lines == [] then s else ExecLines(h, ExecLine(h, s, lines[0]), lines[1..])
  }

  function Patch<M>(h: Host<M>, s: AsmState<M>, r: Reloc): AsmState<M> {
    match Evaluate(h, r.expression, s.symbols)
    case Value(v) =>
      var (ok, word) := h.update(h.read32(s.mem, r.location), v, r);
      s.(error := s.error || !ok, mem := if s.fatal then s.mem else h.write32(s.mem, r.location, word))
    case _ => Err(s)
  }

  function Patches<M>(h: Host<M>, s: AsmState<M>, relocs: seq<Reloc>): AsmState<M>
    decreases |relocs|
  {
    if relocs == [] then s else Patches(h, Patch(h, s, relocs[0]), relocs[1..])
  }

  function Finish<M>(h: Host<M>, s: AsmState<M>): AsmState<M> {
    Patches(h, s, s.relocs).(relocs := [])
  }

  function Begin<M>(symbols: Symbols, mem: M, address: nat): AsmState<M> {
    AsmState(symbols, mem, address, [], false, false)
  }
}

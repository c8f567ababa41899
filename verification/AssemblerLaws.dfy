/**
 What holds of whole assembler runs: a second pass from the final symbols repeats the first, a
 fatal error freezes the memory, and quoted text arrives in memory byte by byte.
 */
module AssemblerLaws {
  import opened Basics
  import opened FixMath
  import opened FixMathEval
  import opened FixMathText
  import opened AsmLine
  import opened AsmPrint
  import opened AsmAscii
  import opened Assembler

  // ----- A run over a larger symbol table -----

  /** The same state with symbols `base` underneath. */
  function Under<M>(base: Symbols, s: AsmState<M>): AsmState<M> {
    s.(symbols := base + s.symbols)
  }

  /** Unless `after` shows an error, `other` is `after` with `base` underneath. */
  ghost predicate Follows<M>(base: Symbols, s: AsmState<M>, after: AsmState<M>, other: AsmState<M>) {
    !after.error ==> !s.error && other == Under(base, after)
  }

  lemma EvaluateUnder<M>(h: Host<M>, text: string, base: Symbols, symbols: Symbols)
    requires Evaluate(h, text, symbols).Value?
    ensures Evaluate(h, text, base + symbols) == Evaluate(h, text, symbols)
  {
    EvalMonotone(Run(Start, Lex(h.lexicon, text)).state.content, symbols, base + symbols);
  }

  lemma {:induction false} FillUnder<M>(h: Host<M>, base: Symbols, s: AsmState<M>, n: int, v: int)
    ensures Follows(base, s, Fill(h, s, n, v), Fill(h, Under(base, s), n, v))
    decreases if n > 0 then n else 0
  {
    if n > 0 {
      FillUnder(h, base, Put8(h, s, v), n - 1, v);
    }
  }

  lemma {:induction false} PadUnder<M>(h: Host<M>, base: Symbols, s: AsmState<M>)
    ensures Follows(base, s, Pad(h, s), Pad(h, Under(base, s)))
    decreases Gap(s.address)
  {
    if s.address % 4 != 0 {
      NextAddress(s.address);
      PadUnder(h, base, Put8(h, s, 0));
    }
  }

  lemma {:induction false} Put32sUnder<M>(h: Host<M>, base: Symbols, s: AsmState<M>, words: seq<nat>)
    ensures Follows(base, s, Put32s(h, s, words), Put32s(h, Under(base, s), words))
    decreases |words|
  {
    if words != [] {
      Put32sUnder(h, base, Put32(h, s, words[0]), words[1..]);
    }
  }

  lemma {:induction false} CharsUnder<M>(h: Host<M>, base: Symbols, s: AsmState<M>, text: string)
    ensures Follows(base, s, Chars(h, s, text), Chars(h, Under(base, s), text))
    decreases |text|
  {
    if text != "" && text[0] != '\\' {
      CharsUnder(h, base, Put8(h, s, Latin1(text[0])), text[1..]);
    } else if |text| > 1 && EscapeValue(text[1]).Bytes? {
      CharsUnder(h, base, Put8(h, s, EscapeValue(text[1]).bytes[0]), text[2..]);
    }
  }

  lemma {:induction false} AsciiUnder<M>(h: Host<M>, base: Symbols, s: AsmState<M>, operands: seq<string>, zero: bool)
    ensures Follows(base, s, Ascii(h, s, operands, zero), Ascii(h, Under(base, s), operands, zero))
    decreases |operands|
  {
    if operands != [] && IsQuoted(operands[0]) {
      var text := operands[0][1..|operands[0]| - 1];
      CharsUnder(h, base, s, text);
      if GoodEscapes(text) {
        var s1 := Chars(h, s, text);
        AsciiUnder(h, base, if zero then Put8(h, s1, 0) else s1, operands[1..], zero);
      }
    }
  }

  lemma {:induction false} ByteListUnder<M>(h: Host<M>, base: Symbols, s: AsmState<M>, operands: seq<string>)
    ensures Follows(base, s, ByteList(h, s, operands), ByteList(h, Under(base, s), operands))
    decreases |operands|
  {
    if operands != [] && ByteValue(h, s, operands[0]).Value? {
      if h.toInt(operands[0]).1 != |operands[0]| {
        EvaluateUnder(h, operands[0], base, s.symbols);
      }
      ByteListUnder(h, base, Put8(h, s, ByteValue(h, s, operands[0]).v), operands[1..]);
    }
  }

  function PutWord<M>(h: Host<M>, s: AsmState<M>, operand: string): AsmState<M> {
    var text := h.simplify(operand);
    var (v, taken) := h.toInt(text);
    if taken == |text| then Put32(h, s, v)
    else Put32(h, s.(relocs := s.relocs + [WordReloc(s.address, text)]), 0)
  }

  lemma {:induction false} WordListUnder<M>(h: Host<M>, base: Symbols, s: AsmState<M>, operands: seq<string>)
    ensures Follows(base, s, WordList(h, s, operands), WordList(h, Under(base, s), operands))
    decreases |operands|
  {
    if operands != [] {
      WordListUnder(h, base, PutWord(h, s, operands[0]), operands[1..]);
    }
  }

  lemma SymbolsUnder<M>(h: Host<M>, base: Symbols, s: AsmState<M>, operands: seq<string>)
    ensures Follows(base, s, Org(h, s, operands), Org(h, Under(base, s), operands))
    ensures Follows(base, s, Equ(h, s, operands), Equ(h, Under(base, s), operands))
  {
    if |operands| == 1 && Evaluate(h, operands[0], s.symbols).Value? {
      EvaluateUnder(h, operands[0], base, s.symbols);
    }
    if |operands| == 2 && Evaluate(h, operands[1], s.symbols).Value? {
      EvaluateUnder(h, operands[1], base, s.symbols);
    }
    if 1 <= |operands| <= 2 {
      var r := if |operands| > 1 then Evaluate(h, operands[1], s.symbols) else Value(1);
      if r.Value? {
        var name := h.trim(operands[0]);
        assert base + s.symbols[name := r.v] == (base + s.symbols)[name := r.v];
      }
    }
  }

  lemma SpaceUnder<M>(h: Host<M>, base: Symbols, s: AsmState<M>, operands: seq<string>)
    ensures Follows(base, s, Space(h, s, operands), Space(h, Under(base, s), operands))
  {
    if |operands| == 1 || |operands| == 2 {
      var n := Evaluate(h, operands[0], s.symbols);
      var fill := if |operands| == 2 then Evaluate(h, operands[1], s.symbols) else Value(0);
      if n.Value? && fill.Value? {
        EvaluateUnder(h, operands[0], base, s.symbols);
        if |operands| == 2 {
          EvaluateUnder(h, operands[1], base, s.symbols);
        }
        FillUnder(h, base, s, n.v, fill.v);
      }
    }
  }

  lemma EmitUnder<M>(h: Host<M>, base: Symbols, s: AsmState<M>, op: string, operands: seq<string>)
    ensures Follows(base, s, Emit(h, s, op, operands), Emit(h, Under(base, s), op, operands))
  {
    WordListUnder(h, base, s, operands);
    var code := h.encode(op, operands, s.address);
    if code.Words? {
      Put32sUnder(h, base, s.(relocs := s.relocs + code.relocs), code.words);
    }
  }

  lemma OperationUnder<M>(h: Host<M>, base: Symbols, s: AsmState<M>, op: string, operands: seq<string>)
    ensures Follows(base, s, Operation(h, s, op, operands), Operation(h, Under(base, s), op, operands))
  {
    SymbolsUnder(h, base, s, operands);
    SpaceUnder(h, base, s, operands);
    AsciiUnder(h, base, s, operands, op == ".ASCIZ");
    ByteListUnder(h, base, s, operands);
    PadUnder(h, base, s);
    EmitUnder(h, base, Pad(h, s), op, operands);
  }

  lemma LineUnder<M>(h: Host<M>, base: Symbols, s: AsmState<M>, line: string)
    ensures Follows(base, s, ExecLine(h, s, line), ExecLine(h, Under(base, s), line))
  {
    match Tokenize(h.text, line)
    case Malformed(_, _) =>
    case Parsed(name, op, operands) =>
      var s1 := if name != "" then SetSymbol(s, name, Signed(s.address)) else s;
      assert base + s.symbols[name := Signed(s.address)] == (base + s.symbols)[name := Signed(s.address)];
      OperationUnder(h, base, s1, op, operands);
  }

  lemma {:induction false} LinesUnder<M>(h: Host<M>, base: Symbols, s: AsmState<M>, lines: seq<string>)
    ensures Follows(base, s, ExecLines(h, s, lines), ExecLines(h, Under(base, s), lines))
    decreases |lines|
  {
    if lines != [] {
      LinesUnder(h, base, ExecLine(h, s, lines[0]), lines[1..]);
      LineUnder(h, base, s, lines[0]);
    }
  }

  /** Assembling again from the symbols that an error-free run ended with gives the same run: the same
      addresses, symbols, memory and relocations, hence the same finished memory. Names that were
      in the table from the start must not have been given another value. */
  lemma SecondPassRepeatsFirst<M>(h: Host<M>, symbols: Symbols, mem: M, address: nat, lines: seq<string>)
    requires var first := ExecLines(h, Begin(symbols, mem, address), lines);
             !first.error && Extends(first.symbols, symbols)
    ensures var first := ExecLines(h, Begin(symbols, mem, address), lines);
            var second := ExecLines(h, Begin(first.symbols, mem, address), lines);
            second == first && Finish(h, second) == Finish(h, first)
  {
    var first := ExecLines(h, Begin(symbols, mem, address), lines);
    assert first.symbols + symbols == first.symbols;
    assert first.symbols + first.symbols == first.symbols;
    LinesUnder(h, first.symbols, Begin(symbols, mem, address), lines);
  }

  /** `a` is read as a name and `two` always has the value two. */
  ghost predicate Reads<M>(h: Host<M>, a: string, two: string) {
    && h.toInt(a).1 != |a| && h.trim(a) == a && a != "noat" && a != "noreored"
    && (forall env: Symbols :: a in env ==> Evaluate(h, a, env) == Value(env[a]))
    && (forall env: Symbols :: Evaluate(h, two, env) == Value(2))
  }

  /** A .byte directive that reads `a`, then a .equ directive that gives `a` the value two. */
  function ReadThenRebind<M>(h: Host<M>, s: AsmState<M>, a: string, two: string): AsmState<M> {
    Operation(h, Operation(h, s, ".BYTE", [a]), ".EQU", [a, two])
  }

  lemma RebindingRun<M>(h: Host<M>, s: AsmState<M>, a: string, two: string)
    requires Reads(h, a, two) && a in s.symbols
    ensures ReadThenRebind(h, s, a, two) == SetSymbol(Put8(h, s, s.symbols[a]), a, 2)
  {
    var s1 := Put8(h, s, s.symbols[a]);
    assert [a][1..] == [];
    assert ByteList(h, s1, []) == s1;
    assert Operation(h, s, ".BYTE", [a]) == s1;
    assert Equ(h, s1, [a, two]) == SetSymbol(s1, a, 2);
  }

  /** The condition on the initial names is needed: this program reads a byte from a name and then
      gives that name another value, and its second pass puts another byte. */
  lemma RebindingIsSeen<M>(h: Host<M>, mem: M, address: nat, a: string, two: string)
    requires Reads(h, a, two)
    ensures var first := ReadThenRebind(h, Begin(map[a := 1], mem, address), a, two);
            var second := ReadThenRebind(h, Begin(first.symbols, mem, address), a, two);
            !first.error && first.mem == h.write8(mem, address, 1) && second.mem == h.write8(mem, address, 2)
  {
    var s: AsmState<M> := Begin(map[a := 1], mem, address);
    RebindingRun(h, s, a, two);
    RebindingRun(h, Begin(ReadThenRebind(h, s, a, two).symbols, mem, address), a, two);
  }

  // ----- Fatal errors -----

  ghost predicate Frozen<M>(s: AsmState<M>, after: AsmState<M>) {
    s.fatal ==> after.fatal && after.mem == s.mem
  }

  lemma {:induction false} FillFrozen<M>(h: Host<M>, s: AsmState<M>, n: int, v: int)
    ensures Frozen(s, Fill(h, s, n, v)) && Fill(h, s, n, v).symbols == s.symbols
    decreases if n > 0 then n else 0
  {
    if n > 0 {
      FillFrozen(h, Put8(h, s, v), n - 1, v);
    }
  }

  lemma {:induction false} PadFrozen<M>(h: Host<M>, s: AsmState<M>)
    ensures Frozen(s, Pad(h, s)) && Pad(h, s).symbols == s.symbols
    decreases Gap(s.address)
  {
    if s.address % 4 != 0 {
      NextAddress(s.address);
      PadFrozen(h, Put8(h, s, 0));
    }
  }

  lemma {:induction false} Put32sFrozen<M>(h: Host<M>, s: AsmState<M>, words: seq<nat>)
    ensures Frozen(s, Put32s(h, s, words)) && Put32s(h, s, words).symbols == s.symbols
    decreases |words|
  {
    if words != [] {
      Put32sFrozen(h, Put32(h, s, words[0]), words[1..]);
    }
  }

  lemma {:induction false} CharsFrozen<M>(h: Host<M>, s: AsmState<M>, text: string)
    ensures Frozen(s, Chars(h, s, text)) && Chars(h, s, text).symbols == s.symbols
    decreases |text|
  {
    if text != "" && text[0] != '\\' {
      CharsFrozen(h, Put8(h, s, Latin1(text[0])), text[1..]);
    } else if |text| > 1 && EscapeValue(text[1]).Bytes? {
      CharsFrozen(h, Put8(h, s, EscapeValue(text[1]).bytes[0]), text[2..]);
    }
  }

  lemma {:induction false} ListsFrozen<M>(h: Host<M>, s: AsmState<M>, operands: seq<string>, zero: bool)
    ensures Frozen(s, Ascii(h, s, operands, zero)) && Ascii(h, s, operands, zero).symbols == s.symbols
    ensures Frozen(s, ByteList(h, s, operands)) && ByteList(h, s, operands).symbols == s.symbols
    ensures Frozen(s, WordList(h, s, operands)) && WordList(h, s, operands).symbols == s.symbols
    decreases |operands|
  {
    if operands != [] {
      var rest := operands[1..];
      if IsQuoted(operands[0]) {
        var text := operands[0][1..|operands[0]| - 1];
        CharsFrozen(h, s, text);
        var s1 := Chars(h, s, text);
        ListsFrozen(h, if zero then Put8(h, s1, 0) else s1, rest, zero);
      }
      if ByteValue(h, s, operands[0]).Value? {
        ListsFrozen(h, Put8(h, s, ByteValue(h, s, operands[0]).v), rest, zero);
      }
      ListsFrozen(h, PutWord(h, s, operands[0]), rest, zero);
    }
  }

  lemma SpaceFrozen<M>(h: Host<M>, s: AsmState<M>, operands: seq<string>)
    ensures Frozen(s, Space(h, s, operands)) && Space(h, s, operands).symbols == s.symbols
  {
    if |operands| == 1 || |operands| == 2 {
      var n := Evaluate(h, operands[0], s.symbols);
      var fill := if |operands| == 2 then Evaluate(h, operands[1], s.symbols) else Value(0);
      if n.Value? && fill.Value? {
        FillFrozen(h, s, n.v, fill.v);
      }
    }
  }

  lemma EmitFrozen<M>(h: Host<M>, s: AsmState<M>, op: string, operands: seq<string>)
    ensures var after := Emit(h, Pad(h, s), op, operands);
            Frozen(s, after) && after.symbols == s.symbols
  {
    PadFrozen(h, s);
    var s1 := Pad(h, s);
    ListsFrozen(h, s1, operands, false);
    var code := h.encode(op, operands, s1.address);
    if code.Words? {
      Put32sFrozen(h, s1.(relocs := s1.relocs + code.relocs), code.words);
    }
  }

  lemma OperationFrozen<M>(h: Host<M>, s: AsmState<M>, op: string, operands: seq<string>)
    ensures Frozen(s, Operation(h, s, op, operands))
  {
    SpaceFrozen(h, s, operands);
    ListsFrozen(h, s, operands, op == ".ASCIZ");
    EmitFrozen(h, s, op, operands);
  }

  lemma {:induction false} LinesFrozen<M>(h: Host<M>, s: AsmState<M>, lines: seq<string>)
    ensures Frozen(s, ExecLines(h, s, lines))
    decreases |lines|
  {
    if lines != [] {
      var parsed := Tokenize(h.text, lines[0]);
      if parsed.Parsed? {
        var s1 := if parsed.name != "" then SetSymbol(s, parsed.name, Signed(s.address)) else s;
        OperationFrozen(h, s1, parsed.op, parsed.operands);
      }
      LinesFrozen(h, ExecLine(h, s, lines[0]), lines[1..]);
    }
  }

  lemma {:induction false} PatchesFrozen<M>(h: Host<M>, s: AsmState<M>, relocs: seq<Reloc>)
    ensures Frozen(s, Patches(h, s, relocs))
    decreases |relocs|
  {
    if relocs != [] {
      PatchesFrozen(h, Patch(h, s, relocs[0]), relocs[1..]);
    }
  }

  /** After a fatal error neither the rest of the program nor the patching touches the memory. */
  lemma FatalErrorFreezesMemory<M>(h: Host<M>, s: AsmState<M>, lines: seq<string>)
    requires s.fatal
    ensures Finish(h, ExecLines(h, s, lines)).mem == s.mem
  {
    LinesFrozen(h, s, lines);
    PatchesFrozen(h, ExecLines(h, s, lines), ExecLines(h, s, lines).relocs);
  }

  // ----- Names that a program binds -----

  /** The names that a line gives a value: its label, and the name of an .equ or .set directive. */
  function Binds<M>(h: Host<M>, line: string): set<string> {
    match Tokenize(h.text, line)
    case Malformed(_, _) => {}
    case Parsed(name, op, operands) => (if name != "" then {name} else {}) + Defines(h, op, operands)
  }

  function Defines<M>(h: Host<M>, op: string, operands: seq<string>): set<string> {
    if (op == ".EQU" || op == ".SET") && operands != [] then {h.trim(operands[0])} else {}
  }

  function BindsAll<M>(h: Host<M>, lines: seq<string>): set<string> {
    if lines == [] then {} else Binds(h, lines[0]) + BindsAll(h, lines[1..])
  }

  /** `x` has the value it had, or none as before. */
  ghost predicate SameFor(x: string, before: Symbols, after: Symbols) {
    (x in after <==> x in before) && (x in before ==> after[x] == before[x])
  }

  lemma EquBinds<M>(h: Host<M>, s: AsmState<M>, operands: seq<string>, x: string)
    requires operands != [] ==> x != h.trim(operands[0])
    ensures SameFor(x, s.symbols, Equ(h, s, operands).symbols)
  {
  }

  lemma OthersBindNothing<M>(h: Host<M>, s: AsmState<M>, op: string, operands: seq<string>)
    requires op != ".EQU" && op != ".SET"
    ensures Operation(h, s, op, operands).symbols == s.symbols
  {
    SpaceFrozen(h, s, operands);
    ListsFrozen(h, s, operands, op == ".ASCIZ");
    EmitFrozen(h, s, op, operands);
  }

  lemma OperationBinds<M>(h: Host<M>, s: AsmState<M>, op: string, operands: seq<string>, x: string)
    requires x !in Defines(h, op, operands)
    ensures SameFor(x, s.symbols, Operation(h, s, op, operands).symbols)
  {
    if op == ".EQU" || op == ".SET" {
      EquBinds(h, s, operands, x);
    } else {
      OthersBindNothing(h, s, op, operands);
    }
  }

  lemma {:induction false} LinesBind<M>(h: Host<M>, s: AsmState<M>, lines: seq<string>, x: string)
    requires x !in BindsAll(h, lines)
    ensures SameFor(x, s.symbols, ExecLines(h, s, lines).symbols)
    decreases |lines|
  {
    if lines != [] {
      var parsed := Tokenize(h.text, lines[0]);
      if parsed.Parsed? {
        var s1 := if parsed.name != "" then SetSymbol(s, parsed.name, Signed(s.address)) else s;
        OperationBinds(h, s1, parsed.op, parsed.operands, x);
      }
      LinesBind(h, ExecLine(h, s, lines[0]), lines[1..], x);
    }
  }

  /** The same for a condition on the program: no line binds a name that was in the table from the start.
      With an empty table there is no condition at all. */
  lemma SecondPassOfUnboundNames<M>(h: Host<M>, symbols: Symbols, mem: M, address: nat, lines: seq<string>)
    requires symbols.Keys !! BindsAll(h, lines)
    requires !ExecLines(h, Begin(symbols, mem, address), lines).error
    ensures var first := ExecLines(h, Begin(symbols, mem, address), lines);
            var second := ExecLines(h, Begin(first.symbols, mem, address), lines);
            second == first && Finish(h, second) == Finish(h, first)
  {
    forall x | x in symbols
      ensures SameFor(x, symbols, ExecLines(h, Begin(symbols, mem, address), lines).symbols)
    {
      assert x in symbols.Keys;
      LinesBind(h, Begin(symbols, mem, address), lines, x);
    }
    SecondPassRepeatsFirst(h, symbols, mem, address, lines);
  }

  // ----- Quoted text in memory -----

  lemma {:induction false} CharsPlaceBytes<M>(h: Host<M>, s: AsmState<M>, text: string)
    ensures Decode(text).Bytes? <==> GoodEscapes(text)
    ensures Decode(text).Bytes? ==> Chars(h, s, text) == Put8s(h, s, Decode(text).bytes)
    decreases |text|
  {
    if text != "" && text[0] != '\\' {
      CharsPlaceBytes(h, Put8(h, s, Latin1(text[0])), text[1..]);
    } else if |text| > 1 && EscapeValue(text[1]).Bytes? {
      CharsPlaceBytes(h, Put8(h, s, EscapeValue(text[1]).bytes[0]), text[2..]);
    }
  }

  /** All the texts one after the other, each with a zero behind it if `zero`. */
  function Laid(texts: seq<seq<byte>>, zero: bool): seq<byte> {
    if texts == [] then [] else texts[0] + (if zero then [0] else []) + Laid(texts[1..], zero)
  }

  lemma {:induction false} Put8sAppend<M>(h: Host<M>, s: AsmState<M>, a: seq<byte>, b: seq<byte>)
    ensures Put8s(h, s, a + b) == Put8s(h, Put8s(h, s, a), b)
    decreases |a|
  {
    if a == [] {
      assert a + b == b;
    } else {
      assert (a + b)[1..] == a[1..] + b;
      Put8sAppend(h, Put8(h, s, a[0]), a[1..], b);
    }
  }

  lemma {:induction false} AsciiPlacesTexts<M>(h: Host<M>, s: AsmState<M>, operands: seq<string>,
                                               texts: seq<seq<byte>>, zero: bool)
    requires |operands| == |texts|
    requires forall i :: 0 <= i < |texts| ==> operands[i] == Quote(texts[i])
    ensures Ascii(h, s, operands, zero) == Put8s(h, s, Laid(texts, zero))
    decreases |texts|
  {
    if texts != [] {
      var text := Escape(texts[0]);
      assert operands[0][1..|operands[0]| - 1] == text;
      EscapeRoundTrip(texts[0]);
      CharsPlaceBytes(h, s, text);
      var s1 := Put8s(h, s, texts[0]);
      var s2 := if zero then Put8(h, s1, 0) else s1;
      AsciiPlacesTexts(h, s2, operands[1..], texts[1..], zero);
      var end: seq<byte> := if zero then [0] else [];
      Put8sAppend(h, s, texts[0] + end, Laid(texts[1..], zero));
      Put8sAppend(h, s, texts[0], end);
      assert zero ==> end[1..] == [];
    }
  }

  lemma AsciiOperation<M>(h: Host<M>, s: AsmState<M>, operands: seq<string>)
    ensures Operation(h, s, ".ASCII", operands) == Ascii(h, s, operands, false)
    ensures Operation(h, s, ".ASCIZ", operands) == Ascii(h, s, operands, true)
  {
  }

  lemma ParsedLine<M>(h: Host<M>, s: AsmState<M>, line: string, name: string, op: string, operands: seq<string>,
                      s1: AsmState<M>)
    requires Tokenize(h.text, line) == Parsed(name, op, operands)
    requires s1 == if name != "" then SetSymbol(s, name, Signed(s.address)) else s
    ensures ExecLine(h, s, line) == Operation(h, s1, op, operands)
  {
  }

  /** A line of quoted texts puts exactly their bytes, with zeros behind them or not, at consecutive addresses from the
      location counter on, and nothing else changes but the label. */
  lemma AsciiLinePlacesBytes<M>(h: Host<M>, s: AsmState<M>, name: string, op: string, zero: bool,
                                texts: seq<seq<byte>>)
    requires Sane(h.text) && (name == "" || Name(h.text, name))
    requires Name(h.text, op) && h.text.upper(op) == if zero then ".ASCIZ" else ".ASCII"
    ensures var operands := seq(|texts|, i requires 0 <= i < |texts| => Quote(texts[i]));
            var s1 := if name != "" then SetSymbol(s, name, Signed(s.address)) else s;
            ExecLine(h, s, Render(Stmt(name, op, operands))) == Put8s(h, s1, Laid(texts, zero))
  {
    var operands := seq(|texts|, i requires 0 <= i < |texts| => Quote(texts[i]));
    var s1 := if name != "" then SetSymbol(s, name, Signed(s.address)) else s;
    QuotedLineRoundTrip(h.text, name, op, texts);
    ParsedLine(h, s, Render(Stmt(name, op, operands)), name, h.text.upper(op), operands, s1);
    AsciiOperation(h, s1, operands);
    AsciiPlacesTexts(h, s1, operands, texts, zero);
  }
}

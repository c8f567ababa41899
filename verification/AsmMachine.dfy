/**
 The assembler object: the fields it changes while it reads a program.
 */
module AsmMachine {
  import opened Basics
  import opened FixMathEval
  import opened AsmLine
  import opened AsmAscii
  import opened Assembler

  class SimpleAsm<M> {
    const h: Host<M>
    var symbols: Symbols
    var mem: M
    var address: nat
    var relocs: seq<Reloc>
    var errorOccured: bool
    var fatalOccured: bool

    ghost function State(): AsmState<M>
      reads this
    {
      AsmState(symbols, mem, address, relocs, errorOccured, fatalOccured)
    }

    constructor (h: Host<M>, symbols: Symbols, mem: M, address: nat)
      ensures this.h == h && State() == Begin(symbols, mem, address)
    {
      this.h, this.symbols, this.mem, this.address := h, symbols, mem, address;
      relocs, errorOccured, fatalOccured := [], false, false;
    }

    method Write8(v: int)
      modifies this
      ensures State() == Put8(h, old(State()), v)
    {
      if !fatalOccured {
        mem := h.write8(mem, address, v % 0x100);
      }
      address := (address + 1) % ADDRESS_LIMIT;
    }

    method Write32(v: int)
      modifies this
      ensures State() == Put32(h, old(State()), v)
    {
      if !fatalOccured {
        mem := h.write32(mem, address, v % WORD_LIMIT);
      }
      address := (address + 4) % ADDRESS_LIMIT;
    }

    method Error() returns (ok: bool)
      modifies this`errorOccured
      ensures errorOccured && !ok
    {
      errorOccured, ok := true, false;
    }

    method Fatal() returns (ok: bool)
      modifies this`errorOccured, this`fatalOccured
      ensures errorOccured && fatalOccured && !ok
    {
      errorOccured, fatalOccured, ok := true, true, false;
    }

    method ProcessOrg(operands: seq<string>) returns (ok: bool)
      modifies this
      ensures State() == Org(h, old(State()), operands) && errorOccured == (old(errorOccured) || !ok)
    {
      if |operands| != 1 {
        ok := Error();
        return;
      }
      var value := Evaluate(h, operands[0], symbols);
      if !value.Value? {
        ok := Fatal();
        return;
      }
      address := value.v % ADDRESS_LIMIT;
      ok := true;
    }

    method ProcessSpace(operands: seq<string>) returns (ok: bool)
      modifies this
      ensures State() == Space(h, old(State()), operands) && errorOccured == (old(errorOccured) || !ok)
    {
      var fill := 0;
      if |operands| != 1 && |operands| != 2 {
        ok := Error();
        return;
      }
      if |operands| > 1 {
        var r := Evaluate(h, operands[1], symbols);
        if !r.Value? {
          ok := Fatal();
          return;
        }
        fill := r.v;
      }
      var r := Evaluate(h, operands[0], symbols);
      if !r.Value? {
        ok := Fatal();
        return;
      }
      FillSpace(r.v, fill);
      ok := true;
    }

    method FillSpace(size: int, fill: int)
      modifies this
      ensures State() == Fill(h, old(State()), size, fill) && errorOccured == old(errorOccured)
    {
      var value := size;
      while value > 0
        invariant errorOccured == old(errorOccured)
        invariant Fill(h, old(State()), size, fill) == Fill(h, State(), value, fill)
      {
        Write8(fill);
        value := value - 1;
      }
    }

    method ProcessEqu(operands: seq<string>) returns (ok: bool)
      modifies this
      ensures State() == Equ(h, old(State()), operands) && errorOccured == (old(errorOccured) || !ok)
    {
      if |operands| > 2 || |operands| < 1 {
        ok := Error();
        return;
      }
      ok := true;
      var name := h.trim(operands[0]);
      if name == "noat" || name == "noreored" {
        return;
      }
      var value := Value(1);
      if |operands| > 1 {
        value := Evaluate(h, operands[1], symbols);
      }
      if !value.Value? {
        ok := Error();
        return;
      }
      symbols := symbols[name := value.v];
    }

    /** The characters between the quotes of one operand. */
    method PutChars(s: string) returns (ok: bool)
      modifies this
      ensures State() == Chars(h, old(State()), s) && ok == GoodEscapes(s) && errorOccured == (old(errorOccured) || !ok)
    {
      var pos := 0;
      assert s[0..] == s;
      while pos < |s|
        invariant errorOccured == old(errorOccured)
        invariant pos <= |s|
        invariant Chars(h, old(State()), s) == Chars(h, State(), s[pos..])
        invariant GoodEscapes(s) == GoodEscapes(s[pos..])
      {
        var target: byte;
        var rest := s[pos..];
        if s[pos] == '\\' {
          if pos + 1 >= |s| {
            ok := Error();
            return;
          }
          assert rest[1] == s[pos + 1] && rest[2..] == s[pos + 2..];
          pos := pos + 1;
          var value := EscapeValue(s[pos]);
          if value.BadEscape? {
            ok := Error();
            return;
          }
          target := value.bytes[0];
        } else {
          assert rest[1..] == s[pos + 1..];
          target := Latin1(s[pos]);
        }
        Write8(target);
        pos := pos + 1;
      }
      ok := true;
    }

    method ProcessAscii(operands: seq<string>, appendZero: bool) returns (ok: bool)
      modifies this
      ensures State() == Ascii(h, old(State()), operands, appendZero) && errorOccured == (old(errorOccured) || !ok)
    {
      var i := 0;
      assert operands[0..] == operands;
      while i < |operands|
        invariant errorOccured == old(errorOccured)
        invariant i <= |operands|
        invariant Ascii(h, old(State()), operands, appendZero) == Ascii(h, State(), operands[i..], appendZero)
      {
        var s := operands[i];
        assert operands[i..][1..] == operands[i + 1..];
        if |s| < 2 {
          ok := Error();
          return;
        }
        if s[0] != '"' || s[|s| - 1] != '"' {
          ok := Error();
          return;
        }
        ok := PutChars(s[1..|s| - 1]);
        if !ok {
          return;
        }
        if appendZero {
          Write8(0);
        }
        i := i + 1;
      }
      ok := true;
    }

    method ProcessBytes(operands: seq<string>) returns (ok: bool)
      modifies this
      ensures State() == ByteList(h, old(State()), operands) && errorOccured == (old(errorOccured) || !ok)
    {
      var i := 0;
      assert operands[0..] == operands;
      while i < |operands|
        invariant errorOccured == old(errorOccured)
        invariant i <= |operands|
        invariant ByteList(h, old(State()), operands) == ByteList(h, State(), operands[i..])
      {
        assert operands[i..][1..] == operands[i + 1..];
        var (val, taken) := h.toInt(operands[i]);
        if taken != |operands[i]| {
          var value := Evaluate(h, operands[i], symbols);
          if !value.Value? {
            ok := Fatal();
            return;
          }
          val := value.v;
        }
        Write8(val);
        i := i + 1;
      }
      ok := true;
    }

    method Align()
      modifies this
      ensures State() == Pad(h, old(State())) && address % 4 == 0 && errorOccured == old(errorOccured)
    {
      while address % 4 != 0
        invariant errorOccured == old(errorOccured)
        invariant Pad(h, old(State())) == Pad(h, State())
        decreases Gap(address)
      {
        NextAddress(address);
        Write8(0);
      }
    }

    method ProcessWords(operands: seq<string>)
      modifies this
      ensures State() == WordList(h, old(State()), operands) && errorOccured == old(errorOccured)
    {
      var i := 0;
      assert operands[0..] == operands;
      while i < |operands|
        invariant errorOccured == old(errorOccured)
        invariant i <= |operands|
        invariant WordList(h, old(State()), operands) == WordList(h, State(), operands[i..])
      {
        assert operands[i..][1..] == operands[i + 1..];
        var s := h.simplify(operands[i]);
        var (val, taken) := h.toInt(s);
        if taken != |s| {
          val := 0;
          relocs := relocs + [WordReloc(address, s)];
        }
        Write32(val);
        i := i + 1;
      }
    }

    method ProcessInstruction(op: string, operands: seq<string>) returns (ok: bool)
      modifies this
      ensures State() == Instruction(h, old(State()), op, operands) && errorOccured == (old(errorOccured) || !ok)
    {
      var code := h.encode(op, operands, address);
      if code.NoCode? {
        ok := Error();
        return;
      }
      relocs := relocs + code.relocs;
      ghost var s := State();
      var l := 0;
      assert code.words[0..] == code.words;
      while l < |code.words|
        invariant errorOccured == old(errorOccured)
        invariant l <= |code.words|
        invariant Put32s(h, s, code.words) == Put32s(h, State(), code.words[l..])
      {
        assert code.words[l..][1..] == code.words[l + 1..];
        Write32(code.words[l]);
        l := l + 1;
      }
      ok := true;
    }

    method ProcessOperation(op: string, operands: seq<string>) returns (ok: bool)
      modifies this
      ensures State() == Operation(h, old(State()), op, operands) && errorOccured == (old(errorOccured) || !ok)
    {
      ok := true;
      if op == "" {
        if |operands| != 0 {
          ok := Error();
        }
        return;
      }
      if op == "#PRAGMA" {
        return;
      }
      if op == "#INCLUDE" {
        ok := Error();
        return;
      }
      if op == ".DATA" || op == ".TEXT" || op == ".GLOBL" || op == ".END" || op == ".ENT" {
        return;
      }
      if op == ".ORG" {
        ok := ProcessOrg(operands);
      } else if op == ".SPACE" || op == ".SKIP" {
        ok := ProcessSpace(operands);
      } else if op == ".EQU" || op == ".SET" {
        ok := ProcessEqu(operands);
      } else if op == ".ASCII" || op == ".ASCIZ" {
        ok := ProcessAscii(operands, op == ".ASCIZ");
      } else if op == ".BYTE" {
        ok := ProcessBytes(operands);
      } else {
        Align();
        if op == ".WORD" {
          ProcessWords(operands);
        } else {
          ok := ProcessInstruction(op, operands);
        }
      }
    }

    method ProcessLine(line: string) returns (ok: bool)
      modifies this
      ensures State() == ExecLine(h, old(State()), line) && errorOccured == (old(errorOccured) || !ok)
    {
      var parsed := ProcessChars(h.text, line);
      if parsed.Malformed? {
        ok := Error();
        return;
      }
      if parsed.name != "" {
        symbols := symbols[parsed.name := Signed(address)];
      }
      ok := ProcessOperation(parsed.op, parsed.operands);
    }

    method ProcessFile(lines: seq<string>) returns (ok: bool)
      modifies this
      ensures State() == ExecLines(h, old(State()), lines) && errorOccured == (old(errorOccured) || !ok)
    {
      ok := true;
      var ln := 0;
      assert lines[0..] == lines;
      while ln < |lines|
        invariant ln <= |lines| && errorOccured == (old(errorOccured) || !ok)
        invariant ExecLines(h, old(State()), lines) == ExecLines(h, State(), lines[ln..])
      {
        assert lines[ln..][1..] == lines[ln + 1..];
        var good := ProcessLine(lines[ln]);
        if !good {
          ok := false;
        }
        ln := ln + 1;
      }
    }

    /** Patches every relocation with the value of its expression. */
    method Finish() returns (ok: bool)
      modifies this
      ensures State() == Assembler.Finish(h, old(State())) && ok == !errorOccured
    {
      var todo := relocs;
      ghost var s := State();
      while todo != []
        invariant Patches(h, s, s.relocs) == Patches(h, State(), todo) && relocs == s.relocs
        decreases |todo|
      {
        var r := todo[0];
        var value := Evaluate(h, r.expression, symbols);
        if !value.Value? {
          errorOccured := true;
        } else {
          var (good, word) := h.update(h.read32(mem, r.location), value.v, r);
          if !good {
            errorOccured := true;
          }
          if !fatalOccured {
            mem := h.write32(mem, r.location, word);
          }
        }
        todo := todo[1..];
      }
      relocs := [];
      ok := !errorOccured;
    }
  }
}

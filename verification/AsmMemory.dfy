/**
 What the assembler leaves in memory, for every memory in which what is written can be read.
 */
module AsmMemory {
  import opened Basics
  import opened FixMath
  import opened FixMathEval
  import opened AsmLine
  import AsmAscii
  import AsmPrint
  import FixMathText
  import FixMathValues
  import opened Assembler
  import opened AssemblerLaws

  // ----- How memory behaves -----

  /** Words at these addresses share no byte. */
  predicate Apart(a: nat, b: nat) {
    a + 4 <= b || b + 4 <= a
  }

  /** A word is read as it was written, and no other word is changed; a patched instruction is a word. */
  ghost predicate KeepsWords<M(!new)>(h: Host<M>) {
    && (forall m: M, a: nat, w: nat :: w < WORD_LIMIT ==> h.read32(h.write32(m, a, w), a) == w)
    && (forall m: M, a: nat, w: nat, b: nat {:trigger h.read32(h.write32(m, a, w), b)} ::
          Apart(a, b) ==> h.read32(h.write32(m, a, w), b) == h.read32(m, b))
    && (forall w: nat, v: int, r: Reloc {:trigger h.update(w, v, r)} :: h.update(w, v, r).1 < WORD_LIMIT)
  }

  /** The same for bytes; `read8` reads one. */
  ghost predicate KeepsBytes<M(!new)>(h: Host<M>, read8: (M, nat) -> nat) {
    && (forall m: M, a: nat, v: nat :: v < 0x100 ==> read8(h.write8(m, a, v), a) == v)
    && (forall m: M, a: nat, v: nat, b: nat {:trigger read8(h.write8(m, a, v), b)} ::
          a != b ==> read8(h.write8(m, a, v), b) == read8(m, b))
  }

  // ----- Relocations -----

  ghost predicate PlacesApart(relocs: seq<Reloc>) {
    forall j, k {:trigger relocs[j], relocs[k]} :: 0 <= j < k < |relocs| ==>
      Apart(relocs[j].location, relocs[k].location)
  }

  /** Nothing is to be patched at `b`. */
  ghost predicate NoPlace(relocs: seq<Reloc>, b: nat) {
    forall k {:trigger relocs[k]} :: 0 <= k < |relocs| ==> Apart(relocs[k].location, b)
  }

  /** The expression has a value, and the instruction takes it. */
  ghost predicate Takes<M>(h: Host<M>, m: M, symbols: Symbols, r: Reloc) {
    var v := Evaluate(h, r.expression, symbols);
    v.Value? && h.update(h.read32(m, r.location), v.v, r).0
  }

  /** What the relocation makes of the word at its place; without a value the word stays. */
  ghost function PatchedWord<M>(h: Host<M>, m: M, symbols: Symbols, r: Reloc): nat {
    var v := Evaluate(h, r.expression, symbols);
    if v.Value? then h.update(h.read32(m, r.location), v.v, r).1 else h.read32(m, r.location)
  }

  lemma PatchWrites<M(!new)>(h: Host<M>, s: AsmState<M>, r: Reloc, t: AsmState<M>)
    requires KeepsWords(h) && !s.fatal && t == Patch(h, s, r)
    ensures t.(mem := s.mem, error := s.error) == s
    ensures t.error <==> s.error || !Takes(h, s.mem, s.symbols, r)
    ensures h.read32(t.mem, r.location) == PatchedWord(h, s.mem, s.symbols, r)
    ensures forall b: nat :: Apart(r.location, b) ==> h.read32(t.mem, b) == h.read32(s.mem, b)
  {
    var v := Evaluate(h, r.expression, s.symbols);
    if v.Value? {
      var word := h.update(h.read32(s.mem, r.location), v.v, r).1;
      assert t.mem == h.write32(s.mem, r.location, word);
    }
  }

  lemma {:induction false} PatchesWrite<M(!new)>(h: Host<M>, s: AsmState<M>, relocs: seq<Reloc>, t: AsmState<M>)
    requires KeepsWords(h) && !s.fatal && PlacesApart(relocs) && t == Patches(h, s, relocs)
    ensures t.(mem := s.mem, error := s.error) == s
    ensures t.error <==> s.error || exists k {:trigger relocs[k]} ::
              0 <= k < |relocs| && !Takes(h, s.mem, s.symbols, relocs[k])
    ensures forall k {:trigger relocs[k]} :: 0 <= k < |relocs| ==>
              h.read32(t.mem, relocs[k].location) == PatchedWord(h, s.mem, s.symbols, relocs[k])
    ensures forall b: nat :: NoPlace(relocs, b) ==> h.read32(t.mem, b) == h.read32(s.mem, b)
    decreases |relocs|
  {
    if relocs != [] {
      var r, rest := relocs[0], relocs[1..];
      var s1 := Patch(h, s, r);
      PatchWrites(h, s, r, s1);
      assert forall k {:trigger rest[k]} :: 0 <= k < |rest| ==> rest[k] == relocs[k + 1];
      PatchesWrite(h, s1, rest, t);
      forall k {:trigger relocs[k]} | 0 <= k < |relocs|
        ensures h.read32(t.mem, relocs[k].location) == PatchedWord(h, s.mem, s.symbols, relocs[k])
        ensures k > 0 ==> (Takes(h, s1.mem, s1.symbols, relocs[k]) <==> Takes(h, s.mem, s.symbols, relocs[k]))
      {
        if k > 0 {
          assert relocs[k] == rest[k - 1] && Apart(r.location, relocs[k].location);
        } else {
          assert NoPlace(rest, r.location);
        }
      }
      TakesAmong(h, s, s1, relocs);
      forall b: nat | NoPlace(relocs, b)
        ensures h.read32(t.mem, b) == h.read32(s.mem, b)
      {
        assert Apart(relocs[0].location, b) && NoPlace(rest, b);
      }
    }
  }

  lemma TakesAmong<M>(h: Host<M>, s: AsmState<M>, s1: AsmState<M>, relocs: seq<Reloc>)
    requires relocs != []
    requires forall k {:trigger relocs[k]} :: 0 < k < |relocs| ==>
               (Takes(h, s1.mem, s1.symbols, relocs[k]) <==> Takes(h, s.mem, s.symbols, relocs[k]))
    ensures (exists k {:trigger relocs[k]} :: 0 <= k < |relocs| && !Takes(h, s.mem, s.symbols, relocs[k]))
       <==> || !Takes(h, s.mem, s.symbols, relocs[0])
            || exists k {:trigger relocs[1..][k]} ::
                 0 <= k < |relocs[1..]| && !Takes(h, s1.mem, s1.symbols, relocs[1..][k])
  {
    var rest := relocs[1..];
    forall k {:trigger relocs[k]} | 0 < k < |relocs|
      ensures relocs[k] == rest[k - 1]
    {
    }
    forall k {:trigger rest[k]} | 0 <= k < |rest|
      ensures rest[k] == relocs[k + 1]
    {
    }
  }

  /** Without a fatal error, and with relocations of different words: each word is what its relocation makes of it, all
      other words stay, and there is an error just if there was one, or an expression has no value, or an instruction
      does not take the value. */
  lemma FinishPatches<M(!new)>(h: Host<M>, s: AsmState<M>, t: AsmState<M>)
    requires KeepsWords(h) && !s.fatal && PlacesApart(s.relocs) && t == Finish(h, s)
    ensures t.symbols == s.symbols && t.address == s.address && t.relocs == []
    ensures !t.error <==> !s.error && forall k {:trigger s.relocs[k]} :: 0 <= k < |s.relocs| ==>
              Takes(h, s.mem, s.symbols, s.relocs[k])
    ensures forall k {:trigger s.relocs[k]} :: 0 <= k < |s.relocs| ==>
              h.read32(t.mem, s.relocs[k].location) == PatchedWord(h, s.mem, s.symbols, s.relocs[k])
    ensures forall b: nat :: NoPlace(s.relocs, b) ==> h.read32(t.mem, b) == h.read32(s.mem, b)
  {
    PatchesWrite(h, s, s.relocs, Patches(h, s, s.relocs));
  }

  // ----- Bytes at consecutive addresses -----

  lemma OneStep(a: nat, n: nat)
    requires a + n < ADDRESS_LIMIT
    ensures (a + n) % ADDRESS_LIMIT == a + n
  {
  }

  /** From `at` on the bytes are in memory, and all others are as before. */
  ghost predicate BytesAt<M>(read8: (M, nat) -> nat, before: M, after: M, at: nat, bytes: seq<nat>) {
    && (forall k {:trigger bytes[k]} :: 0 <= k < |bytes| ==> read8(after, at + k) == bytes[k])
    && (forall b: nat :: b < at || b >= at + |bytes| ==> read8(after, b) == read8(before, b))
  }

  lemma NextByte<M(!new)>(h: Host<M>, read8: (M, nat) -> nat, s: AsmState<M>, v: int, s1: AsmState<M>, all: seq<nat>,
                          after: M)
    requires KeepsBytes(h, read8) && !s.fatal && s1 == Put8(h, s, v) && all != [] && all[0] == v % 0x100
    requires BytesAt(read8, s1.mem, after, s.address + 1, all[1..])
    ensures BytesAt(read8, s.mem, after, s.address, all)
  {
    var rest := all[1..];
    forall k {:trigger all[k]} | 0 <= k < |all|
      ensures read8(after, s.address + k) == all[k]
    {
      if k > 0 {
        assert all[k] == rest[k - 1];
      }
    }
  }

  lemma Put8Moves<M>(h: Host<M>, s: AsmState<M>, v: int, s1: AsmState<M>)
    requires s1 == Put8(h, s, v) && s.address + 1 < ADDRESS_LIMIT
    ensures s1.(mem := s.mem) == s.(address := s.address + 1)
  {
    OneStep(s.address, 1);
  }

  lemma {:induction false} BytesPlaced<M(!new)>(h: Host<M>, read8: (M, nat) -> nat, s: AsmState<M>, bytes: seq<byte>,
                                                t: AsmState<M>)
    requires KeepsBytes(h, read8) && !s.fatal && t == Put8s(h, s, bytes) && s.address + |bytes| < ADDRESS_LIMIT
    ensures t.(mem := s.mem) == s.(address := s.address + |bytes|)
    ensures BytesAt(read8, s.mem, t.mem, s.address, bytes)
    decreases |bytes|
  {
    if bytes != [] {
      var s1 := Put8(h, s, bytes[0]);
      Put8Moves(h, s, bytes[0], s1);
      BytesPlaced(h, read8, s1, bytes[1..], t);
      NextByte(h, read8, s, bytes[0], s1, bytes, t.mem);
    }
  }

  lemma {:induction false} FillPlaced<M(!new)>(h: Host<M>, read8: (M, nat) -> nat, s: AsmState<M>, n: nat, v: int,
                                               bytes: seq<nat>, t: AsmState<M>)
    requires KeepsBytes(h, read8) && !s.fatal && t == Fill(h, s, n, v) && s.address + n < ADDRESS_LIMIT
    requires bytes == seq(n, _ => v % 0x100)
    ensures t.(mem := s.mem) == s.(address := s.address + n)
    ensures BytesAt(read8, s.mem, t.mem, s.address, bytes)
    decreases n
  {
    if n > 0 {
      var s1 := Put8(h, s, v);
      Put8Moves(h, s, v, s1);
      FillPlaced(h, read8, s1, n - 1, v, bytes[1..], t);
      NextByte(h, read8, s, v, s1, bytes, t.mem);
    }
  }

  /** `.space n, v` or `.skip n, v`: `n` bytes `v`, or zero if `v` is not given; none if `n` is negative. */
  lemma SpacePlaces<M(!new)>(h: Host<M>, read8: (M, nat) -> nat, s: AsmState<M>, op: string, operands: seq<string>,
                             n: int, v: int, t: AsmState<M>)
    requires KeepsBytes(h, read8) && !s.fatal && (op == ".SPACE" || op == ".SKIP") && t == Operation(h, s, op, operands)
    requires 1 <= |operands| <= 2 && Evaluate(h, operands[0], s.symbols) == Value(n)
    requires if |operands| == 2 then Evaluate(h, operands[1], s.symbols) == Value(v) else v == 0
    requires s.address + Max(n, 0) < ADDRESS_LIMIT
    ensures t.(mem := s.mem) == s.(address := s.address + Max(n, 0))
    ensures BytesAt(read8, s.mem, t.mem, s.address, seq(Max(n, 0), _ => v % 0x100))
  {
    if n > 0 {
      FillPlaced(h, read8, s, n, v, seq(n, _ => v % 0x100), t);
    }
  }

  ghost predicate NumbersOf<M>(h: Host<M>, symbols: Symbols, operands: seq<string>, values: seq<int>) {
    && |values| == |operands|
    && forall k {:trigger operands[k]} :: 0 <= k < |operands| ==>
         if h.toInt(operands[k]).1 == |operands[k]| then values[k] == h.toInt(operands[k]).0
         else Evaluate(h, operands[k], symbols) == Value(values[k])
  }

  lemma NumbersAfter<M>(h: Host<M>, symbols: Symbols, operands: seq<string>, values: seq<int>)
    requires operands != [] && NumbersOf(h, symbols, operands, values)
    ensures NumbersOf(h, symbols, operands[1..], values[1..])
  {
    var rest := operands[1..];
    assert forall k {:trigger rest[k]} :: 0 <= k < |rest| ==> rest[k] == operands[k + 1];
  }

  lemma {:induction false} ByteListPlaced<M(!new)>(h: Host<M>, read8: (M, nat) -> nat, s: AsmState<M>,
                                                   operands: seq<string>, values: seq<int>, bytes: seq<nat>,
                                                   t: AsmState<M>)
    requires KeepsBytes(h, read8) && !s.fatal && t == ByteList(h, s, operands)
    requires NumbersOf(h, s.symbols, operands, values) && s.address + |operands| < ADDRESS_LIMIT
    requires bytes == seq(|values|, k requires 0 <= k < |values| => values[k] % 0x100)
    ensures t.(mem := s.mem) == s.(address := s.address + |operands|)
    ensures BytesAt(read8, s.mem, t.mem, s.address, bytes)
    decreases |operands|
  {
    if operands != [] {
      var s1 := Put8(h, s, values[0]);
      Put8Moves(h, s, values[0], s1);
      NumbersAfter(h, s.symbols, operands, values);
      assert ByteValue(h, s, operands[0]) == Value(values[0]);
      ByteListPlaced(h, read8, s1, operands[1..], values[1..], bytes[1..], t);
      NextByte(h, read8, s, values[0], s1, bytes, t.mem);
    }
  }

  /** `.byte`: the low eight bits of every operand, a number or the value of an expression. */
  lemma BytesDirectivePlaces<M(!new)>(h: Host<M>, read8: (M, nat) -> nat, s: AsmState<M>, operands: seq<string>,
                                      values: seq<int>, t: AsmState<M>)
    requires KeepsBytes(h, read8) && !s.fatal && t == Operation(h, s, ".BYTE", operands)
    requires NumbersOf(h, s.symbols, operands, values) && s.address + |operands| < ADDRESS_LIMIT
    ensures t.(mem := s.mem) == s.(address := s.address + |operands|)
    ensures BytesAt(read8, s.mem, t.mem, s.address, seq(|values|, k requires 0 <= k < |values| => values[k] % 0x100))
  {
    ByteListPlaced(h, read8, s, operands, values, seq(|values|, k requires 0 <= k < |values| => values[k] % 0x100), t);
  }

  /** The first operand without a value ends the directive with a fatal error, after the bytes before it. */
  lemma {:induction false} ByteWithoutValue<M>(h: Host<M>, s: AsmState<M>, operands: seq<string>, k: nat)
    requires k < |operands| && h.toInt(operands[k]).1 != |operands[k]| && !Evaluate(h, operands[k], s.symbols).Value?
    requires forall j :: 0 <= j < k ==> ByteValue(h, s, operands[j]).Value?
    ensures ByteList(h, s, operands) == Die(ByteList(h, s, operands[..k]))
    decreases k
  {
    if k > 0 {
      var s1 := Put8(h, s, ByteValue(h, s, operands[0]).v);
      assert operands[..k][1..] == operands[1..][..k - 1];
      ByteWithoutValue(h, s1, operands[1..], k - 1);
    }
  }

  /** A text is good up to a backslash that starts no escape: the bytes before it are placed, and it is an error. */
  lemma {:induction false} BadEscapeStops<M>(h: Host<M>, s: AsmState<M>, good: string, rest: string)
    requires GoodEscapes(good) && rest != "" && rest[0] == '\\'
    requires |rest| == 1 || rest[1] !in "0btnr\"\\"
    ensures !GoodEscapes(good + rest)
    ensures AsmAscii.Decode(good).Bytes?
    ensures Chars(h, s, good + rest) == Put8s(h, s, AsmAscii.Decode(good).bytes).(error := true)
    decreases |good|
  {
    var text := good + rest;
    if good == "" {
      assert text == rest;
    } else {
      var n := if good[0] == '\\' then 2 else 1;
      var b := if good[0] == '\\' then AsmAscii.EscapeValue(good[1]).bytes[0] else AsmAscii.Latin1(good[0]);
      assert text[..n] == good[..n] && text[n..] == good[n..] + rest;
      assert n == 2 ==> text[1] == good[1];
      BadEscapeStops(h, Put8(h, s, b), good[n..], rest);
    }
  }

  /** A quote at either end. */
  predicate InQuotes(operand: string) {
    |operand| >= 2 && operand[0] == '"' == operand[|operand| - 1]
  }

  predicate GoodText(operand: string) {
    InQuotes(operand) && GoodEscapes(operand[1..|operand| - 1])
  }

  function TextPlaced<M>(h: Host<M>, s: AsmState<M>, operand: string, zero: bool): AsmState<M>
    requires GoodText(operand)
  {
    var s1 := Chars(h, s, operand[1..|operand| - 1]);
    if zero then Put8(h, s1, 0) else s1
  }

  lemma FirstTextPlaced<M>(h: Host<M>, s: AsmState<M>, operands: seq<string>, zero: bool)
    requires operands != [] && GoodText(operands[0])
    ensures Ascii(h, s, operands, zero) == Ascii(h, TextPlaced(h, s, operands[0], zero), operands[1..], zero)
  {
  }

  /** The first operand that is not quoted, or has a bad escape, ends the directive with an error, after the texts
      before it. */
  lemma {:induction false} BadTextStops<M>(h: Host<M>, s: AsmState<M>, operands: seq<string>, zero: bool, k: nat,
                                           s1: AsmState<M>)
    requires k < |operands| && (forall j :: 0 <= j < k ==> GoodText(operands[j])) && !GoodText(operands[k])
    requires s1 == Ascii(h, s, operands[..k], zero)
    ensures Ascii(h, s, operands, zero) == if InQuotes(operands[k]) then Chars(h, s1, operands[k][1..|operands[k]| - 1])
                                           else s1.(error := true)
    decreases k
  {
    if k > 0 {
      FirstTextPlaced(h, s, operands, zero);
      FirstTextPlaced(h, s, operands[..k], zero);
      assert operands[..k][1..] == operands[1..][..k - 1];
      BadTextStops(h, TextPlaced(h, s, operands[0], zero), operands[1..], zero, k - 1, s1);
    } else {
      FirstTextBad(h, s, operands, zero);
    }
  }

  lemma FirstTextBad<M>(h: Host<M>, s: AsmState<M>, operands: seq<string>, zero: bool)
    requires operands != [] && !GoodText(operands[0])
    ensures Ascii(h, s, operands, zero)
         == if InQuotes(operands[0]) then Chars(h, s, operands[0][1..|operands[0]| - 1]) else s.(error := true)
  {
  }

  /** All the texts one after the other, each with a zero byte behind it if `zero`. */
  function Flat(texts: seq<seq<byte>>, zero: bool): seq<byte> {
    if texts == [] then [] else texts[0] + (if zero then [0] else []) + Flat(texts[1..], zero)
  }

  lemma {:induction false} FlatIsLaid(texts: seq<seq<byte>>, zero: bool)
    ensures Flat(texts, zero) == Laid(texts, zero)
  {
    if texts != [] {
      FlatIsLaid(texts[1..], zero);
    }
  }

  /** An `.ascii` or `.asciz` line leaves the bytes of its texts in memory one after the other, without or with a zero
      byte behind each. */
  lemma AsciiLineInMemory<M(!new)>(h: Host<M>, read8: (M, nat) -> nat, s: AsmState<M>, op: string, zero: bool,
                                   texts: seq<seq<byte>>, line: string, t: AsmState<M>)
    requires KeepsBytes(h, read8) && !s.fatal && AsmPrint.Sane(h.text)
    requires AsmPrint.Name(h.text, op) && h.text.upper(op) == if zero then ".ASCIZ" else ".ASCII"
    requires line == AsmPrint.Render(AsmPrint.Stmt("", op, seq(|texts|, i requires 0 <= i < |texts| =>
               AsmAscii.Quote(texts[i]))))
    requires t == ExecLine(h, s, line) && s.address + |Flat(texts, zero)| < ADDRESS_LIMIT
    ensures t.(mem := s.mem) == s.(address := s.address + |Flat(texts, zero)|)
    ensures BytesAt(read8, s.mem, t.mem, s.address, Flat(texts, zero))
  {
    AsciiLinePlacesBytes(h, s, "", op, zero, texts);
    FlatIsLaid(texts, zero);
    BytesPlaced(h, read8, s, Flat(texts, zero), t);
  }

  // ----- Words -----

  lemma {:induction false} PadIsFill<M>(h: Host<M>, s: AsmState<M>, n: nat)
    requires n == Gap(s.address) && s.address + n < ADDRESS_LIMIT
    ensures Pad(h, s) == Fill(h, s, n, 0) && (s.address + n) % 4 == 0
    decreases n
  {
    if n > 0 {
      NextAddress(s.address);
      OneStep(s.address, 1);
      PadIsFill(h, Put8(h, s, 0), n - 1);
    }
  }

  lemma {:induction false} FillMoves<M>(h: Host<M>, s: AsmState<M>, n: nat, v: int)
    requires s.address + n < ADDRESS_LIMIT
    ensures Fill(h, s, n, v).(mem := s.mem) == s.(address := s.address + n)
    decreases n
  {
    if n > 0 {
      OneStep(s.address, 1);
      FillMoves(h, Put8(h, s, v), n - 1, v);
    }
  }

  lemma PadStops<M>(h: Host<M>, s: AsmState<M>, t: AsmState<M>)
    requires t == Pad(h, s) && s.address + Gap(s.address) < ADDRESS_LIMIT
    ensures t.(mem := s.mem) == s.(address := s.address + Gap(s.address)) && t.address % 4 == 0
  {
    PadIsFill(h, s, Gap(s.address));
    FillMoves(h, s, Gap(s.address), 0);
  }

  /** The padding is zero bytes up to the next multiple of four. */
  lemma PadPlaces<M(!new)>(h: Host<M>, read8: (M, nat) -> nat, s: AsmState<M>, bytes: seq<nat>, t: AsmState<M>)
    requires KeepsBytes(h, read8) && !s.fatal && t == Pad(h, s) && s.address + Gap(s.address) < ADDRESS_LIMIT
    requires bytes == seq(Gap(s.address), _ => 0)
    ensures t.(mem := s.mem) == s.(address := s.address + Gap(s.address)) && t.address % 4 == 0
    ensures BytesAt(read8, s.mem, t.mem, s.address, bytes)
  {
    PadStops(h, s, t);
    PadIsFill(h, s, Gap(s.address));
    assert bytes == seq(Gap(s.address), _ => 0 % 0x100);
    FillPlaced(h, read8, s, Gap(s.address), 0, bytes, t);
  }

  /** What `.word` puts for an operand at once. */
  ghost function WordNow<M>(h: Host<M>, operand: string): nat {
    var text := h.simplify(operand);
    if h.toInt(text).1 == |text| then h.toInt(text).0 % 0x1_0000_0000 else 0
  }

  /** What `.word` leaves to be patched for operand `k`, whose word is at `at`. */
  ghost predicate LeftToPatch<M>(h: Host<M>, operand: string, at: nat, relocs: seq<Reloc>) {
    var text := h.simplify(operand);
    h.toInt(text).1 != |text| ==> Reloc(at, text, 0, -0xffff_ffff, 0xffff_ffff, 0, 32, 0, 0) in relocs
  }

  ghost predicate WordsAt<M>(h: Host<M>, s: AsmState<M>, t: AsmState<M>, operands: seq<string>) {
    && s.relocs <= t.relocs
    && (forall k {:trigger operands[k]} :: 0 <= k < |operands| ==>
          && h.read32(t.mem, s.address + 4 * k) == WordNow(h, operands[k])
          && LeftToPatch(h, operands[k], s.address + 4 * k, t.relocs))
    && (forall b: nat :: b + 4 <= s.address || b >= s.address + 4 * |operands| ==>
          h.read32(t.mem, b) == h.read32(s.mem, b))
  }

  lemma {:induction false} WordListPlaced<M(!new)>(h: Host<M>, s: AsmState<M>, operands: seq<string>, t: AsmState<M>)
    requires KeepsWords(h) && !s.fatal && t == WordList(h, s, operands)
    requires s.address + 4 * |operands| < ADDRESS_LIMIT
    ensures t.(mem := s.mem, relocs := s.relocs) == s.(address := s.address + 4 * |operands|)
    ensures WordsAt(h, s, t, operands)
    decreases |operands|
  {
    if operands != [] {
      var s1 := PutWord(h, s, operands[0]);
      FirstWordPlaced(h, s, operands[0], s1);
      WordListPlaced(h, s1, operands[1..], t);
      NextWord(h, s, s1, t, operands, operands[1..]);
    }
  }

  lemma NextWord<M(!new)>(h: Host<M>, s: AsmState<M>, s1: AsmState<M>, t: AsmState<M>, operands: seq<string>,
                          rest: seq<string>)
    requires operands != [] && rest == operands[1..] && WordsAt(h, s1, t, rest) && s1.address == s.address + 4
    requires s.relocs <= s1.relocs && h.read32(s1.mem, s.address) == WordNow(h, operands[0])
    requires LeftToPatch(h, operands[0], s.address, s1.relocs)
    requires forall b: nat :: Apart(s.address, b) ==> h.read32(s1.mem, b) == h.read32(s.mem, b)
    ensures WordsAt(h, s, t, operands)
  {
    forall k {:trigger operands[k]} | 0 <= k < |operands|
      ensures h.read32(t.mem, s.address + 4 * k) == WordNow(h, operands[k])
      ensures LeftToPatch(h, operands[k], s.address + 4 * k, t.relocs)
    {
      if k > 0 {
        assert operands[k] == rest[k - 1] && s1.address + 4 * (k - 1) == s.address + 4 * k;
      } else {
        StillFiled(h, operands[0], s.address, s1.relocs, t.relocs);
      }
    }
    forall b: nat | b + 4 <= s.address || b >= s.address + 4 * |operands|
      ensures h.read32(t.mem, b) == h.read32(s.mem, b)
    {
      assert Apart(s.address, b);
    }
  }

  lemma FirstWordPlaced<M(!new)>(h: Host<M>, s: AsmState<M>, operand: string, s1: AsmState<M>)
    requires KeepsWords(h) && !s.fatal && s1 == PutWord(h, s, operand) && s.address + 4 < ADDRESS_LIMIT
    ensures s1.(mem := s.mem, relocs := s.relocs) == s.(address := s.address + 4) && s.relocs <= s1.relocs
    ensures h.read32(s1.mem, s.address) == WordNow(h, operand) && LeftToPatch(h, operand, s.address, s1.relocs)
    ensures forall b: nat :: Apart(s.address, b) ==> h.read32(s1.mem, b) == h.read32(s.mem, b)
  {
    OneStep(s.address, 4);
    var text := h.simplify(operand);
    var put := WordReloc(s.address, text);
    assert h.toInt(text).1 != |text| ==> s1.relocs[|s.relocs|] == put;
    assert s1.mem == h.write32(s.mem, s.address, WordNow(h, operand));
  }

  lemma StillFiled<M>(h: Host<M>, operand: string, at: nat, relocs: seq<Reloc>, more: seq<Reloc>)
    requires LeftToPatch(h, operand, at, relocs) && relocs <= more
    ensures LeftToPatch(h, operand, at, more)
  {
  }

  /** `.word`: from the next multiple of four on, a word for every operand, four bytes apart. A number is there at once;
      for any other text a zero word and a relocation of that word. */
  lemma WordsDirectivePlaces<M(!new)>(h: Host<M>, s: AsmState<M>, operands: seq<string>, t: AsmState<M>,
                                      s1: AsmState<M>)
    requires KeepsWords(h) && !s.fatal && t == Operation(h, s, ".WORD", operands) && s1 == Pad(h, s)
    requires s.address + Gap(s.address) + 4 * |operands| < ADDRESS_LIMIT
    ensures s1.(mem := s.mem) == s.(address := s.address + Gap(s.address)) && s1.address % 4 == 0
    ensures t.(mem := s.mem, relocs := s.relocs) == s.(address := s1.address + 4 * |operands|)
    ensures WordsAt(h, s1, t, operands)
  {
    PadStops(h, s, s1);
    WordListPlaced(h, s1, operands, t);
  }

  // ----- Instructions -----

  /** From `at` on the words are in memory, four bytes apart, and all others are as before. */
  ghost predicate AllWordsAt<M>(h: Host<M>, before: M, after: M, at: nat, words: seq<nat>) {
    && (forall k {:trigger words[k]} :: 0 <= k < |words| ==> h.read32(after, at + 4 * k) == words[k] % WORD_LIMIT)
    && (forall b: nat :: b + 4 <= at || b >= at + 4 * |words| ==> h.read32(after, b) == h.read32(before, b))
  }

  lemma {:induction false} Put32sPlaced<M(!new)>(h: Host<M>, s: AsmState<M>, words: seq<nat>, t: AsmState<M>)
    requires KeepsWords(h) && !s.fatal && t == Put32s(h, s, words) && s.address + 4 * |words| < ADDRESS_LIMIT
    ensures t.(mem := s.mem) == s.(address := s.address + 4 * |words|)
    ensures AllWordsAt(h, s.mem, t.mem, s.address, words)
    decreases |words|
  {
    if words != [] {
      var s1, rest := Put32(h, s, words[0]), words[1..];
      OneStep(s.address, 4);
      Put32sPlaced(h, s1, rest, t);
      forall k {:trigger words[k]} | 0 <= k < |words|
        ensures h.read32(t.mem, s.address + 4 * k) == words[k] % WORD_LIMIT
      {
        if k > 0 {
          assert words[k] == rest[k - 1] && s1.address + 4 * (k - 1) == s.address + 4 * k;
        }
      }
      assert forall b: nat :: b + 4 <= s.address || b >= s.address + 4 * |words| ==> Apart(s.address, b);
    }
  }

  /** An instruction: the words that the encoder gives for its padded address, one behind the other, and its
      relocations. */
  lemma InstructionPlaces<M(!new)>(h: Host<M>, s: AsmState<M>, op: string, operands: seq<string>, t: AsmState<M>,
                                   s1: AsmState<M>, code: Code)
    requires KeepsWords(h) && !s.fatal && op != ".WORD" && t == Emit(h, s1, op, operands) && s1 == Pad(h, s)
    requires code == h.encode(op, operands, s.address + Gap(s.address)) && code.Words?
    requires s.address + Gap(s.address) + 4 * |code.words| < ADDRESS_LIMIT
    ensures s1.(mem := s.mem) == s.(address := s.address + Gap(s.address)) && s1.address % 4 == 0
    ensures t.(mem := s.mem) == s.(address := s1.address + 4 * |code.words|, relocs := s.relocs + code.relocs)
    ensures AllWordsAt(h, s1.mem, t.mem, s1.address, code.words)
  {
    PadStops(h, s, s1);
    Put32sPlaced(h, s1.(relocs := s1.relocs + code.relocs), code.words, t);
  }

  // ----- Addresses and names -----

  /** `.org` moves the location counter to the value of its operand, a negative one as unsigned 64-bit number. */
  lemma OrgMoves<M>(h: Host<M>, s: AsmState<M>, operand: string, v: int)
    requires Evaluate(h, operand, s.symbols) == Value(v) && FixMathValues.Is64Bit(v)
    ensures Operation(h, s, ".ORG", [operand]) == s.(address := if v < 0 then v + 0x1_0000_0000_0000_0000 else v)
  {
  }

  /** `.equ` and `.set` give their first operand the value of the second, or one if there is no second. */
  lemma EquGives<M>(h: Host<M>, s: AsmState<M>, op: string, operands: seq<string>, v: int, t: AsmState<M>)
    requires (op == ".EQU" || op == ".SET") && 1 <= |operands| <= 2 && t == Operation(h, s, op, operands)
    requires if |operands| == 2 then Evaluate(h, operands[1], s.symbols) == Value(v) else v == 1
    requires h.trim(operands[0]) != "noat" && h.trim(operands[0]) != "noreored"
    ensures t.(symbols := s.symbols) == s && h.trim(operands[0]) in t.symbols && t.symbols[h.trim(operands[0])] == v
    ensures forall x :: x != h.trim(operands[0]) ==> SameFor(x, s.symbols, t.symbols)
  {
  }

  /** What is wrong with the operands of a directive is an error, and a fatal one where an address or a size has no
      value. */
  lemma BadOperands<M>(h: Host<M>, s: AsmState<M>, op: string, operands: seq<string>, t: AsmState<M>)
    requires t == Operation(h, s, op, operands)
    ensures op == ".ORG" && |operands| != 1 ==> t == s.(error := true)
    ensures op == ".ORG" && |operands| == 1 && !Evaluate(h, operands[0], s.symbols).Value? ==>
              t == s.(error := true, fatal := true)
    ensures (op == ".SPACE" || op == ".SKIP") && |operands| != 1 && |operands| != 2 ==> t == s.(error := true)
    ensures (op == ".SPACE" || op == ".SKIP") && 1 <= |operands| <= 2
            && (exists k :: 0 <= k < |operands| && !Evaluate(h, operands[k], s.symbols).Value?) ==>
              t == s.(error := true, fatal := true)
    ensures (op == ".EQU" || op == ".SET") && (operands == [] || |operands| > 2) ==> t == s.(error := true)
    ensures (op == ".EQU" || op == ".SET") && |operands| == 2 && !Evaluate(h, operands[1], s.symbols).Value?
            && h.trim(operands[0]) != "noat" && h.trim(operands[0]) != "noreored" ==>
              t == s.(error := true)
  {
  }

  /** A line that is refused changes nothing but the error flag. */
  lemma RefusedLine<M>(h: Host<M>, s: AsmState<M>, line: string)
    requires Tokenize(h.text, line).Malformed?
    ensures ExecLine(h, s, line) == s.(error := true)
  {
  }

  /** What has no effect: some directives, pragmas, the names of two assembler options, and an empty line. */
  lemma WithoutEffect<M>(h: Host<M>, s: AsmState<M>, op: string, operands: seq<string>, t: AsmState<M>)
    requires t == Operation(h, s, op, operands)
    ensures op in {".DATA", ".TEXT", ".GLOBL", ".END", ".ENT", "#PRAGMA"} ==> t == s
    ensures op in {".EQU", ".SET"} && 1 <= |operands| <= 2 && h.trim(operands[0]) in {"noat", "noreored"} ==> t == s
    ensures op == "" ==> t == if operands == [] then s else s.(error := true)
  {
  }

  // ----- Relocations are never forgotten -----

  lemma {:induction false} FillFiles<M>(h: Host<M>, s: AsmState<M>, n: int, v: int)
    ensures Fill(h, s, n, v).relocs == s.relocs
    decreases if n > 0 then n else 0
  {
    if n > 0 {
      FillFiles(h, Put8(h, s, v), n - 1, v);
    }
  }

  lemma {:induction false} PadFiles<M>(h: Host<M>, s: AsmState<M>)
    ensures Pad(h, s).relocs == s.relocs
    decreases Gap(s.address)
  {
    if s.address % 4 != 0 {
      NextAddress(s.address);
      PadFiles(h, Put8(h, s, 0));
    }
  }

  lemma {:induction false} Put32sFiles<M>(h: Host<M>, s: AsmState<M>, words: seq<nat>)
    ensures Put32s(h, s, words).relocs == s.relocs
    decreases |words|
  {
    if words != [] {
      Put32sFiles(h, Put32(h, s, words[0]), words[1..]);
    }
  }

  lemma {:induction false} CharsFiles<M>(h: Host<M>, s: AsmState<M>, text: string)
    ensures Chars(h, s, text).relocs == s.relocs
    decreases |text|
  {
    if text != "" && text[0] != '\\' {
      CharsFiles(h, Put8(h, s, AsmAscii.Latin1(text[0])), text[1..]);
    } else if |text| > 1 && AsmAscii.EscapeValue(text[1]).Bytes? {
      CharsFiles(h, Put8(h, s, AsmAscii.EscapeValue(text[1]).bytes[0]), text[2..]);
    }
  }

  lemma {:induction false} AsciiFiles<M>(h: Host<M>, s: AsmState<M>, operands: seq<string>, zero: bool)
    ensures Ascii(h, s, operands, zero).relocs == s.relocs
    decreases |operands|
  {
    if operands != [] && InQuotes(operands[0]) {
      var text := operands[0][1..|operands[0]| - 1];
      CharsFiles(h, s, text);
      var s1 := Chars(h, s, text);
      AsciiFiles(h, if zero then Put8(h, s1, 0) else s1, operands[1..], zero);
    }
  }

  lemma {:induction false} ByteListFiles<M>(h: Host<M>, s: AsmState<M>, operands: seq<string>)
    ensures ByteList(h, s, operands).relocs == s.relocs
    decreases |operands|
  {
    if operands != [] && ByteValue(h, s, operands[0]).Value? {
      ByteListFiles(h, Put8(h, s, ByteValue(h, s, operands[0]).v), operands[1..]);
    }
  }

  lemma {:induction false} WordListFiles<M>(h: Host<M>, s: AsmState<M>, operands: seq<string>)
    ensures s.relocs <= WordList(h, s, operands).relocs
    decreases |operands|
  {
    if operands != [] {
      WordListFiles(h, PutWord(h, s, operands[0]), operands[1..]);
    }
  }

  lemma EmitFiles<M>(h: Host<M>, s: AsmState<M>, op: string, operands: seq<string>)
    ensures s.relocs <= Emit(h, s, op, operands).relocs
  {
    WordListFiles(h, s, operands);
    var code := h.encode(op, operands, s.address);
    if code.Words? {
      Put32sFiles(h, s.(relocs := s.relocs + code.relocs), code.words);
    }
  }

  lemma OperationFiles<M>(h: Host<M>, s: AsmState<M>, op: string, operands: seq<string>)
    ensures s.relocs <= Operation(h, s, op, operands).relocs
  {
    if op == ".SPACE" || op == ".SKIP" {
      if 1 <= |operands| <= 2 {
        var fill := if |operands| == 2 then Evaluate(h, operands[1], s.symbols) else Value(0);
        var n := Evaluate(h, operands[0], s.symbols);
        if n.Value? && fill.Value? {
          FillFiles(h, s, n.v, fill.v);
        }
      }
    }
    AsciiFiles(h, s, operands, op == ".ASCIZ");
    ByteListFiles(h, s, operands);
    PadFiles(h, s);
    EmitFiles(h, Pad(h, s), op, operands);
  }

  lemma {:induction false} LinesFile<M>(h: Host<M>, s: AsmState<M>, lines: seq<string>)
    ensures s.relocs <= ExecLines(h, s, lines).relocs
    decreases |lines|
  {
    if lines != [] {
      var parsed := Tokenize(h.text, lines[0]);
      if parsed.Parsed? {
        var s1 := if parsed.name != "" then SetSymbol(s, parsed.name, Signed(s.address)) else s;
        OperationFiles(h, s1, parsed.op, parsed.operands);
      }
      LinesFile(h, ExecLine(h, s, lines[0]), lines[1..]);
    }
  }

  // ----- A word that is the address of a label -----

  /** A name that is read as a symbol. */
  ghost predicate IsName<M>(h: Host<M>, name: string) {
    && name != "" && (forall i :: 0 <= i < |name| ==> h.lexicon.IsWord(name[i])) && !h.lexicon.isDigit(name[0])
    && h.toInt(name).1 != |name|
  }

  lemma NameHasValue<M>(h: Host<M>, name: string, symbols: Symbols)
    requires IsName(h, name) && name in symbols
    ensures Evaluate(h, name, symbols) == Value(symbols[name])
  {
    FixMathText.LexWord(h.lexicon, name, "");
    assert name + "" == name;
    RunOne(Start, Operand(Symbol(name)));
  }

  /** A label gives its name the address of the location counter, as a 64-bit number. */
  lemma LabelGives<M>(h: Host<M>, s: AsmState<M>, line: string, name: string, t: AsmState<M>)
    requires Tokenize(h.text, line) == Parsed(name, "", []) && name != "" && t == ExecLine(h, s, line)
    ensures t.(symbols := s.symbols) == s && name in t.symbols
    ensures s.address <= INT64_MAX ==> t.symbols[name] == s.address
    ensures INT64_MAX < s.address < ADDRESS_LIMIT ==> t.symbols[name] == s.address - ADDRESS_LIMIT
  {
  }

  /** A `.word` of a name, a label of that name anywhere later in the program, and no other binding of it behind the
      label: if nothing was written over the word, it ends up as what the relocation makes of zero and the address of
      the label. */
  lemma WordOfLaterLabel<M(!new)>(h: Host<M>, s: AsmState<M>, line: string, mid: seq<string>, labelled: string,
                                  after: seq<string>, operand: string, name: string, a: nat, s2: AsmState<M>,
                                  s4: AsmState<M>)
    requires KeepsWords(h) && IsName(h, name) && h.simplify(operand) == name
    requires Tokenize(h.text, line) == Parsed("", ".WORD", [operand])
    requires Tokenize(h.text, labelled) == Parsed(name, "", []) && name !in BindsAll(h, after)
    requires a == s.address + Gap(s.address) && a + 4 < ADDRESS_LIMIT
    requires s2 == ExecLines(h, ExecLine(h, s, line), mid) && s4 == ExecLines(h, ExecLine(h, s2, labelled), after)
    requires !s4.fatal && PlacesApart(s4.relocs) && h.read32(s4.mem, a) == 0 && s2.address <= INT64_MAX
    ensures h.read32(Finish(h, s4).mem, a)
         == h.update(0, s2.address, Reloc(a, name, 0, -0xffff_ffff, 0xffff_ffff, 0, 32, 0, 0)).1
  {
    var s1, s3, r := ExecLine(h, s, line), ExecLine(h, s2, labelled), WordReloc(a, name);
    LabelGives(h, s2, labelled, name, s3);
    LinesBind(h, s3, after, name);
    NameHasValue(h, name, s4.symbols);
    LinesFrozen(h, s3, after);
    LinesFrozen(h, s1, mid);
    WordLineFiles(h, s, line, operand, name, a, s1);
    StaysFiled(h, s1, mid, s2, s3, after, s4, r);
    PatchedTo(h, s4, r, s2.address);
  }

  lemma StaysFiled<M>(h: Host<M>, s1: AsmState<M>, mid: seq<string>, s2: AsmState<M>, s3: AsmState<M>,
                      after: seq<string>, s4: AsmState<M>, r: Reloc)
    requires s2 == ExecLines(h, s1, mid) && s4 == ExecLines(h, s3, after) && s2.relocs == s3.relocs && r in s1.relocs
    ensures r in s4.relocs
  {
    LinesFile(h, s1, mid);
    LinesFile(h, s3, after);
    var k :| 0 <= k < |s1.relocs| && s1.relocs[k] == r;
    assert s4.relocs[k] == s2.relocs[k] == r;
  }

  lemma PatchedTo<M(!new)>(h: Host<M>, s: AsmState<M>, r: Reloc, v: int)
    requires KeepsWords(h) && !s.fatal && PlacesApart(s.relocs) && r in s.relocs
    requires Evaluate(h, r.expression, s.symbols) == Value(v)
    ensures h.read32(Finish(h, s).mem, r.location) == h.update(h.read32(s.mem, r.location), v, r).1
  {
    FinishPatches(h, s, Finish(h, s));
    var k :| 0 <= k < |s.relocs| && s.relocs[k] == r;
    assert h.read32(Finish(h, s).mem, s.relocs[k].location) == PatchedWord(h, s.mem, s.symbols, r);
  }

  lemma WordLineFiles<M(!new)>(h: Host<M>, s: AsmState<M>, line: string, operand: string, name: string, a: nat,
                               s1: AsmState<M>)
    requires KeepsWords(h) && IsName(h, name) && h.simplify(operand) == name
    requires Tokenize(h.text, line) == Parsed("", ".WORD", [operand])
    requires a == s.address + Gap(s.address) && a + 4 < ADDRESS_LIMIT && s1 == ExecLine(h, s, line)
    ensures s1.address == a + 4 && s1.relocs == s.relocs + [WordReloc(a, name)]
    ensures s1.fatal == s.fatal && (!s.fatal ==> h.read32(s1.mem, a) == 0)
  {
    var p := Pad(h, s);
    PadStops(h, s, p);
    PadFiles(h, s);
    assert s1 == WordList(h, p, [operand]);
    assert WordList(h, PutWord(h, p, operand), [operand][1..]) == PutWord(h, p, operand);
  }

  /** The same for the two lines alone: the word is the address of the label, four bytes behind its own, as the
      relocation puts it. */
  lemma WordThenLabel<M(!new)>(h: Host<M>, s: AsmState<M>, line: string, labelled: string, operand: string,
                               name: string, a: nat, t: AsmState<M>)
    requires KeepsWords(h) && IsName(h, name) && h.simplify(operand) == name && !s.fatal && s.relocs == []
    requires Tokenize(h.text, line) == Parsed("", ".WORD", [operand])
    requires Tokenize(h.text, labelled) == Parsed(name, "", [])
    requires a == s.address + Gap(s.address) && a + 4 <= INT64_MAX
    requires t == Finish(h, ExecLines(h, s, [line, labelled]))
    ensures h.read32(t.mem, a) == h.update(0, a + 4, Reloc(a, name, 0, -0xffff_ffff, 0xffff_ffff, 0, 32, 0, 0)).1
  {
    var s1 := ExecLine(h, s, line);
    var s3 := ExecLine(h, s1, labelled);
    WordLineFiles(h, s, line, operand, name, a, s1);
    LabelGives(h, s1, labelled, name, s3);
    assert [line, labelled][1..] == [labelled] && [labelled][1..] == [];
    assert ExecLines(h, s1, [labelled]) == ExecLines(h, s3, []) == s3;
    WordOfLaterLabel(h, s, line, [], labelled, [], operand, name, a, s1, s3);
  }
}

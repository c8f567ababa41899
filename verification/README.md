# Assembler and ELF library of QtMips: a verified model

QtMips is a simulator for teaching computer architecture. It reads programs in two ways: its own
assembler (`src/assembler`) turns source lines into memory contents, and the bundled ELF library
(`external/libelf`) lays out, writes and reads object files. This project models the parts of both whose
behaviour cannot be read off one function body, and proves what they promise.

**The assembler.** Expressions are parsed with one pass and no stack: every operator is spliced into the
chain of last children of a mutable tree, at the place its priority calls for. `FixMath*.dfy` has that tree
as a value and as linked nodes, and relates both to the sequence of operands and operators that was read;
`FixMathDrops.dfy` says when the tree keeps everything that was written. Two files are independent of priorities
and of the evaluator: `FixMathGrammar.dfy` is a grammar with one level for each class of operators, which the parser
is shown to follow, and `FixMathValues.dfy` says what each operator means.
`Asm*.dfy` has the tokenizer of a line, the directives, the symbol table, and the relocations that are
patched in at the end; `AsmSpacing.dfy` and `AsmComments.dfy` say which lines are read as which statements, and
`AsmMemory.dfy` what is then in memory, byte by byte and word by word.

**The ELF library.** `ElfLayout*.dfy` assigns file offsets, `ElfWriter*.dfy` and `ElfOutput.dfy` write the
image, `ElfReader.dfy` reads it, and `ElfRoundTrip.dfy`, `ElfCookLaws.dfy` and `ElfContents.dfy` connect the
two; `ElfFormat.dfy` and `ElfReadable.dfy` have the offset of every number of the file as the System V ABI gives them.
`SectionList.dfy` is the linked list of sections with its cached indices and its count, which escapes into the first
section header when it does not fit 16 bits. `ElfVersions*.dfy` translates chained version
records, which may overlap, `ElfArrays.dfy` and `ElfMirrors.dfy` translate structures over themselves,
`ElfSymbols.dfy` and `ElfHash.dfy` look up symbols, with the answers in bytes of the file in `ElfAnswers.dfy`,
`ElfStrings.dfy` finds strings, and `ElfArchive*.dfy` reads archives, against a writer that is its partner in the round
trip, and opens and closes them and their members with shared handles.

**How it is put together.** Where the source computes a value there is a function. Where it changes state
there is a class or an array, whose methods are proved equal to such a function; the promises are then
lemmas about the function. Check everything with `dafny verify dfyconfig.toml`.

## Model

| member | source | states |
|---|---|---|
| `FixMath.ParserBuildsTheHeapOrderedTree` | src/assembler/fixmatheval.cpp:211-354 | For every token list the parser succeeds exactly when the plain list reader does. Its tree is then the only heap-ordered tree whose in-order sequence is what the reader kept, so the tree groups by priority, and from the left, for all inputs. Which operator has which priority is for `ParserFollowsGrammar`. |
| `FixMathGrammar.ParserFollowsGrammar` | src/assembler/fixmatheval.cpp:211-354 | The grammar has or, below it and and exclusive or, sums, products and signs, each grouping from the left, and brackets; it has no priorities. Every token list that it derives is accepted, and its tree is that of the derivation, with up to 21474834 brackets inside each other. |
| `FixMathGrammar.GrammarIsUnambiguous` | src/assembler/fixmatheval.cpp:211-354 | No token list has two derivations with different expressions. |
| `FixMathGrammar.ThreeOperands` | src/assembler/fixmatheval.cpp:265-307 | For any three words and each of the 49 pairs of binary operators between them: the tree groups to the right if and only if the second is of a later class in the order or, and and exclusive or, sum, product. |
| `FixMathGrammar.WrittenExpression` | src/assembler/fixmatheval.cpp:211-366 | From characters to values: the text of an expression of the grammar is accepted if and only if it ends in a word, and then it has exactly the value that the grammar's grouping and the meaning of its operators give. |
| `FixMathGrammar.SpaceIsSkipped` | src/assembler/fixmatheval.cpp:254-256 | A space makes no difference to the tokens, except between two words and at the end of the text. |
| `FixMath.HeapOrderedUnique` | src/assembler/fixmatheval.cpp:323-344 | Two heap-ordered trees with the same in-order sequence are equal. |
| `FixMath.RunAgrees` | src/assembler/fixmatheval.cpp:221-344 | From every sound state, every run of the parser agrees with the list reader: same outcome, same sequence, heap order kept. |
| `FixMath.SpliceBinaryReading` | src/assembler/fixmatheval.cpp:323-344 | Splicing a binary operator keeps the heap order and appends exactly that operator to the in-order sequence. |
| `FixMath.SpliceUnaryReading` | src/assembler/fixmatheval.cpp:323-344 | Splicing a unary operator replaces the trailing items that bind no looser; this is how items are lost, see `KeptWhole`. |
| `FixMath.GraftReading` | src/assembler/fixmatheval.cpp:221-252 | An operand put at the end of the chain of last children is appended to the in-order sequence and keeps the heap order. |
| `FixMathParser.FmeExpression.Walk` | src/assembler/fixmatheval.cpp:323-344 | The walk over linked nodes stops at the first child that binds no looser than the new operator. |
| `FixMathParser.FmeExpression.InsertOperand` | src/assembler/fixmatheval.cpp:221-252 | On linked nodes: the operand is taken exactly if the tree misses one, and then the tree is the old one with the operand grafted on. |
| `FixMathParser.FmeExpression.Splice` | src/assembler/fixmatheval.cpp:323-344 | On linked nodes: the tree afterwards is the spliced old tree; the old right end becomes the left operand of a binary operator. |
| `FixMathParser.FmeExpression.TakeMark` | src/assembler/fixmatheval.cpp:253-344 | One character that is not part of a word changes tree, bracket depth and expectation as the step function says, or the parse is refused. |
| `FixMathParser.FmeExpression.Parse` | src/assembler/fixmatheval.cpp:211-354 | The character loop succeeds exactly if the text's tokens parse, and its linked tree represents the parsed tree, which `ParserFollowsGrammar` shows to be that of the grammar. |
| `FixMathParser.FmeExpression.Eval` | src/assembler/fixmatheval.cpp:361-366 | Evaluating the linked nodes gives the value of the tree they represent, which `EvalExactly` shows to be what its operators mean. |
| `FixMathValues.ComputeExactly` | src/assembler/fixmatheval.cpp:265-307 | For all operands of 64 bits, a binary operator has a value if and only if the result that it means fits 64 bits, and then that one: the sum, the number that added to the right operand gives the left, the product, the truncated quotient, or the number with those bits. Apart from that it overflows or divides by zero. |
| `FixMathValues.ComputeUnaryExactly` | src/assembler/fixmatheval.cpp:262-268 | The negated number is the one that gives zero added to the operand, if it fits; the complement differs in every bit. |
| `FixMathValues.EvalExactly` | src/assembler/fixmatheval.cpp:103-200 | A tree without missing operands, of constants and symbols of 64 bits, has exactly the value that they and its operators denote, and none if there is no such value. |
| `FixMathEval.PrintParseRoundTrip` | src/assembler/fixmatheval.cpp:211-354 | Any expression, printed with the fewest brackets and parsed, is the same expression with the same value, within the priorities that fit an int. |
| `FixMathEval.EvalIsMeaning` | src/assembler/fixmatheval.cpp:103-200 | A complete tree has the value of its expression; a tree with a missing operand never has a value. |
| `FixMathEval.EvalMonotone` | src/assembler/fixmatheval.cpp:103-113 | A value once found stays the same however many symbols are added. |
| `FixMathEval.ComputeFits` | src/assembler/fixmatheval.cpp:253-322 | Operands of 64 bits never give a value outside 64 bits: what would overflow is not a value. |
| `FixMathEval.BitwiseActsOnBits` | src/assembler/fixmatheval.cpp:253-322 | Or, and and exclusive or act on each two's-complement bit by itself, negative operands included. |
| `FixMathEval.BitwiseKeepsWidth` | src/assembler/fixmatheval.cpp:253-322 | The bitwise operators stay within any two's-complement width that both operands have. |
| `FixMathDrops.KeptWhole` | src/assembler/fixmatheval.cpp:323-344 | The exact condition under which nothing is lost: the tree of an accepted token list holds every operand and operator that was written, in that order, if and only if each unary operator comes first or directly after an item that binds looser. |
| `FixMathDrops.DoubleMinus` | src/assembler/fixmatheval.cpp:323-344 | `--1` is parsed as `-1`. |
| `FixMathDrops.OperandBeforeTilde` | src/assembler/fixmatheval.cpp:262-264 | `3~4` is parsed as `~4`. |
| `FixMathDrops.BracketBeforeMinus` | src/assembler/fixmatheval.cpp:265-268 | `(3+)-4` is parsed as the negation of 4. |
| `FixMathEval.AdjacentUnaryDropsTheFirst` | src/assembler/fixmatheval.cpp:323-344 | Wherever an operand is due, two unary operators in a row parse as the second alone. |
| `FixMathDrops.OpenBracketsAccepted` | src/assembler/fixmatheval.cpp:308-316 | A successful parse ends at the level of the brackets that are still open, and at the level it began with if and only if there are none; none is ever closed too often. |
| `FixMathDrops.UnclosedAccepted` | src/assembler/fixmatheval.cpp:308-316 | `(3` is accepted, with one bracket open. |
| `FixMathEval.QuotientIsTheTruncatedOne` | src/assembler/fixmatheval.cpp:288-292 | Division is that of C++: the quotient is the one number whose remainder is smaller than the divisor and has the sign of the dividend, for all signs. |
| `FixMathText.TextRoundTrip` | src/assembler/fixmatheval.cpp:211-354 | The printed text of an expression parses back to it, with its value, if and only if it ends in an operand; otherwise it is rejected. |
| `FixMathText.UnendedTextRejected` | src/assembler/fixmatheval.cpp:211-354 | No text that ends in anything but a word character is accepted. |
| `FixMathText.BadNumberRejected` | src/assembler/fixmatheval.cpp:226-252 | No text with a word that starts with a digit and cannot be read as a number is accepted, wherever the word stands. |
| `FixMathGrammar.ProductRejected` | src/assembler/fixmatheval.cpp:211-354 | `2*(3+4)` is rejected although `(3+4)*2` has the value 14. |
| `AsmLine.ProcessChars` | src/assembler/simpleasm.cpp:140-280 | The character loop, with its eight flags and positions, splits every line as the tokenizer function does, or refuses it with the same complaint at the same position. |
| `AsmPrint.LineRoundTrip` | src/assembler/simpleasm.cpp:140-280 | Every well-formed statement, written as a line, is read back: its label, its operation in upper case, and its operands, quoted or not. |
| `AsmSpacing.SpacedLine` | src/assembler/simpleasm.cpp:140-280 | The same with space of any kind and length, or none, at the start, around the colon, behind the operation, around the commas and at the end. |
| `AsmSpacing.EmptyLabelRefused` | src/assembler/simpleasm.cpp:176-195 | A colon with nothing but space before it is refused at its place. |
| `AsmSpacing.QuoteRefused` | src/assembler/simpleasm.cpp:243-257 | A quote before or in the operation is refused at its place. |
| `AsmSpacing.FirstOperandRefused` | src/assembler/simpleasm.cpp:196-216 | So is a comma where the first operand should be. |
| `AsmSpacing.OperandRefused` | src/assembler/simpleasm.cpp:217-233 | So is a comma with no operand behind it, at the place of the next comma, the comment or the end. |
| `AsmSpacing.FirstQuoteRefused` | src/assembler/simpleasm.cpp:258-279 | A line whose first operand is a quote that is not closed is refused at its end, whatever the quote holds. |
| `AsmSpacing.LaterQuoteRefused` | src/assembler/simpleasm.cpp:258-279 | The same for an operand behind others. |
| `AsmSpacing.DirectiveLine` | src/assembler/simpleasm.cpp:148-165 | A line that starts with `#include` or `#pragma` and a space is not a comment: it has that operation and the operand behind it. |
| `AsmComments.CommentIgnored` | src/assembler/simpleasm.cpp:148-175 | A comment of any of the three kinds behind any line, good or bad, changes neither the statement nor the complaint, except for a quote that is not closed. |
| `AsmComments.CommentedLine` | src/assembler/simpleasm.cpp:140-280 | A written statement with a comment behind it is read back, even where it holds comment marks in quotes. |
| `AsmComments.CommentAlone` | src/assembler/simpleasm.cpp:148-175 | A line that is only a comment is an empty statement. |
| `AsmAscii.QuoteIsOperand` | src/assembler/simpleasm.cpp:140-280 | Any quoted bytes are one operand, whatever separators, comment marks, quotes or backslashes they contain. |
| `AsmAscii.EscapeRoundTrip` | src/assembler/simpleasm.cpp:501-589 | Decoding the escapes of any escaped bytes gives the bytes back. |
| `AsmAscii.EscapesAsInC` | src/assembler/simpleasm.cpp:547-569 | Each escape is the byte that it is in C; no other character may be escaped. |
| `AsmAscii.PlainText` | src/assembler/simpleasm.cpp:571-580 | Text without backslashes is its Latin-1 codes, with zero for every character that has none. |
| `AsmAscii.QuotedLineRoundTrip` | src/assembler/simpleasm.cpp:140-280 | Any list of byte strings, quoted on one line, is read back as that list. |
| `AssemblerLaws.SecondPassRepeatsFirst` | src/assembler/simpleasm.cpp:686-783 | Assembling again from the symbols of an error-free run repeats it: same addresses, symbols, memory and relocations, same finished memory, provided the initial names kept their values. |
| `AssemblerLaws.SecondPassOfUnboundNames` | src/assembler/simpleasm.cpp:686-783 | The same under a condition on the program: no line is labelled with, or sets, a name that was in the table from the start. With an empty table there is no condition. |
| `AssemblerLaws.LinesBind` | src/assembler/simpleasm.cpp:282-284 | A name that no label and no `.equ` or `.set` of the program mentions keeps its value, or its absence, through any run. |
| `AssemblerLaws.RebindingIsSeen` | src/assembler/simpleasm.cpp:463-500 | The condition is needed: a program that reads an initial name and then gives it another value puts another byte in its second pass. |
| `AssemblerLaws.FatalErrorFreezesMemory` | src/assembler/simpleasm.cpp:686-783 | After a fatal error neither the rest of the program nor the patching changes the memory. |
| `AssemblerLaws.CharsPlaceBytes` | src/assembler/simpleasm.cpp:501-589 | The escape loop over a text puts exactly the decoded bytes, for exactly the texts whose escapes are good. |
| `AssemblerLaws.AsciiLinePlacesBytes` | src/assembler/simpleasm.cpp:501-589 | From the line to the memory: a `.ascii` line of quoted texts puts their bytes at consecutive addresses, `.asciz` a zero byte behind each too, and changes nothing else but the label. |
| `AsmMemory.FinishPatches` | src/assembler/simpleasm.cpp:712-783 | With a memory that keeps what is written, no fatal error and relocations of different words: each of these words becomes what its relocation makes of the word before and the value of its expression, or stays if there is no value; all other words stay; and the result is true if and only if there was no error, every expression has a value and every update succeeds. |
| `AsmMemory.WordOfLaterLabel` | src/assembler/simpleasm.cpp:640-783 | From the lines to the finished memory: a `.word` of a name that is a label anywhere later in the program, and not bound again behind it, ends up as what its relocation makes of zero and the address at that label. |
| `AsmMemory.WordThenLabel` | src/assembler/simpleasm.cpp:640-783 | For these two lines alone the address is the one four bytes behind the word, and no condition on the memory is left. |
| `AsmMemory.LabelGives` | src/assembler/simpleasm.cpp:282-284 | A label gives its name, and no other, the address of the location counter, as a signed 64-bit number. |
| `AsmMemory.WordsDirectivePlaces` | src/assembler/simpleasm.cpp:635-659 | `.word` leaves its words four bytes apart from the next multiple of four on: a number as it is, and for any other text zero and a relocation of that word; the words before and behind them stay as the padding left them. |
| `AsmMemory.InstructionPlaces` | src/assembler/simpleasm.cpp:635-684 | The words that the encoder gives for the padded address are there one behind the other, and its relocations are filed behind the earlier ones. |
| `AsmMemory.BytesDirectivePlaces` | src/assembler/simpleasm.cpp:590-634 | `.byte` leaves the low eight bits of each operand, a number or the value of an expression, one behind the other, and no other byte changes. |
| `AsmMemory.ByteWithoutValue` | src/assembler/simpleasm.cpp:597-624 | The first operand of `.byte` without a value ends it with a fatal error, after the bytes before it. |
| `AsmMemory.SpacePlaces` | src/assembler/simpleasm.cpp:388-462 | `.space` and `.skip` leave as many bytes as the first operand says, each the low eight bits of the second or zero, none if the first is negative, and no other byte changes. |
| `AsmMemory.PadPlaces` | src/assembler/simpleasm.cpp:635-640 | The padding is zero bytes up to the next multiple of four. |
| `AsmMemory.AsciiLineInMemory` | src/assembler/simpleasm.cpp:501-589 | The bytes of the texts of an `.ascii` or `.asciz` line can be read from the memory one behind the other, and no other byte has changed. |
| `AsmMemory.BadEscapeStops` | src/assembler/simpleasm.cpp:527-571 | A text is placed up to a backslash that starts no escape, or is the last character; then it is an error. |
| `AsmMemory.BadTextStops` | src/assembler/simpleasm.cpp:503-571 | The first operand of `.ascii` that is not quoted, or has such a backslash, ends it with an error after the texts before it. |
| `AsmMemory.RefusedLine` | src/assembler/simpleasm.cpp:182-280 | A line that is refused binds no label and changes nothing but the error flag. |
| `AsmMemory.WithoutEffect` | src/assembler/simpleasm.cpp:286-343 | `.data`, `.text`, `.globl`, `.end`, `.ent`, pragmas and the options `noat` and `noreored` have no effect, and neither has an empty line; operands without an operation are an error. |
| `AsmMemory.OrgMoves` | src/assembler/simpleasm.cpp:347-387 | `.org` moves the location counter to the value of its operand, a negative one as unsigned 64-bit number, and does nothing else. |
| `AsmMemory.EquGives` | src/assembler/simpleasm.cpp:463-500 | `.equ` and `.set` give their first operand the value of the second, or one, and no other name a value. |
| `AsmMemory.BadOperands` | src/assembler/simpleasm.cpp:347-500 | Which mistakes in the operands of `.org`, `.space` and `.equ` are errors and which of them are fatal; neither memory, symbols nor address change. |
| `AsmMachine.SimpleAsm.ProcessLine` | src/assembler/simpleasm.cpp:120-684 | The state after a line, symbols, memory, address and relocations, is that of the line function, and the error flag is raised exactly if the line is refused. |
| `AsmMachine.SimpleAsm.ProcessFile` | src/assembler/simpleasm.cpp:686-710 | The state after a file is that of all its lines in order, and the error flag is raised exactly if the result is false. |
| `AsmMachine.SimpleAsm.ProcessSpace` | src/assembler/simpleasm.cpp:388-462 | `.space`: the size and the fill value, given or not, each the value of an expression, put as many bytes from the location counter on, or one of the errors. |
| `AsmMachine.SimpleAsm.ProcessBytes` | src/assembler/simpleasm.cpp:590-634 | `.byte`: every operand, a number or an expression, puts its low eight bits; the first one without a value is fatal and ends the line, after the bytes before it. |
| `AsmMachine.SimpleAsm.Align` | src/assembler/simpleasm.cpp:635-639 | The location counter is padded with zero bytes up to a multiple of four. |
| `AsmMachine.SimpleAsm.ProcessWords` | src/assembler/simpleasm.cpp:640-659 | `.word` puts a number as it is; for anything else it puts zero and files one relocation at that address. |
| `AsmMachine.SimpleAsm.Finish` | src/assembler/simpleasm.cpp:712-783 | Every relocation is patched in order with the value of its expression, range errors included, and the result tells whether there was any error. What that leaves in memory is for `FinishPatches`. |
| `SectionList.MoveUndone` | external/libelf/x.movscn.c:27-110 | Moving back behind the old predecessor undoes a move; a move neither loses nor copies nor reorders other sections. |
| `SectionList.StaysInPlace` | external/libelf/x.movscn.c:68-82 | Where a section goes and where one came from are inverse, and a place keeps its section if and only if it is outside the range between the two sections of the move. |
| `SectionList.MovedInOrder` | external/libelf/x.movscn.c:55-95 | The relinked and renumbered sections are chained in the new order, and their cached indices are their positions. |
| `SectionList.MovedIndices` | external/libelf/x.movscn.c:27-110 | After a move, an index leads to the same section as before if and only if it is outside the shifted range. |
| `SectionList.RemainingIndices` | external/libelf/x.remscn.c:27-119 | After a removal, an index leads to the same section as before if and only if it is less than the removed one. |
| `SectionList.RenumberedIsRedirected` | external/libelf/opt.delscn.c:27-62 | The renumbered link and info fields lead to the same sections as before a deletion; a reference to the deleted section becomes the undefined index. |
| `SectionList.CutCount` | external/libelf/opt.delscn.c:101-197 | A count cut to 16 bits decodes to the number of sections if and only if that number is below 65536. |
| `SectionList.CountLost` | external/libelf/opt.delscn.c:101-197 | Deleting one of 65537 sections leaves 65536 of them and a header that says there are none. |
| `SectionList.Elf.NeedHeaders` | external/libelf/cook.c:477-494 | Headers that were not read yet are read, once: the list then has the headers of the file in their order, and the count decodes to its length. It fails exactly if there is no file or it cannot be read. |
| `SectionList.Elf.LinkSections` | external/libelf/cook.c:319-456 | Built from last to first, the list has the headers in their order, right indices and right ends. |
| `SectionList.Elf.UpdateShnum` | external/libelf/newscn.c:27-61 | The stored count, escaped or not, decodes to the given one if and only if it fits 32 bits. |
| `SectionList.Elf.FirstScn` | external/libelf/newscn.c:83-99 | The null section is made exactly if there is no section yet. |
| `SectionList.Elf.NewScn` | external/libelf/newscn.c:120-137 | A new empty section comes last, after the null section if need be; everything before it stays but for the count in the first header, which is right up to 32 bits. Headers are read first if that is still to be done; the four outcomes are told apart exactly. |
| `SectionList.Elf.GetScn` | external/libelf/getscn.c:27-47 | The section at an index, or which error; headers are read first if that is still to be done. |
| `SectionList.Elf.GetShdrnum` | external/libelf/x.elfext.c:45-67 | The number of sections in the list, read first if need be, or zero with an error. |
| `SectionList.Elf.GetShdrstrndx` | external/libelf/x.elfext.c:69-124 | The string table's index with its escape, read first if need be, or exactly which error. |
| `SectionList.Elf.UpdateShstrndx` | external/libelf/x.elfext.c:138-182 | Whatever index is stored is read back, if and only if it fits 32 bits; no header changes but for the link of the first, and the count stays right although both share that header. It fails exactly if the file is no ELF file or its headers cannot be read. |
| `SectionList.Elf.MovScn` | external/libelf/x.movscn.c:27-110 | The list is the moved list, with the section directly behind the other one and links, indices, tail and count right; the new index is returned; and exactly the sections outside the shifted range keep their index, which is the condition under which a stored index stays right. |
| `SectionList.Elf.RemScn` | external/libelf/x.remscn.c:27-119 | The list is the old one without that section, with links, indices, tail and count right; exactly the sections before it keep their index. |
| `SectionList.Elf.DelScn` | external/libelf/opt.delscn.c:101-197 | As for removal. For each remaining section whose old type was REL, RELA, DYNSYM, DYNAMIC, HASH, SYMTAB or one of the three version types, the link leads to the same section as before, and for REL and RELA the info too; a reference to the deleted section becomes the undefined index, and every other link, info and header field stays. The count is right if and only if fewer than 65536 sections are left. |
| `ElfLayoutLaws.DefaultLayoutIsLaidOut` | external/libelf/update.c:133-324 | A default layout below four gigabytes has the headers, the sections in order and the section header table apart from each other, aligned, and inside the computed length. |
| `ElfLayoutLaws.PlacedInOrder` | external/libelf/update.c:55-120 | Within a section the buffers are placed in order and apart, and only their offsets change. |
| `ElfLayoutLaws.MaxAlignDominates` | external/libelf/update.c:87-118 | The section's alignment is a power of two that no buffer's alignment exceeds, if they are powers of two or zero. |
| `ElfLayoutLaws.BuffersAreAligned` | external/libelf/update.c:55-120 | Every buffer's place in the file, not only in its section, is a multiple of the alignment it asked for. |
| `ElfLayoutTight.DefaultLayoutIsTight` | external/libelf/update.c:133-324 | And nothing is wasted: each section starts less than its alignment behind the end of what is before it in the file, sections without data in the file taking no place; its alignment is the greatest of its buffers; it is as long as its buffers, each of which starts less than its own alignment behind the one before; and the section headers follow at the next multiple of four. |
| `ElfLayoutTight.DefaultRefusedExactly` | external/libelf/update.c:133-324 | Which files have no default layout, and with which error: the version, the byte order, or a buffer whose version or type has no size in the file. |
| `ElfLayoutTight.BufferSizeExactly` | external/libelf/update.c:83-105 | A buffer takes as many bytes of the file as its whole elements, by the sizes of the System V ABI, and its size in memory where the section has no data in the file. |
| `ElfLayoutTight.NullSections` | external/libelf/update.c:199-221 | A default layout clears the first section header but for the counts that it holds, and leaves other null sections as they are. |
| `ElfLayoutTight.SectionCheckExactly` | external/libelf/update.c:217-280 | How one section of a caller's layout is checked: buffers without a size in the file, then a buffer that ends behind the section, then an overlap, which is looked for only if the section starts before the end of what came before. |
| `ElfLayoutTight.CallerLayoutKept` | external/libelf/update.c:133-324 | A caller's layout keeps every offset and size, and the file ends where the last header table or section does. |
| `ElfLayoutAgain.SecondLayout` | external/libelf/update.c:133-324 | Laying out again what a default layout below four gigabytes laid out and what was then written changes no field and gives the same length. It reports something to write if and only if there are 0xff00 sections or more, or a section without data in the file is too long for its size field. |
| `ElfLayoutAgain.LongBssWrittenAgain` | external/libelf/update.c:240-246 | Such a section, with a length of four gigabytes, is reported as changed by every layout. |
| `ElfLayoutAgain.ManyNullsWrittenAgain` | external/libelf/update.c:302-308 | A file of 0xff00 null sections is reported dirty by every layout although nothing has changed. |
| `ElfLayoutAgain.CheckIsExact` | external/libelf/update.c:247-280 | A caller's layout with room for its data is refused if and only if two of its sections overlap, or one that starts before the end of what came before it meets the header of an earlier null section, such as the count in the first one. |
| `ElfLayoutAgain.CountIsInTheWay` | external/libelf/update.c:262-276 | Two sections apart from each other are refused because of the count in the first header. |
| `ElfLayoutAgain.AcceptedHasNoOverlap` | external/libelf/update.c:247-280 | An accepted caller's layout has no overlap, although sections behind the end of all earlier ones are not compared with any. |
| `ElfLayoutAgain.CallerLayoutKeepsApart` | external/libelf/update.c:133-324 | For whole files: non-empty sections of an accepted caller's layout are apart and end before the computed length. |
| `ElfLayoutFlags.NothingToWrite` | external/libelf/update.c:133-324 | A layout that reports nothing to write has changed no field of any header, section or buffer, and nothing was dirty before. |
| `ElfLayoutFlags.CountsStored` | external/libelf/update.c:284-324 | From 0xff00 sections and 0xffff program headers on, the counts are in the size and the info of the first section header, and the file header has the escapes. |
| `ElfUpdate.ElfFile.PlaceBuffers` | external/libelf/update.c:55-120 | The loop over buffers gives the offsets, the length, the alignment and the dirty flag of the placement function. |
| `ElfUpdate.ElfFile.ScanEarlier` | external/libelf/update.c:262-276 | The scan finds an overlap exactly if there is one with an earlier section. |
| `ElfUpdate.ElfFile.PlaceOne` | external/libelf/update.c:199-282 | One round of the loop under default layout. |
| `ElfUpdate.ElfFile.CheckOne` | external/libelf/update.c:199-282 | One round of the loop under a caller's layout, or the error. |
| `ElfUpdate.ElfFile.Layout` | external/libelf/update.c:133-324 | The new state, the length and the dirty flag are those of the layout function; the same error exactly where that fails. |
| `ElfOutput.Write` | external/libelf/update.c:626-749 | The image written into the array is that of the piece list, or the same refusal; only after success is nothing dirty any more. |
| `ElfFileUpdate.LayoutIsRoomy` | external/libelf/update.c:900-958 | After any successful layout, default or caller's, all that will be written fits the buffer of the computed length. |
| `ElfFileUpdate.Update` | external/libelf/update.c:960-1008 | Which commands and descriptors are refused and why, and then laying out, writing only if asked to and if anything is dirty, and the outcome of each; what a default layout below four gigabytes writes can be read back with the same headers. |
| `ElfCoding.Stored` | external/libelf/byteswap.h:30-63 | A number stored in either encoding and any width is loaded again. |
| `ElfCoding.Loaded` | external/libelf/byteswap.h:30-63 | Bytes loaded in either encoding and stored again are the same bytes. |
| `ElfCoding.RecodedBack` | external/libelf/32.xlatetof.c:103-193 | A translated structure has the same field values, and translating back restores its bytes. |
| `ElfCoding.ArrayRecodedBack` | external/libelf/32.xlatetof.c:62-87 | An array of structures translated there and back has its old bytes, up to the last whole structure. |
| `ElfCoding.EhdrRoundTrip` | external/libelf/32.xlatetof.c:103-193 | A stored file header is loaded again in either encoding. |
| `ElfCoding.PhdrRoundTrip` | external/libelf/32.xlatetof.c:103-193 | A stored program header is loaded again in either encoding. |
| `ElfCoding.ShdrRoundTrip` | external/libelf/32.xlatetof.c:103-193 | A stored section header is loaded again in either encoding. |
| `ElfFormat.FileFormat` | external/libelf/cook.c:124-494 | Of every file that can be read: magic, class, byte order and version are in its first bytes, and each field of the file header, of each section header and of each program header is the number at its offset of the System V ABI, written out. |
| `ElfReadable.ReadableExactly` | external/libelf/cook.c:124-494 | A file can be read if and only if its identifying bytes are known ones, its header is whole, and each table that it claims has entries of the right size and lies inside it, escaped counts included; otherwise which error. All are conditions on its bytes. |
| `ElfReadable.AllHeadersRead` | external/libelf/cook.c:124-458 | As many section headers and program headers are read as the file says it has, directly or by way of the first section header. |
| `ElfReadable.NoDataExactly` | external/libelf/getdata.c:94-144 | A null section, and one that starts outside the file, has no data, each with its error; one without bytes in the file has only its size. |
| `ElfReadable.DataExactly` | external/libelf/getdata.c:27-144 | The bytes of any other section that does not hold version records can be read if and only if they lie inside the file, which is the only other error, and then as many as make whole entries; bytes without a structure are those of the file. |
| `ElfFormat.ByteOrder` | external/libelf/byteswap.h:30-63 | Numbers have their lowest byte first where the file says 1 and last where it says 2. |
| `ElfFormat.SectionNumber` | external/libelf/getdata.c:27-92 | What is read of a section of relocations, dynamic entries, symbols, hash or version numbers, from a file of any byte order: all whole structures, each number of which has the value found at its offset in the file; sizes and offsets are written out for each type. |
| `ElfFormat.SizesFilledIn` | external/libelf/update.c:284-324 | After every layout the file header has its magic, class, version and byte order, and the sizes 52, 32 and 40 of the headers that there are; what is not about the layout stays. |
| `ElfFormat.SectionFilledIn` | external/libelf/update.c:199-246 | A default layout gives a section without an entry size that of its type, and changes nothing in its header but offset, size, alignment and that. |
| `ElfArrays.TranslateInPlace` | external/libelf/32.xlatetof.c:62-87 | Structures of several fields translated over themselves, forwards if they do not grow and backwards if they do: each becomes the translation of what it was at the start. |
| `ElfArrays.InPlaceIsArray` | external/libelf/32.xlatetof.c:62-87 | For structures that keep their size, that is the same as translating into another buffer. |
| `ElfMirrors.StoredOverReverses` | external/libelf/byteswap.h:47-63 | A number of any width that is stored byte by byte over itself is right if and only if its byte order stays or it reads the same both ways. |
| `ElfMirrors.StructureStoredOver` | external/libelf/32.xlatetof.c:103-193 | The same for structures: translation to the file over the same bytes is right if and only if the byte order stays or every field reads the same both ways. |
| `ElfMirrors.FourBytesSpoiled` | external/libelf/byteswap.h:57-58 | The word 1 2 3 4 becomes 4 3 3 4. |
| `ElfRoundTrip.FileFits` | external/libelf/update.c:626-749 | All pieces of a regular file are inside its length. |
| `ElfRoundTrip.ShdrWritten` | external/libelf/update.c:626-749 | Every section header is in the image at its place in the table, untouched by everything written after it. |
| `ElfWriterLaws.ContentRestored` | external/libelf/update.c:626-749 | Reading back the bytes of one written buffer gives the buffer; for version records, the same records with the same contents. |
| `ElfReader.Cook` | external/libelf/cook.c:477-494 | The reader's loops give the headers of the reading function, or the same error. |
| `ElfReader.ReadShdrs` | external/libelf/cook.c:209-458 | The section header table with the escaped count, read from the last entry to the first. |
| `ElfReader.ReadPhdrs` | external/libelf/cook.c:124-207 | The program header table with the escaped count. |
| `ElfReader.NativeDataUntouched` | external/libelf/getdata.c:27-92 | Reading data of the host's own byte order leaves the image as it is, whatever the section, version records good and bad included. |
| `ElfReader.OtherDataUntouched` | external/libelf/getdata.c:27-92 | Reading the data of a section in place does not change what is read of another that it does not overlap. |
| `ElfCookLaws.WriteThenCook` | external/libelf/cook.c:460-494 | What a default layout writes over any buffer is read back with the same file header, section headers and program headers, escaped counts included. |
| `ElfCookLaws.WriteThenReadBuffer` | external/libelf/update.c:626-749 | Every non-empty buffer of every section in the file can be read back from its place, after all else has been written. |
| `ElfCookLaws.WriteThenGetData` | external/libelf/getdata.c:27-144 | A section of one buffer of its own type is read back as that buffer. |
| `ElfCookLaws.WriteSucceeds` | external/libelf/update.c:626-749 | Writing succeeds if and only if each single buffer of a section in the file can be written. |
| `ElfContents.WriteThenGetBytes` | external/libelf/getdata.c:27-144 | A section of any number of byte buffers is read back as those buffers at their offsets, with fill bytes in all the gaps. |
| `ElfContents.WriteThenGetVersions` | external/libelf/getdata.c:27-144 | A section of version records that do not overlap, or of any good ones if the file has the host's byte order, is read back, translated in place, with the same records and contents. |
| `ElfContents.GapUnwritten` | external/libelf/update.c:626-749 | Between the buffers of a section the file keeps what was in the output buffer. |
| `ElfOpen.Open` | external/libelf/cook.c:319-456 | The section list of a file that can be read has the order, the indices and the count of its section header table. |
| `ElfVersions.WalkInside` | external/libelf/verdef.h:130-229 | Every version record the walk reaches lies inside the buffer, whatever its links say. |
| `ElfFormat.VersionSections` | external/libelf/cook.c:30-54 | Sections of type 0x6ffffffd, and no others, hold definitions, and those of type 0x6ffffffe needed versions. |
| `ElfFormat.VerdefFormat` | external/libelf/verdef.h:130-229 | One step of the walk over definitions: records of 20 bytes, with the positions of the version, the count and the two links written out. |
| `ElfFormat.VerneedFormat` | external/libelf/verneed.h:134-233 | The same for needed versions, of 16 bytes. |
| `ElfFormat.AuxiliaryFormat` | external/libelf/verneed.h:134-233 | The same for the auxiliary records of both, of 8 and 16 bytes. |
| `ElfVersions.ValuesCarriedOver` | external/libelf/verdef.h:130-229 | After translation all records are there with the values that they had, if and only if their translations agree on the bytes that they share. |
| `ElfVersions.VersionsRoundTrip` | external/libelf/verneed.h:134-233 | For every good chain: its values are carried over if and only if the translations agree. If they do, the walk over the translated buffer visits the same records in the same order, and translating back restores each of them. |
| `ElfVersionsOverlap.AgreeingExactly` | external/libelf/verdef.h:130-229 | They agree if and only if the byte order stays, or every byte that two records share comes from the same byte value in both: a condition on the bytes of the source. |
| `ElfVersionsOverlap.FieldsAgree` | external/libelf/verdef.h:130-229 | So they do, whatever the values, if records overlap in whole fields only. |
| `ElfVersionsOverlap.AuxOnNext` | external/libelf/verdef.h:184-185 | An auxiliary record on the last field of its main record is such a case. |
| `ElfVersionsChains.ChainBroken` | external/libelf/verdef.h:184-210 | A chain of three records that is translated into any other buffer without an error, and then cannot be walked there. |
| `ElfVersionsXlt.Xlt` | external/libelf/verdef.h:130-229 | The array version, into another buffer or in place, leaves exactly the bytes and the error of the step-by-step translation, overlapping records included. |
| `ElfVersionsXlt.WholeTranslated` | external/libelf/verneed.h:134-233 | Good records are each translated once: into another buffer always, in place if each of them is still as it was at the start when its turn comes. |
| `ElfVersionsOverlap.SparedExactly` | external/libelf/verdef.h:160-186 | One record is left as it was by the translation of another, in place, if and only if the byte order stays or every byte that both cover is the same as the one it trades places with. |
| `ElfVersionsOverlap.RecordsUntouched` | external/libelf/verdef.h:130-229 | In place and with the same byte order, nothing changes, whether the chain is good or bad. |
| `ElfVersionsChains.SharedRecordSpoiled` | external/libelf/verdef.h:184-210 | In place, a record that two others share is translated twice, and so not at all. |
| `ElfVersionsXlt.RecordsRefused` | external/libelf/verneed.h:134-233 | Into another buffer, the translator refuses exactly the chains that the walk refuses, with the same error. |
| `ElfHash.Hash` | external/libelf/hash.c:27-38 | The loop gives the hash function's value. |
| `ElfHash.HashIsAbiHash` | external/libelf/hash.c:27-38 | With a 64-bit unsigned long, the value is the hash of the System V ABI if and only if none of the last eight bytes of the name carries out of 32 bits. |
| `ElfHash.HashHasAbiHash` | external/libelf/hash.c:27-38 | Its low 32 bits are that hash for every name. |
| `ElfHash.HashIsWider` | external/libelf/hash.c:27-38 | A name of eight bytes for which the whole value is not: bit 32 is set. |
| `ElfSymbols.LastNamedIsLast` | external/libelf/nlist.c:209-228 | No symbol behind the one that is found has the name looked for. |
| `ElfSymbols.OtherBuckets` | external/libelf/nlist.c:209-228 | Following one bucket's chain meets all symbols of a name, because those of other buckets have other names. |
| `ElfSymbols.BuildTable` | external/libelf/nlist.c:179-207 | The table of heads and links chains each bucket's symbols from the last to the first; it fails exactly if a name starts outside the string table. |
| `ElfSymbols.Lookup` | external/libelf/nlist.c:209-228 | The chained lookup finds the last symbol of that name, or none exactly if there is none. |
| `ElfSymbols.FindSymbolTable` | external/libelf/nlist.c:125-138 | The first symbol table, else the last dynamic one, or none exactly if there is neither. |
| `ElfSymbols.FindTables` | external/libelf/nlist.c:125-177 | The symbols and the strings, these read after the symbols were translated in place; none exactly if there are no usable tables. |
| `ElfSymbols.StringsOfTheFile` | external/libelf/nlist.c:140-177 | Where both tables can be read, the strings are the file's own if and only if it has the host's byte order or all that the two sections share reads the same both ways; so they are if the sections do not overlap. |
| `ElfSymbols.OverlapSpoilsStrings` | external/libelf/nlist.c:140-177 | A string table in the place of the symbol table is not the file's own. |
| `ElfAnswers.SymbolInFile` | external/libelf/nlist.c:81-85 | Symbol `j` has its name, its value and its section 0, 4 and 14 bytes behind the `j`th multiple of 16 in the table, in the byte order of the file. |
| `ElfAnswers.AnswerInFile` | external/libelf/nlist.c:209-256 | The answer for a name, in bytes of the file: the numbers 4 and 14 bytes into the last symbol whose name is spelled like it, or zeros if and only if there is none. |
| `ElfAnswers.NamesInsideExactly` | external/libelf/nlist.c:179-207 | A lookup is refused if and only if a symbol other than the first has a name that starts behind the end of the string table, in bytes of the file. |
| `ElfAnswers.TablesExactly` | external/libelf/nlist.c:125-177 | A file has tables to look names up in if and only if its first symbol table, else its last dynamic one, has a whole symbol and is linked to a string table that is not empty, and both lie inside the file. |
| `ElfSymbols.Nlist` | external/libelf/nlist.c:209-256 | Each wanted name before the first empty one gets the value and the section of the last symbol of that name (in bytes of the file by `AnswerInFile`), or zeros if there is none, and zeros in the other fields; without usable tables its value becomes zero; nothing else changes. |
| `ElfStrings.SearchesAgreeExactly` | external/libelf/strptr.c:71-117 | Searching by stored offsets and searching by summed lengths find the same for every offset if and only if every non-empty buffer is stored where the sums put it. |
| `ElfStrings.SearchInside` | external/libelf/strptr.c:71-117 | A search that finds something finds a position inside a buffer. |
| `ElfStrings.Strptr` | external/libelf/strptr.c:27-148 | The pointer, or the error, that the search and the check for a terminating zero give. |
| `ElfStrings.ModesAgree` | external/libelf/strptr.c:71-117 | For a string table after a default layout that is the exact condition too, and it holds if every buffer is a whole number of elements. |
| `ElfStrings.SamePointers` | external/libelf/strptr.c:71-147 | Both ways then end the same, errors included. |
| `ElfStrings.PartialWord` | external/libelf/strptr.c:88-117 | Five bytes as words, then three bytes: the two ways give different places. |
| `ElfStrings.PointerExactly` | external/libelf/strptr.c:27-148 | There is a pointer if and only if the section is a string table with a buffer that has the byte, the first such buffer is there, and, where that is asked for, a zero byte follows in it; and the pointer is to that byte. |
| `ElfStrings.NoPointerExactly` | external/libelf/strptr.c:27-148 | Exactly when there is no such section, no string table, or no buffer with the byte; otherwise the buffer is not there or has no zero byte. |
| `ElfStrings.StringIsInFile` | external/libelf/strptr.c:27-148 | A string that is found is, byte for byte, at its offset in the section of the written file. |
| `ElfArchiveNumbers.GetNum` | external/libelf/begin.c:30-49 | A header field is refused if and only if it is not digits with spaces around them; otherwise the result is its value. |
| `ElfArchiveNumbers.FieldRoundTrip` | external/libelf/begin.c:30-49 | Any number in any base up to ten, with any spaces around it, is accepted and has that value. |
| `ElfArchiveHeaders.ReadHeader` | external/libelf/begin.c:99-205 | The loops over a member's header give its name, long or short, its date, owner, group and mode, and its size, or exactly the same refusal. |
| `ElfArchiveHeaders.FindStringTable` | external/libelf/begin.c:51-97 | The table of long names of an archive, or none. |
| `ElfArchiveFormat.HeaderFormat` | external/libelf/begin.c:99-205 | A header gives a name, attributes and a size if and only if its last two bytes are the mark, its first 16 are that name, and the numbers are in bytes 16, 28, 34, 40 (in octal) and 48. |
| `ElfArchiveFormat.MemberFormat` | external/libelf/begin.c:99-193 | A member is found if and only if its 60 bytes of header and its contents are inside the archive. |
| `ElfArchiveFormat.NoMemberFormat` | external/libelf/begin.c:107-193 | Exactly when there is none because the position is outside, the header is cut short or lacks its mark, or the contents are cut short. |
| `ElfArchiveFormat.NumberFormat` | external/libelf/begin.c:30-49 | Digits from 0x30 on with spaces around them are the number that they have in that base. |
| `ElfArchiveFormat.ShortNameFormat` | external/libelf/begin.c:126-164 | A name of up to 15 bytes that does not start with a slash, with a slash and spaces behind it, is that name, whatever else it contains. |
| `ElfArchiveFormat.BareNameFormat` | external/libelf/begin.c:126-172 | So is one of up to 16 bytes without the slash. |
| `ElfArchiveFormat.LongNameFormat` | external/libelf/begin.c:132-157 | A slash and a number stand for the name at that place of the string table, up to the next slash. |
| `ElfArchiveFormat.StringTableFormat` | external/libelf/begin.c:51-97 | The member `//` is the string table, members `/` are passed over to the next even place, and any other member ends the search. |
| `ElfArchiveFormat.ArchiveMagic` | external/libelf/begin.c:207-218 | An archive is what starts with the eight bytes `!<arch>` and a new line. |
| `ElfArchiveWriting.HeaderRoundTrip` | external/libelf/begin.c:99-205 | A written member header is read with the same name, short or in the string table, and the same numbers. |
| `ElfArchiveWriting.TableFound` | external/libelf/begin.c:51-97 | The library finds the string table of a written archive, and none if and only if all names are short. |
| `ElfArchiveWriting.ArchiveWalk` | external/libelf/begin.c:286-356 | Going from header to header through a written archive, by way of the string table found in it, meets every member in order, with its name, long or short, its numbers and its contents, and then the end. |
| `ElfArchive.WhatIsOpen` | external/libelf/begin.c:286-356 | In every reachable state the archive of an open member is open, has it in its list, and has no other member open at that place. |
| `ElfArchive.ClosingReleasesExactly` | external/libelf/end.c:73-116 | Closing releases exactly the descriptors that have neither handles nor members that stay open, up through any nesting of archives. |
| `ElfArchive.Unlink` | external/libelf/end.c:83-96 | The released member, first or later in its archive's linked list, leaves that list and nothing else changes. |
| `ElfArchive.Library.BeginFile` | external/libelf/begin.c:268-374 | A new descriptor with one handle, an archive exactly if the magic bytes are there. |
| `ElfArchive.Library.Memory` | external/libelf/begin.c:376-400 | An image in memory becomes a new descriptor unless it is empty. |
| `ElfArchive.Library.Begin` | external/libelf/begin.c:220-374 | Which command, descriptor or file is refused and why. Otherwise a new descriptor of the file, one more handle of what is open, or the member at the archive's position: an open one is shared, another is opened from the header's bytes with the archive's access and joined to the list, and the archive steps over it. |
| `ElfArchive.Library.Next` | external/libelf/next.c:27-42 | The archive, and no other descriptor, is moved behind the member; the result tells whether more follows. |
| `ElfArchive.Library.Rand` | external/libelf/rand.c:27-41 | The archive's position is set if it is inside, and zero is the answer otherwise. |
| `ElfArchive.Library.End` | external/libelf/end.c:73-116 | One handle less; the count of references is returned, and exactly what nobody needs any more is released. |

## Findings

Places where the code does not do what a reader would expect. Each has the input that shows it and, where
it can be checked before the call, the exact condition.

- A unary operator drops every trailing item that binds no looser, because the child it is put before is not
  adopted (src/assembler/fixmatheval.cpp:323-339): `--1` is `-1`, `3~4` is `~4`, `(3+)-4` is `-4` (`DoubleMinus`,
  `OperandBeforeTilde`, `BracketBeforeMinus`). `KeptWhole` says exactly when nothing is lost.
- An expression that ends in `)` or a space is rejected, because the end of the text is then taken for an unknown
  character (src/assembler/fixmatheval.cpp:317-322): `UnendedTextRejected`, `TextRoundTrip` (exact),
  `ProductRejected` (`2*(3+4)`).
- An unclosed `(` is not rejected, because only the level below the first is checked
  (src/assembler/fixmatheval.cpp:308-316): `UnclosedAccepted` (`(3`), `OpenBracketsAccepted` (exact).
- A second assembly pass may differ if the program gives a name of the initial table another value
  (src/assembler/simpleasm.cpp:463-500): `RebindingIsSeen`. `SecondPassOfUnboundNames` gives a condition on the
  program. It goes one way only: a program may rebind a name that it never reads, or give it the value it had, and
  both passes are then the same; whether a name is read at all depends on the encoder and on all the expressions.
- `elf_delscn` stores the section count cut to 16 bits, without the escape that `elfx_remscn` uses
  (external/libelf/opt.delscn.c:35). The count is right exactly below 65536 sections: `DelScn`, `CutCount`,
  `CountLost`. It also marks no header as changed.
- `elfx_movscn`, `elfx_remscn` and `elf_delscn` leave the index of the section name table alone, and the first
  two also all `sh_link` and `sh_info` fields (external/libelf/x.movscn.c:68-82). A stored index stays right exactly
  outside the range that shifts: `MovScn`, `RemScn`, `DelScn`.
- From 0xff00 sections on, the layout clears the escaped count and sets it again, so it reports something to
  write each time (external/libelf/update.c:208-214 and 302-308): `ManyNullsWrittenAgain`. So it does for a section
  without data in the file whose length does not fit its size field (external/libelf/update.c:241):
  `LongBssWrittenAgain`. `SecondLayout` is exact.
- A caller's layout may be refused because of the escaped count in the first header: the check for overlaps looks
  at null sections too, and takes that count for a size (external/libelf/update.c:262-276). `CountIsInTheWay` has
  three sections, `CheckIsExact` the condition.
- The macros that store a number to the file read it byte by byte while writing, so storing over the number
  itself with another byte order spoils it unless it is a palindrome (external/libelf/byteswap.h:47-63):
  `StoredOverReverses` (exact), `StructureStoredOver` (exact), `FourBytesSpoiled`. With the same byte order, and
  when reading into memory, it is safe.
- `elf_hash` with a 64-bit `unsigned long` is not the hash of the ABI (external/libelf/hash.c:32): `HashIsWider` has
  a name, `HashIsAbiHash` the condition. The lookup of `nlist` does not depend on it.
- `nlist` reads the string table after the symbol table was translated in place (external/libelf/nlist.c:167-168). In
  a file of the other byte order whose two tables overlap, names are looked up in translated bytes:
  `OverlapSpoilsStrings`; `StringsOfTheFile` is exact.
- Version records that overlap may not survive their translation, whose only check is that each lies inside the
  buffer (external/libelf/verdef.h:130-229). Into another buffer the translator reports nothing, and `ChainBroken` has
  three records that can then not be walked; `ValuesCarriedOver` with `AgreeingExactly` is exact for the values, and
  whole fields may overlap (`FieldsAgree`, `AuxOnNext`). In place it also translates from bytes that are translated
  already: `SharedRecordSpoiled`. `Xlt` says exactly what comes out, and `WholeTranslated` with `SparedExactly` when
  it is each record's translation. Two of these go one way only. The walk over the translated buffer is shown to be
  the old one where the values are carried over; where they are not, a value that no step uses, such as a hash, may
  differ without any change to the walk. In place, which records are visited depends on the links read on the way, so
  a record that was spoiled may by the coincidence of its bytes still lead on to the same places.
- `elf_strptr` adds up the sizes of the buffers in memory, while the layout places them by their sizes in the file
  (external/libelf/strptr.c:88-117). For a buffer that is not a whole number of elements the two differ: `PartialWord`,
  `SearchesAgreeExactly` (exact).

## Left out

- AsmMachine.SimpleAsm.ProcessLine: a line with `#include` is an error here, as if the file could not be opened;
  reading the included file would only repeat `ProcessFile` on its lines.
- AsmMachine.SimpleAsm.ProcessFile: for the same reason without included files, and the file itself can be opened.
- FixMathParser.FmeExpression.Parse: priorities beyond an `int` (some twenty million open brackets) are
  undefined in C++ and excluded.
- FixMathEval.PrintParseRoundTrip: for the same reason, only for bracket depths whose priorities fit an `int`.
- FixMathGrammar.ParserFollowsGrammar: for the same reason, and texts outside the grammar are for `KeptWhole`.
- AsmMemory.FinishPatches: that the memory keeps a word or byte and changes no other one is an assumption about the
  memory handed in. Of relocations that share a word, only `Finish` speaks.
- AsmMemory.WordOfLaterLabel: the word must still be zero before it is patched; a program may write over it.
- AsmMemory.WordsDirectivePlaces and the other lemmas about memory: the location counter does not wrap around.
- Overflow of 64-bit arithmetic and division by zero: outcomes of their own that are not values; what the
  program then does is undefined in C++.
- Strings are the string library's characters; characters outside Latin-1 become zero bytes in `.ascii`, as in
  the source. Trimming, number reading, instruction encoding, relocation masks and the simulator's memory are
  functions handed in, and results hold for all such functions.
- Class 64: the 64-bit layout, write and read are the same text with other widths. Version records and
  arrays are modelled for any widths.
- Sections and buffers of the layout are values in sequence fields of the file object; sharing one buffer
  between sections is not captured. The section list itself is modelled with linked objects.
- SectionList.Elf.NeedHeaders: what the file will give is part of the descriptor; `ElfOpen.Open` ties it to the
  bytes. Program headers are not part of the section list.
- ElfUpdate.ElfFile.Layout: after an error it does not say how far headers and sections were changed.
- ElfOutput.Write: after a refusal it does not say what the output buffer holds.
- A header that claims no sections but a nonzero table offset, and files without sections whose program header
  count needs the escape, are undefined in the source and excluded.
- ElfFileUpdate.Update: memory mapping, allocation failures and input/output errors are not modelled; the fill
  byte is a parameter.
- ElfArrays.TranslateInPlace: structures of which some fields grow while others shrink, which the library does not
  have, and `byte_copy`, which copies bytes backwards if the buffers overlap.
- ElfContents.WriteThenGetBytes: several buffers only for sections of bytes; for other types the gaps would be
  translated as if they were structures.
- ElfContents.WriteThenGetVersions: of records that overlap, only those of files of the host's byte order.
- ElfReadable.DataExactly: not for version records; which of them are refused is for `RecordsRefused` and `Xlt`.
- ElfVersionsXlt.WholeTranslated: in place it is a sufficient condition, for the reason given above.
- Names that `nlist` looks up run to the end of the string table if no zero byte ends them.
- ElfArchiveNumbers.GetNum: overflow of `unsigned long`; header fields have at most sixteen digits.
- ElfArchiveHeaders.ReadHeader: the archive's symbol table is recognised but not read.
- ElfArchive.Library.Begin: that a version was chosen before is taken for granted, and allocation does not fail;
  whether a file can be read, and its bytes, are a parameter.
- ElfArchive.Library.End: which memory is freed in which order; a released descriptor just leaves the model.
- Caching of raw and translated section data, and the checks of magic numbers inside descriptors.

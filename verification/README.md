# NASM in Dafny

A model of the parts of the Netwide Assembler with the most intricate logic, and proofs about
it. Code that works in place or in loops is modelled by methods, with the same branches and
constants, over classes, arrays and sequences; each method is proved against a function of its
inputs, and lemmas say what that function means.

- **Effective addresses.** `EaEncoding` encodes a memory or register operand into ModRM, SIB and
  displacement (`process_ea`). `EaDecoding` is the reader of the disassembler (`do_ea`),
  `OperandWidth` says how many bytes a memory operand has, which is the unit of compressed
  displacements, `Prefixes` carries the register bits and the other fields through REX, REX2,
  VEX and EVEX, and `AddressSize` chooses the address size. The operand that is read back has
  the written address, for all register contents, exactly if a condition on the operand holds.
- **Instructions.** `Bytecode`, `Sizing` and `Assemble` have the sizing pass and the emitting
  pass over the bytecode of an instruction. `Sizing` and `PrefixSlots` say as functions of the
  codes, the operands and the prefixes what the sizing pass decides, and so whether the two
  passes count the same bytes. `PrefixReading` reads legacy prefixes as a processor does, and
  says what it finds for the codes of an instruction. `RoundTrip` puts everything together: an
  instruction is sized and emitted, and a reader finds its prefixes, its operand and its
  registers in what was written. `CodeTable` and `Tables` compare the tables with the
  documents they come from.
- **Floating point.** `Limbs`, `Rounding`, `Ieee`, `FloatPacking`, `Floats`, `FloatText`,
  `FloatConst` and `Bcd` go from limb arithmetic to whole constants. The independent
  definition is `Ieee.Nearest`, rounding to the nearest datum with ties to even, and the code
  meets it exactly under a condition on the number. `FloatPrint` writes numbers and reads bit
  patterns: what is written is read as itself, down to the bytes.
- **Strings.** `Utf8`, `Unquote` and `Quote` have the state machine that removes escapes in
  place, the search for the closing quote, and quoting with its round trip. `Escapes` writes
  every kind of escape, and what is written is read as what it names. `Transcode` has the
  UTF-16 and UTF-32 transcoders.
- **Expressions.** `Vectors` adds and scales sparse linear forms, `Grammar` has the
  recursive-descent parser over any operators together with the syntax trees it accepts,
  `Evaluate` is the evaluator itself, `Precedence` says how the documented rows of operators
  group, `Words` bit by bit what the operators mean, and `Numbers` what expressions over
  numbers mean.
- **Runs.** `Conditionals` (conditional assembly over a whole source), `ErrorHolds` (nested
  tentative errors in linked lists), `SyncHeap` (the heap of synchronisation points of the
  disassembler), `Labels` (the label table over a pass), `PassDriver` (the passes over a
  source until nothing changes) and `DataOperands` (the operands of `db`).

`Basics`, `Digits` and `Registers` hold what several modules need.

## Findings

Where the code does not do what its purpose asks for, the code is modelled as it is. For each
such case there is a concrete input, and the condition under which the code does it.

| case | input | condition |
|---|---|---|
| Under a 16-bit operand size, the two passes differ over an `iwd` immediate (codes `\34` to `\37`) that is typed `qword`: it is sized as four bytes and emitted as two. Only far CALL and JMP have such an immediate, and instruction matching, which is not part of this model, does not let a `qword` operand reach them (asm/assemble.c:3275-3288), so the case stays inside the interpreters. | `Sizing.FarJumpAgreesIff` | `Assemble.Instruction.Assemble` |
| A 64-bit address with a displacement beyond 32 bits loses the high half. | `EaEncoding.LostHighHalf` | `EaEncoding.Insn.ProcessEa` |
| A displacement that is forced into a byte, and does not fit, is cut off. | `EaEncoding.LostInByte` | `EaEncoding.Insn.ProcessEa` |
| A pure 16-bit offset that is forced into a SIB byte gets a 32-bit form. | `EaEncoding.SibMisfit` | `EaEncoding.Insn.ProcessEa` |
| 16-bit registers under a 32-bit address size are encoded in the 16-bit form. `process_ea` sees them only after `add_asp` has reported an error, or when a byte code has replaced the address size. | `EaEncoding.NarrowMisfit` | `EaEncoding.Insn.ProcessEa`, `AddressSize.NarrowNeedsError` |
| A number whose exponent is one past the largest (a comparison with `expmax` lets it through) becomes a NaN or a wrong pattern instead of an infinity. | `FloatConst.OverflowBecomesNan` | `FloatConst.ProducedIsNearestIff` |
| Bits beyond the 192-bit fraction, or shifted out of it, are forgotten, so that a number just above a tie rounds like the tie. | `FloatConst.TieIsLost` | `FloatConst.ProducedIsNearestIff` |
| In a hexadecimal constant `@` and the backquote count as the digit nine. The token scanner, which is not part of this model, ends a number before either (asm/stdscan.c:384), so they reach `float_const` from other callers only. | `FloatPrint.AtIsNine` | `FloatPrint.HexValIff` |
| Rounding away from zero looks at half a unit only, so it is no ceiling below that. | `FloatPacking.AwayStaysBelow` | `FloatPacking.AwayIsCeilingIff` |
| Comparisons look at the sign of a difference that may have wrapped, and `<=>` of a smaller number is unknown instead of -1. | `Numbers.WrongLess`, `Numbers.WrongThreeWay` | `Numbers.AppliedIff` |
| UTF-16BE surrogate pairs come in the wrong order, so no reader accepts them. | `Transcode.SwappedSurrogates` | `Transcode.StandardIff`, `Transcode.EmittedReadBack` |
| Numbers of more than eight bytes are counted but not put out. | `DataOperands.OversizedNumber` | `DataOperands.LengthIff` |
| The end of a synchronised region wraps around at 2^64, so a later region counts as past. | `SyncHeap.WrappedEntry` | `SyncHeap.ExpiredIff` |
| A declaration can make a label undefined without counting a change. | `Labels.Undefines` | `Labels.UndefinedIff`, `Labels.PassKeepsDefinedIff` |

## Model

| member | source | states |
|---|---|---|
| EaEncoding.Insn.ProcessEa | asm/assemble.c:3446-3911 | Accepts exactly the operands that satisfy `Accepted`. For every memory operand that it accepts, reading the bytes back gives the written address, for all register contents, every position of the instruction, all bytes that follow and all prefix bits that carry the register flags, if and only if `Exact` holds. `Exact` is about the operand, mode, context and compression shift alone. Without a report of overflow it holds but for a 64-bit offset whose low half is short. A displacement of one byte, times the number of bytes of the memory operand, is the whole displacement. The flags are those of the operand's registers, the register field survives, and a register operand reads back as that register. |
| OperandWidth.UnitMeasures | include/disp8.h:16-87 | The unit of compressed displacements is the number of bytes of the memory operand: of the whole vector, of a half, a quarter or an eighth, of one, two, four or eight elements by W, or of one element that is broadcast. |
| OperandWidth.OneMeasure | include/disp8.h:16-87 | There is only one such number. |
| EaEncoding.Insn.MemoryMod | asm/assemble.c:3413-3444 | When the displacement has no, one or more bytes, and when the byte with its compression factor stands for the whole displacement. |
| EaEncoding.Insn.Arrange16 | asm/assemble.c:3801-3878 | Finds an order of 16-bit registers that has the same sum, exactly if there is one that can be encoded. |
| EaEncoding.AcceptedIsExact | asm/assemble.c:3446-3911 | Over all kinds of encodings: what is read back is what was written if and only if nothing was lost. |
| EaEncoding.LostHighHalf | asm/assemble.c:3657-3800 | `[rax + 0x100000000]` is accepted and does not meet the condition. |
| EaEncoding.LostInByte | asm/assemble.c:3413-3444 | `[byte eax + 128]` is accepted and does not meet the condition. |
| EaEncoding.SibMisfit | asm/assemble.c:3528-3543 | A pure offset in 16-bit mode with a forced SIB byte is accepted and does not meet the condition. |
| EaEncoding.NarrowMisfit | asm/assemble.c:3801-3878 | `[bx]` under a 32-bit address size is accepted and does not meet the condition. |
| AddressSize.AddAsp | asm/assemble.c:3913-4015 | Finds an address size that the mode, the prefix and all operands allow if there is one, and the size of the mode first; reports an error exactly if there is none. The prefix that it leaves in the slot is one that stands for that size. |
| AddressSize.RegistersFitSize | asm/assemble.c:3913-4015 | Under a size that was chosen without error, all general registers of every address have that size. |
| AddressSize.NarrowNeedsError | asm/assemble.c:3913-4015 | Under such a size no address with registers belongs to the badly encoded family. |
| EaDecoding.DisOperand.DoEa | disasm/disasm.c:246-425 | The cursor-driven reader equals the recursive definition of what ModRM, SIB and displacement bytes mean, and fails only where they end too early. |
| Tables.PairsRead | disasm/disasm.c:268-306 | The bases and indices of 16-bit addresses, by name, are those of the table in the manual. |
| Tables.UnitDoubles | include/disp8.h:16-87 | Scales and units are the powers of two. |
| Prefixes.RexCarries | disasm/prefix.c:161-177 | The REX byte that is written is read back with all register bits and W. |
| Prefixes.Rex2Carries | disasm/prefix.c:138-158 | The same of REX2, with five-bit register numbers; of the four legacy maps it keeps the first two, and no others. |
| Prefixes.Vex3Carries | disasm/prefix.c:103-135 | The same of the three-byte VEX prefix, with its operand register, map, vector length and embedded prefix. |
| Prefixes.Vex2Carries | disasm/prefix.c:99-102 | Where two bytes suffice, the expanded short VEX prefix reads like the long one. |
| Prefixes.EvexCarries | disasm/prefix.c:182-212 | The EVEX prefix reads back with its inverted, shared and moved bits in every combination of register classes, and W if the flags or the template have it, the map, the embedded prefix, the vector length and the broadcast bit. |
| Prefixes.PrefixCarries | disasm/prefix.c:224-307 | Every prefix that has room for the register flags is recognised by its first byte, and carries them. |
| RoundTrip.WriteAndRead | disasm/disasm.c:246-425 | Encoding, writing a prefix, reading the prefix and reading the operand, one after the other, end at the written address and after the operand's bytes, for any exact operand and any prefix with room, even with further flags of the instruction. |
| RoundTrip.AssembleAndRead | asm/assemble.c:1025-1095 | A whole instruction: sized, merged and emitted with whatever prefix the sizing pass has settled on. If the check on the length passes, the prefix that is found in the output is read by its first byte, and ModRM, SIB and displacement with it give the register, or the written address for all register contents, for every operand that is exact in the mode and with the scaling that the codes call for. The V field is the number that the codes call for, the map, W, vector length, embedded prefix and broadcast bit are those of the template and the decorators, and the reg field with its high bits is the register of the other operand, or the digit of the code. All conditions are on the codes, the operands and the prefixes before the call. |
| RoundTrip.AssembleAndReadPrefixes | disasm/prefix.c:316-480 | The legacy prefixes of a whole instruction, as a processor reads them. Without a prefix of the programmer's in the way, the last code that asks for F2, F3 or 66, or forbids it, is met: exactly that byte is found, or none. The operand size that the reader derives from 66 is the one that the codes ask for, if and only if the option for smaller sizes does not suppress the prefix; the address size derived from 67 is the one that sizing chose. A prefix of the programmer's is found. |
| RoundTrip.AssembleAndReadRegister | asm/assemble.c:2446-2449 | An instruction with a register in its opcode byte: three bits of that byte, and the bits of the prefix that was written, give the number of the register, and the other five bits are the opcode. |
| Sizing.VRegisterIs | asm/assemble.c:1558-1602 | The V field is the number of the register operand that the VEX or EVEX code names. |
| PrefixReading.SlotsRead | asm/assemble.c:2295-2400 | For any slots, requirements and mode: what a reader makes of the bytes put out is what the slots stand for. |
| PrefixReading.RepNeeded | asm/assemble.c:1775-1886 | Codes \331, \332, \333, \360 and \361: what the slot of F2 and F3 requires after all codes is what the last of them says. |
| PrefixReading.OspNeeded | asm/assemble.c:1876-1892 | The same of the slot of 66, for \360, \361, \364 and \366. |
| PrefixReading.SizeSettled | asm/assemble.c:1669-1773 | After codes for operand sizes, the slot holds a prefix for the size of the instruction. |
| PrefixReading.SizeToldIff | asm/assemble.c:1669-1773 | What the reader derives is that size if and only if a prefix was not left out as an optimisation. |
| PrefixReading.AsizesTold | asm/assemble.c:1620-1667 | Address sizes: the slot that codes \310, \311 and \313 settle is read as the size they ask for. |
| PrefixReading.MapRead | asm/assemble.c:2159-2199 | The bytes 0F, 0F 38 and 0F 3A before an opcode are read as the map they stand for, and the opcode after them. |
| PrefixReading.MapTold | asm/assemble.c:1869-1872 | The opcode map is the one that the last code of \355 to \357 names. |
| CodeTable.RowRead | x86/bytecode.txt:71-235 | Every row of the description of byte codes, by its octal numbers: it is decoded as that code, followed by as many argument bytes, and puts out as many bytes, where their number is fixed. |
| CodeTable.SizesRead | x86/bytecode.txt:83-93 | The sizes that depend on the operand, on the operand size or on the address size. |
| CodeTable.LiteralRead | x86/bytecode.txt:73 | Literal bytes are put out as they follow. |
| CodeTable.AddedRead | asm/assemble.c:2446-2449 | A register that is added to an opcode is told by three bits of the byte and the flags of its slot. |
| CodeTable.MrbRead | asm/assemble.c:2521-2528 | The same of a register in the reg field of a ModRM byte with the other fields fixed. |
| CodeTable.Is4Read | asm/assemble.c:2554-2559 | The same of a register in the high half of a byte, with all five bits unless the constant takes one. |
| Tables.TupleRead | include/nasm.h:777-794 | The tuple types by number. |
| Tables.ScalingInWord | asm/assemble.c:1558-1579 | Displacements are compressed by the W bit, the broadcast bit and the vector length that stand in the EVEX prefix itself. |
| Tables.BitsNamed | x86/bytecode.txt:205-218 | The codes that name a bit of the prefix. |
| RoundTrip.LookCodes | asm/assemble.c:2402-2850 | A reader of the output finds the one prefix and the one operand of the codes. |
| Bytecode.PassesAgreeIff | asm/assemble.c:1435-2850 | For any state of the instruction, the sizing pass counts what the emitting pass writes, and otherwise more, exactly if a pending REX part is written by some code and no immediate is typed wider than its 16-bit instruction. |
| Bytecode.WideImmediateDisagrees | asm/assemble.c:1500-1505 | For one `\34` code with an operand that is typed as 64 bits only, in a state with a 16-bit operand size, the two counts differ by two. |
| Sizing.FarJumpAgreesIff | asm/assemble.c:1500-1505 | For the codes of a far CALL or JMP with 16-bit operands, in any mode and with any prefixes, the passes will agree unless the target is typed as 64 bits only. |
| Sizing.FarCallSpelt | x86/insns.dat:329 | The byte codes of CALL with a 16-bit far target are such codes. |
| Sizing.TypedWillAgree | asm/assemble.c:1435-2156 | With an opcode byte and no such immediate, they always will. |
| Sizing.DefaultOsize | asm/assemble.c:1459-1462 | Codes that set no operand size leave the default of the mode and the prefix. |
| Bytecode.MergedAgreeIff | asm/assemble.c:778-792 | The same for merged repetitions of reserved space, where the emitted length is the counted one times the repeat count. |
| Assemble.Instruction.CalcSize | asm/assemble.c:1435-2156 | The loop over the byte codes, with all its updates of the instruction, returns the sum that the final state gives for all codes, with prefixes and the settled REX, VEX or EVEX part. The operand size, the address size, the operands, the opcode map, the V field, the scaling of displacements, and whether a REX part is pending, are those that a fold over the codes gives for the operands and prefixes before the call. So are the prefix slots, with the bytes that codes require or forbid in them. The register bits in the flag word are those of the codes that name registers, and no others; W is set for 64-bit operands that need it. The prefix has room for the registers, and the operand can be read back. |
| Assemble.Instruction.GenCode | asm/assemble.c:2402-2850 | Puts out the legacy prefixes, the REX part once before the first opcode byte, VEX and EVEX prefixes, opcode bytes, bytes with a register in them, ModRM, SIB and displacement as the state gives them, in order, and of immediates the right number of bytes. |
| Assemble.Instruction.EmitRex | asm/assemble.c:2159-2199 | Writes the REX or REX2 prefix, or LOCK in its place, and the opcode map, once. |
| Assemble.Instruction.EmitPrefixes | asm/assemble.c:2295-2400 | Puts out the byte of every slot that has one, and as many as it returns when it only counts. |
| Assemble.Instruction.MergeResb | asm/assemble.c:778-792 | Folds the repeat count into the operand exactly if the instruction is nothing but reserved space. |
| Assemble.Instruction.Assemble | asm/assemble.c:1025-1095 | After sizing, merging and emitting, the check on the length passes if and only if `WillAgree` held of the codes, the operands and the prefixes before the call: a pending REX part, as the fold over the codes tells, is written by some code, and no `\34` immediate is typed as 64 bits only under a 16-bit operand size. What is written is what the state after sizing calls for, and that state is the one foretold by the codes, the operands and the prefixes. |
| Limbs.FloatMultiply | asm/floats.c:71-115 | The product of two 192-bit fractions, cut off after the limbs, shifted by one bit exactly if the product is below one half; normalised factors give a normalised product. |
| Rounding.IeeeShr | asm/floats.c:551-577 | Division by the power of two, cut off; a shift by nothing clears the first limb. |
| Rounding.IeeeRound | asm/floats.c:423-462 | The rounded value in all four modes for both signs, less the carry that is reported. |
| FloatPacking.AwayIsCeilingIff | asm/floats.c:423-462 | Rounding up gives the ceiling if and only if the guard bit is set or the number is exact. |
| FloatPacking.AwayStaysBelow | asm/floats.c:423-462 | A quarter of a unit, rounded up, is nothing. |
| Ieee.NearestIsNearest | asm/floats.c:611-622 | The reference definition: no finite datum is closer to the number than the nearest one, in units that are exact for numbers of any size. |
| Ieee.InfiniteIff | asm/floats.c:611-622 | Its overflow: infinity exactly from half a unit above the largest number on. |
| Ieee.FormatsValid | asm/floats.c:611-622 | All formats of the table are formats in the sense of the theorems. |
| Floats.Floats.PackNumber | asm/floats.c:757-839 | Normal, denormal, zero and infinite results, their carries and the integer bit, are the pattern of the datum for the fraction and exponent in the given mode. |
| Floats.Floats.PackSpecial | asm/floats.c:841-852 | Infinities and both NaNs in all formats. |
| Floats.Output | asm/floats.c:680-856 | The bytes, read as a little-endian number, are the top of the fraction. |
| FloatText.ReadExponent | asm/floats.c:122-160 | The exponent, with signs, underscores, saturation and errors as its definition says. |
| FloatText.FlconvertBin | asm/floats.c:465-546 | The buffer holds the leading 192 bits of the number that the text stands for, of any length, and the exponent its magnitude; fails exactly for texts that are no number. |
| FloatConst.ProducedIsNearestIff | asm/floats.c:757-839 | In near mode the datum produced for any number, format and sign is the nearest one if and only if no tie was lost and, one past the largest exponent, the number is close to a power of two. |
| FloatConst.NearPowerIff | asm/floats.c:819-835 | The inequality "close to a power of two" on the number says that the rounded significand is a power of two. |
| FloatConst.TextIsNearestIff | asm/floats.c:680-856 | The same from the text of a constant in hexadecimal, octal or binary. |
| FloatConst.BytesAreNearestIff | asm/floats.c:680-856 | The same of the bytes: different data have different patterns. |
| FloatConst.OverflowBecomesNan | asm/floats.c:757-764 | Three halves of the power past the largest exponent become a quiet NaN where the nearest datum is infinity. |
| FloatConst.TieIsLost | asm/floats.c:493-530 | A number of 193 bits just above a tie does not round correctly, in every format. |
| FloatConst.Converter.FloatConst | asm/floats.c:680-856 | The bytes of a special token, of a number in a binary radix and of packed decimal digits, by how the constant is written. |
| FloatPrint.PrintedIsRead | asm/floats.c:465-546 | A number written in digits of either case with underscores, a point and a signed exponent within the cap is read as that number: its digits by their places, times the power of two. |
| FloatPrint.EveryNumber | asm/floats.c:465-546 | Every d * 2^s within the cap can be written so, in every radix. |
| FloatPrint.PrefixRead | asm/floats.c:721-760 | The thirteen prefixes of the binary radixes, and the bits of a digit under each. |
| FloatPrint.TokenRead | asm/floats.c:704-719 | The names of the special values, in either spelling, are read as their kinds. |
| FloatPrint.ConvertPrinted | asm/floats.c:680-856 | The bytes for a written number are the pattern of the datum nearest to the number that was meant, if and only if the condition on that number holds. |
| FloatPrint.ConvertDatum | asm/floats.c:680-856 | Every finite datum of a format, of both signs, written in any of the radixes in either case, gives back its own pattern, and the fields of the bytes read as its value. |
| FloatPrint.ConvertToken | asm/floats.c:841-852 | The bytes for a special token read as infinity with its sign, as a quiet NaN or as a signaling one, as its name says. |
| FloatPrint.PatternRead | asm/floats.c:773-852 | Sign, exponent field, integer bit and fraction of the pattern of every datum are read as the value it stands for. |
| FloatPrint.HexValIff | include/nctype.h:98-107 | Which characters count as which digit. |
| FloatPrint.AtIsNine | include/nctype.h:98-107 | Two characters that are no digits count as nine. |
| Bcd.ToPackedBcd | asm/floats.c:633-678 | The packed bytes stand for the decimal number modulo 10^18, with the sign byte; fails exactly for texts that are no such number. |
| Utf8.EmitUtf8 | asm/quote.c:160-214 | Writes the one to six bytes of any 32-bit code point. |
| Utf8.EncodeRead | asm/quote.c:160-214 | The bytes of every 31-bit code point are read back: the row of the lead byte tells the length, the bits together are the code point, and no shorter form would hold it. |
| Unquote.UnquoteAnystr | asm/quote.c:281-475 | The in-place state machine leaves what the escapes of the old buffer mean, terminated, never overtakes its reader, stops where the string ends, and reports exactly the bad control characters. |
| Unquote.UnquoteEscaped | asm/quote.c:290-448 | The same for the part between backquotes, one byte of state at a time, including digits that turn out not to belong to an escape. |
| Unquote.SkipString | asm/quote.c:503-570 | Finds the end of a quoted string exactly where unquoting finds it. |
| Unquote.SkipFindsEnd | asm/quote.c:503-570 | The reader that knows no escapes but the backslash ends where the one that knows them all does. |
| Escapes.UnquoteWritten | asm/quote.c:281-475 | A string written as a list of pieces between quotes, with anything after it, leaves in the buffer the bytes that the pieces name. Pieces are \u, \U, \x, \X, \d, \o and plain octal escapes with all their digits, all but the last also between braces with any number of digits, letter escapes, \^ sequences, characters behind a backslash, and characters alone. |
| Escapes.WrittenMeans | asm/quote.c:281-475 | The same as a meaning, with the place where the string ends. |
| Escapes.PieceRead | asm/quote.c:306-448 | Each piece is read as what it names, whatever character follows, digits included. |
| Escapes.UnbracedRead | asm/quote.c:340-423 | A numeric escape with fewer digits than it may have, before a character that is no digit of its radix. |
| Escapes.NumberWritten | asm/quote.c:340-423 | Every number has such an escape: any that fits the fixed number of digits, and between braces any at all, in digits of any mixture of cases; it names the code point in UTF-8, or the byte. |
| Escapes.NoDigitsRead | asm/quote.c:400-448 | A letter of a numeric escape without digits stands for itself, as if there were no backslash. |
| Escapes.UnclosedRead | asm/quote.c:400-448 | So does one with a brace that is not closed behind the digits, together with what follows it. |
| Quote.NasmQuote | asm/quote.c:19-158 | Both passes over the string, measuring and writing, fit together: the buffer holds the chosen quotes and the escaped bytes. |
| Quote.QuoteRoundTrip | asm/quote.c:19-475 | For every byte string, whatever quotes were chosen, unquoting what was quoted gives the string and ends at the closing quote. |
| Quote.QuotedPrints | asm/quote.c:19-158 | The quoted form is printable for every byte string, and two characters longer than a printable string without single, or without double, quotes. |
| Vectors.AddVectors | asm/eval.c:92-135 | The merging loop equals the recursive merge, with its treatment of segment bases. |
| Vectors.AddCoefficients | asm/eval.c:92-135 | In the sum of two ordered forms every coefficient is the sum of the coefficients, modulo 2^64, and the form is ordered. |
| Vectors.ScalarMult | asm/eval.c:149-163 | Scales the stored vector in place, up to its end. |
| Vectors.ScaledCoefficients | asm/eval.c:149-163 | Every coefficient is multiplied, modulo 2^64. |
| Vectors.ScanSimple | asm/exprlib.c:16-50 | The scan decides whether the non-zero terms are a scalar, with or without a far-absolute segment. |
| Vectors.ScanValue | asm/exprlib.c:134-144 | The scan finds the scalar among the non-zero terms. |
| Grammar.PrintedParses | asm/eval.c:236-262 | For any operators and any meaning of them: the printed form of every tree that the levels of the grammar allow is parsed to the value of that tree, with the limit on operands and the error flag as the tree tells. |
| Grammar.ParsedIsPrinted | asm/eval.c:236-262 | Whatever is parsed is the printed form of such a tree, and the outcome is that of the tree. |
| Evaluate.Evaluator.Cexpr | asm/eval.c:271-306 | The conditional of the evaluator, with its cursor and counters, is the parser at the loosest level. |
| Evaluate.Evaluator.Chain | asm/eval.c:308-662 | The loops of the binary levels are the parser at their level. |
| Evaluate.Evaluator.Expr6 | asm/eval.c:787-978 | Operands, signs, negations and parentheses are the parser at the tightest level. |
| Evaluate.Evaluator.Evaluate | asm/eval.c:980-1040 | The whole evaluation, with its copy of the result, is one parse. |
| Precedence.Groups | asm/eval.c:236-262 | For the operators in the rows of the documented grammar and any three operands (values, anything in parentheses, and unary operators on them): the operator of the later row is applied first, and of one row the first one, with all errors kept. |
| Precedence.CondGroups | asm/eval.c:271-306 | Every operator binds tighter than the conditional on each of its sides; a conditional in a branch needs no parentheses, and one at the end belongs to the last branch. |
| Precedence.UnaryRead | asm/eval.c:787-978 | The sign, the complement and the logical negation of a number, by the token. |
| Precedence.EvaluateChain | asm/eval.c:236-1040 | The evaluator itself on two operators between three values. |
| Numbers.AppliedIff | asm/eval.c:387-662 | On numbers, as the vectors that stand for them, an operator gives what `Words.IsResult` asks for exactly if it is no comparison whose difference wraps and no `<=>` of a smaller number. Shifts and bitwise operators are asked for bit by bit, divisions by the laws of quotient and remainder, sums, differences and products modulo 2^64, comparisons by order and sign, logical operators by which operands are zero. |
| Numbers.CombineIff | asm/eval.c:387-662 | Of all 64-bit numbers, the one that is computed is the only one that is asked for. |
| Words.BitsIff | asm/eval.c:387-591 | The same of shifts and bitwise operators, with the sign bit going on for ever. |
| Words.SignedDivision | asm/eval.c:593-662 | The truncated quotient is the only one with a remainder below the divisor and on the side of the dividend. |
| Numbers.PrintedMeaning | asm/eval.c:236-1040 | The printed form of a tree over numbers is evaluated to the meaning of the tree without error, as the operators group, provided it has a meaning and is within the limit. |
| Numbers.WrongLess | asm/eval.c:387-449 | The smallest number is not less than the largest one. |
| Numbers.WrongThreeWay | asm/eval.c:387-449 | `1 <=> 2` is unknown. |
| Transcode.DecodeIff | asm/strfunc.c:16-297 | The automaton accepts a byte string, and gives these code points, if and only if it is their shortest encoding and the form admits them. |
| Transcode.StringTransform | asm/strfunc.c:306-329 | Both runs of the transcoder, the one that measures and the one that writes, agree: fails exactly for what the automaton rejects, and otherwise fills the buffer with the emitted units. |
| Transcode.StandardIff | asm/strfunc.c:86-159 | The output is that of the standard exactly if the form is not UTF-16BE or all code points are in the basic plane. |
| Transcode.TransformMeaning | asm/strfunc.c:16-297 | Both together, from code points to units. |
| Transcode.EmittedReadBack | asm/strfunc.c:16-297 | A standard reader gets every admitted code point back from what is emitted, but none in UTF-16BE beyond the basic plane. |
| Transcode.SwappedSurrogates | asm/strfunc.c:86-159 | What UTF-16BE makes of U+10000. |
| Conditionals.Source.Directive | asm/preproc.c:4866-4971 | Every directive moves the stack as its definition says, and evaluates a condition only in the states that call for it. |
| Conditionals.Source.ExitMacro | asm/preproc.c:4240-4271 | Suppresses exactly the lines up to the end that is left, or counts an error if there is none. |
| Conditionals.Source.ReadAll | asm/preproc.c:8909-8970 | Reading all lines is the run over them. |
| Conditionals.AlwaysLive | asm/preproc.c:601-632 | In every run over any lines, well nested or not: if the innermost condition is emitting, all are; no condition is evaluated and no line put out in dead code. |
| Conditionals.SourceLive | asm/preproc.c:601-632 | In particular in a run from the start of a source. |
| Conditionals.ProgramMeaning | asm/preproc.c:4866-4971 | Nested blocks put out, and evaluate, exactly what first-true-branch semantics says, in order, with an empty stack and no error at the end. |
| ErrorHolds.Errors.Push | asm/error.c:493-503 | Opens an empty hold. |
| ErrorHolds.Errors.Error | asm/error.c:559-597 | Appends a message to the innermost hold, or issues it; the lists of the others stay. |
| ErrorHolds.Errors.Pop | asm/error.c:506-547 | Splices the list onto the one outside, issues it, or drops it; the linked lists stay disjoint and in order. |
| ErrorHolds.NestKeeps | asm/error.c:493-597 | In every balanced run, a nest of holds amounts to the messages that are kept on all levels, in order, whatever comes after. |
| ErrorHolds.FinallyIssued | asm/error.c:493-597 | At the end just these messages were issued, and no hold is open. |
| ErrorHolds.PopSeverityIff | asm/error.c:506-547 | The severity returned is the worst of the hold unless the hold is nested, is kept, and has a severe message: what moves to the outer hold is neither issued nor dropped, and does not count. |
| ErrorHolds.SeverityLost | asm/error.c:506-547 | Such a hold, with one message. |
| ErrorHolds.WorstIsGreatest | asm/error.c:506-547 | The worst severity of a list of messages is that of one of them, and no other is worse. |
| SyncHeap.Heap.AddSync | disasm/sync.c:43-66 | Adds the entry to the multiset of entries, or drops it when memory ran out; the heap order is kept. |
| SyncHeap.Heap.NextSync | disasm/sync.c:68-100 | Removes expired entries only, and none above the one that is returned, which is not expired and the least of all that remain; nothing remains exactly if the heap is empty. |
| SyncHeap.LeastOfAll | disasm/sync.c:17-20 | In heap order the root is the least entry. |
| SyncHeap.ExpiredIff | disasm/sync.c:68-100 | Expiry means that the region ends at or before the position, unless its end wraps around and the wrapped end does. |
| SyncHeap.WrappedEntry | disasm/sync.c:68-100 | A region across the end of the address range expires too soon. |
| Labels.LabelTable.FindLabel | asm/labels.c:196-240 | Finds the entry under the full name, and makes a fresh one if there is none. |
| Labels.LabelTable.LookupLabel | asm/labels.c:242-261 | Gives the value of a defined label, and notes the reference. |
| Labels.LabelTable.DeclareLabel | asm/labels.c:390-443 | Changes the type as its definition says, or reports a conflict. |
| Labels.LabelTable.DefineLabel | asm/labels.c:455-568 | The whole new table: new values, the count of changes, the base of local labels, errors and symbols put out. |
| Labels.LabelTable.OutSymdef | asm/labels.c:122-189 | The symbols that are put out, and the entry after that. |
| Labels.PassSame | asm/labels.c:242-568 | In a pass of any calls that counts no change, all labels keep their values, none is newly defined, and everything that was looked up or put out on the way has the value that stands in the table at the end. |
| Labels.UndefinedIff | asm/labels.c:390-568 | In a pass of any calls, a label that is defined at some point is undefined in the end if and only if it is declared global or common while external or required, and not defined after that. |
| Labels.PassKeepsDefinedIff | asm/labels.c:390-568 | In a pass that counts no change, a defined label stays defined if and only if there is no such declaration at all. |
| Labels.Undefines | asm/labels.c:390-443 | A declaration as global after one as extern makes the label undefined, and no change is counted. |
| Labels.DefinedIsFound | asm/labels.c:242-568 | A label that is defined in a segment is found there at its offset, a common one at zero with its size, and every other label is as it was. |
| Labels.OwnSegments | asm/labels.c:484-495 | Labels without a segment get their own, two apart, and keep them. |
| Labels.RedefinedIff | asm/labels.c:526-550 | A second definition in one pass is an error exactly if the value differs. |
| Labels.LocalsFollow | asm/labels.c:196-240 | A local name belongs to the last label that set the base. |
| Labels.ExternThenDefined | asm/labels.c:390-568 | What is declared external and then defined is global. |
| PassDriver.Driver.AssembleFile | asm/nasm.c:1811-1949 | The passes run are a prefix of first, optimising, stabilising, final; every optimising pass but the last found changes; errors are reported exactly by the last pass that ran; without errors the schedule is complete and the final pass found no change; and the number of passes is bounded by the changes of the second pass and the limit on stalls. |
| PassDriver.PassesBounded | asm/nasm.c:1890-1925 | The bound on the passes that go on. |
| DataOperands.LenExtops | asm/assemble.c:1220-1255 | The recursive length, with repeats and padding. |
| DataOperands.Output.OutEops | asm/assemble.c:801-869 | What is put out for an operand list, appended to what was. |
| DataOperands.TextThenZeros | asm/assemble.c:794-869 | A text is put out whole, and then zeros up to the next multiple of the element size. |
| DataOperands.NumberFilled | asm/assemble.c:801-869 | A number of up to eight bytes fills its element with its bytes, lowest first; a larger one is left out. |
| DataOperands.LowBytesRead | asm/assemble.c:801-869 | Those bytes read as the number. |
| DataOperands.RepeatAt | asm/assemble.c:801-869 | A repeat count puts the same bytes out again and again. |
| DataOperands.LengthIff | asm/assemble.c:801-1255 | For every list as the parser makes it, the length is the number of bytes put out if and only if no number at any depth is bigger than eight bytes. |
| DataOperands.OversizedNumber | asm/assemble.c:801-869 | A `dt 0` has length ten and puts out nothing. |
| DataOperands.ParseEops | asm/parser.c:391-625 | Flattening single elements, dropping empty ones and joining reserved space do not change what the operands put out, and leave no operand in vain. |

## Left out

- FloatConst.Converter.FloatConst: decimal floating-point constants (`ieee_flconvert`, asm/floats.c:167-360) are not part of this model, so the method asks for one of the other kinds.
- FloatConst.ProducedIsNearestIff: only for rounding to nearest without flushing of denormals; what the other modes produce is stated by `Rounding.IeeeRound` and `Floats.Floats.PackNumber`.
- Assemble.Instruction.CalcSize: which instruction matches (`find_match`, `jmp_match`) is not modelled, nor are its warnings; relaxed jumps and their sizes are an input.
- Assemble.Instruction.GenCode: of immediates, relocations and the `\172` byte there is the number of bytes, not the value; of the bits of an EVEX prefix, zeroing, the mask register, {nf} and {zu} come from the template alone.
- RoundTrip.AssembleAndRead: the W bit of EVEX is read, but said of REX and VEX only. The templates of the instruction table are assumed to be in order (`Ordered`, `TemplatesOk`, `Readable`).
- EaEncoding.Insn.ProcessEa: the register tables are replaced by a kind and a number for each register, and expressions by a base, an index, a scale and an offset (`parse_mref` is not modelled).
- Evaluate.Evaluator.Evaluate: SEG, WRT, register hints, floating-point, string and integer functions as operands are `Other` tokens or atoms; the token scanner is an input.
- Numbers.AppliedIff: shift counts beyond 63 have no meaning in C and are excluded; a negative count is an unknown value.
- Vectors.AddVectors: operates on sequences instead of the shared temporary pool; reallocation of that pool is not modelled.
- DataOperands.ParseEops: lists are values instead of linked nodes, and tokens are already parsed items.
- Conditionals.Source.ReadAll: the lines of repeated blocks and macros are taken in place, so re-expansion of `%rep`, definition of macros and file inclusion are not modelled, and the evaluation of conditions is an input.
- ErrorHolds.Errors.Fatal: the program would end after it; the model goes on.
- SyncHeap.Heap.AddSync: at capacity the code reallocates the array and does not keep the new one (disasm/sync.c:48-57), which leaves the next store undefined; the method covers all other cases, with an allocation that fails as one of them.
- Labels.LabelTable.DefineLabel: special symbol strings, name mangling and back-end labels (`handle_herelabel`, `mangle_label_name`) are not modelled.
- Labels.LabelTable.DeclareLabel: the special strings of declarations, and their comparison, are not modelled.
- Labels.LabelTable.OutSymdef: hands on the label's own name, without mangling and special strings.
- PassDriver.Driver.AssembleFile: what a pass does is an input, as the changes and errors that it finds.
- Counters and offsets that the code keeps in 64 bits or `size_t` do not overflow, except where a member says so.
- Listings, output formats, debug information, file access and the macro processor beyond conditionals are left out, as are the random-access arrays and hash tables.
- The disassembler beyond operands and prefixes is left out: instruction matching and printing.

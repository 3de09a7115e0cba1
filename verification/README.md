# smips: assembler, disassembler and emulator

A Dafny model of smips, a MIPS assembler, disassembler and emulator written in C++, with proofs about
the whole path of a program: source text, lexed lines, expanded and resolved text, machine words,
bytes in memory, and runs of the emulator.

    dafny verify dfyconfig.toml

## What is modelled

- `Words`, `Source`, `Arithmetic`: 32-bit words with their unsigned and signed readings (converted byte by
  byte), the lexer's records, the symbol table and the source info, which are classes changed in place, and
  what the operations on words compute in terms of the numbers they hold.
- `Layout`, `Scanner`, `Lexer`: the lexer. `Scanner` and `Layout` say as functions what is read from a
  text and what the lines become (pseudo-op expansion, addresses, labels, resolution); the class
  `Lexer.Lexer` walks the text with its cursor, token buffer and address counters, and every method is
  proved against those functions. All its loops terminate, with the unread characters as the measure,
  but for a comment that no newline ends, whose loop is a fault of the model; the token buffer is never
  indexed out of bounds.
- `Termination`: which texts lex to an end. The lexer fails exactly when a pass of its main loop does; a
  comment is fatal only when the cursor enters it, so a text may end with an open one that a separator skip
  consumes; the text of a file never enters an open one.
- `Isa`: the reference meaning of the instructions at operand level, after section 3.2 of MIPS32
  Architecture For Programmers, Volume II, and a machine that runs resolved text by address. Branch
  offsets are byte distances from the branch and jump operands absolute addresses, as label resolution
  makes them; there are no delay slots.
- `Addresses`, `Resolution`, `PseudoOps`, `Simulation`: the address invariant of the lexer, label
  resolution, and the meaning of expansion. The main result is a simulation of whole runs.
- `Halting`: a source and its expansion stop together, at a division by zero or past the last line; only at
  a `jr` can the expansion go on alone.
- `Encoding`, `Assembler`, `Disassembler`, `Reassembly`: the instruction words. Encoder and decoder are
  inverse up to three named exceptions, over all operations, operands and programs, and a disassembled
  program runs as the original does.
- `Program`, `DataCache`, `Cpu`, `State`: the program image and file, the memory, and the emulator. The
  five stages are functions on a `Cpu.Snapshot`; the class `State.State` has the fields of the C++ struct
  and works in place. A stage without defined behaviour in C++ has no successor.
- `Agreement`, `RunSafety`, `HiLo`, `EndToEnd`: the two decoders compared, what runs of the emulator keep,
  truncating arithmetic, and straight-line programs from listing to registers.
- `Instructions`, `AssembledLines`: the meaning of every fetched word in numbers (result, destination,
  memory, HI, LO, counter, and where a tick is undefined), the same by operands for every operation the
  assembler encodes, and for the reference machine.
- `SourceRuns`: the whole path joined up. A straight-line source, with labels, data lines, `la` and `li`, is
  expanded, resolved, assembled, loaded anywhere and run by the emulator, and leaves the registers of the
  source.
- `Emulation`: where the emulator and the instruction set part, each with its exact condition.
- `Mnemonics`, `Operands`, `PrintedLines`, `DataLines`, `Listings`: the lexer against a printer with tables
  of its own. Names of operations, directives and registers, operand lists in every pattern and with
  operands of the wrong kind, the lists, strings and characters of the data directives, and whole listings
  with labels, directives, blanks, comments and empty lines.
- `DataImage`, `PrintedPrograms`: printed listings through lexer and assembler. The segment each line is
  read in, the addresses of its labels, the bytes of its data, and which listings are in error.
- `ParsedLines`, `DataSegments`, `Contiguity`: what the parser guarantees of its lines, the tiling of data
  segments, and which programs survive a save and a load.
- `Toolchain`: lexer and assembler put together, and the simulation carried through to machine words.

## Where the code is not what one expects

The model keeps the code as it is. Each of these is proved or bounded exactly:

- The emulator's `decode` masks `rd` with 0xF700 and `shamt` with 0x3E0: exact only for even registers and
  for shifts below 16 (`Agreement.RdAgrees`, `Agreement.ShamtAgrees`).
- The disassembler drops bit 24 of a jump target, swaps the registers of `beq` and `bne`, and does not know
  `xor` (`Encoding.EncodeDecode`, `Encoding.ReassembledKeeps`). `srl` has no code and assembles to the word
  of `sll`; operations with no format assemble to a zero word.
- The emulator does not sign-extend immediates: `addi` and `addiu` (`EndToEnd.AddImmediate`), `slti` and
  `sltiu` (`Emulation.SetImmediate`, `Emulation.SetUnsignedImmediate`), the offsets of loads and stores
  (`Emulation.AddressMisses`), and what `lb` and `lh` load (`Emulation.LoadsSign`).
- It multiplies in 32 bits (`HiLo.MultProduct`, `HiLo.MultuProduct`), writes back the old ALU register after
  instructions without a result, which are the branches, `mult`, `multu`, `div`, `divu`, `mthi`, `mtlo`,
  `jr` and unknown codes (`Emulation.NoResultOverwrites`; `Emulation.ZeroOverwritten` for assembled
  multiplications), shifts right arithmetically for `srl` (`Emulation.ShiftIsLogical`), takes the logical
  not for `nor` (`Emulation.NorIsBitwise`), and stores words least significant byte first but loads them
  most significant byte first (`Emulation.StoreThenLoad`).
- Its branches and its jumps, `j` and `jal`, count from another place than the assembler's
  (`Emulation.BranchMisses`, `Emulation.JumpMisses`). The assembler puts the register of `jr` in the rd
  field and the emulator reads rs (`Emulation.JrMisses`); `jalr` assembles to the zero word
  (`Emulation.JalrIdles`).
- An operand closed by a parenthesis that was never opened is not recognised, and one that starts with an
  offset of several digits is read as a literal (`Operands.ExtractPrinted`, `Operands.ClassifyPrinted`).
- A standalone label adds an entry to the text without moving the text address, so a program with one
  before other text does not survive a save and a load (`Contiguity.SaveLoadLexed`).
- `.word` and `.half` store one byte a literal, and `.asciiz` stores no terminating NUL. When a newline or a
  comment directly follows the last literal of a `.half` line, that literal is not stored
  (`DataLines.ListEnds`). When only white space does, the first token of the next line is taken: `.half`
  loses it without a mark, and `.word` marks its own line or keeps a literal (`DataLines.ListTakesToken`). A
  comment after white space puts a `.word` line in error (`DataLines.ListThenComment`). The bytes of `.half`
  never reach the program (`DataImage.SegmentBytes`).
- `.byte` stores a digit after a single quote and marks the line; a character between two quotes is an error
  (`DataLines.ByteRead`). Its segment gets the address after its bytes (`DataImage.LateAddress`).
- An operand that should be a register and is not is dropped without an error
  (`PrintedLines.RegistersUnchecked`); a wrong immediate is marked (`PrintedLines.ImmediateChecked`,
  `PrintedLines.ThirdChecked`).
- A label on the line of a `mul`, `la` or `li` is in the symbol table but on no line of the expansion
  (`Addresses.ExpansionKeeps`).
- The string of `.asciiz` ends at the first blank, separator or comment inside the quotes, the last
  character before that is taken for the quote, and nothing is marked (`DataLines.AsciizStores`). The rest
  is parsed as another line (`DataLines.AsciizRest`); of the `"Hello World\n"` of `asm/example_prog.asm`,
  "Hell" is stored (`DataLines.HelloWorld`).
- A newline at the very start of the text is not counted as a line (`Listings.ListingRoundTrip`).
- A label on the line of a data directive is recorded before the directive changes the mode: in text mode it
  gets a text address (`DataSegments.DirectiveLabels`).
- The comment in the expansion of `la` says that both halves carry the whole value; the code splits a
  literal operand (`src/tools/Lexer.cpp:1404-1453`), and the model follows the code.
- The table of mnemonics has no entry for `sub`, `subu` and `sb`, so no source text yields them
  (`ParsedLines.MissingMnemonics`); the assembler and the emulator know `sub` and `subu`, and the results
  about words and runs cover those two.
- `addu`, `sllv`, `srl`, `srv`, `lb`, `lbu`, `lh`, `lhu` and `sh` are in the table but have no case in the
  parser: their lines get the error mark and no operands (`ParsedLines.UnparsedOps`,
  `ParsedLines.UnparsedLine`), and the assembler program stops at the mark (`Toolchain.Compile`).
- A comment the lexer comes to that no newline ends runs past the end of the text
  (`Termination.OpenNeverEnds`, `Termination.TokenOpens`), which the model takes for a fault. The C++
  position has 32 bits and wraps: its loop ends after that exactly when the text has a newline anywhere
  (`Termination.WrappedLoopEnds`).

## Model

| member | source | states |
|---|---|---|
| Simulation.Simulation | src/tools/Lexer.cpp:944-1518 | Whole-program correctness of expansion and resolution: every n-step run of the source lines (pseudo-ops atomic, labels naming lines) is matched by a run of the emitted, resolved text from the corresponding address, ending at the address of the line reached and agreeing on all registers but $at, on HI and LO and on memory |
| Simulation.SimulationFromStart | src/tools/Lexer.cpp:1524-1555 | The same from the first line and the text base, with any initial registers and memory |
| Simulation.SimulateStep | src/tools/Lexer.cpp:1290-1518 | One source line of any supported kind is matched by the run of exactly the instructions it emitted |
| Simulation.SimulatePairBranch | src/tools/Lexer.cpp:1331-1380 | bgt, blt, bge, ble and bgtu: compare and branch together go where the source line goes |
| Simulation.SimulateSingleBranch | src/tools/Lexer.cpp:1224-1232 | beq, bne and beqz with a near label go to the line of that label exactly when the condition holds |
| Simulation.SimulateJump | src/tools/Lexer.cpp:1234-1241 | j, jal and jr go to the line the label or the register stands for, and jal links to the next line's address |
| Simulation.SimulateLa | src/tools/Lexer.cpp:1404-1453 | la, expanded and resolved, is one load of the label's address |
| Simulation.SimulateLi | src/tools/Lexer.cpp:1455-1505 | li, in either expansion, is one load of its literal |
| Simulation.SimulateMul | src/tools/Lexer.cpp:1304-1329 | mul leaves the low product word in its destination and the whole product in HI and LO |
| Simulation.SimulatePlain | src/tools/Lexer.cpp:941-957 | Any other supported instruction is emitted as itself and runs as itself |
| Simulation.FetchEmitted | src/tools/Lexer.cpp:941-957 | At the address of the j-th instruction of a line the text holds that instruction, resolved, and no other comes first |
| Simulation.EarlierAddrs | src/tools/Lexer.cpp:1290-1518 | Instructions placed before a line have smaller addresses than it |
| Simulation.BranchResolved | src/tools/Lexer.cpp:1224-1232 | A resolved branch to a near label leads to the address of the label's line |
| Halting.StepExact | src/tools/Lexer.cpp:944-1518 | In related states, the instructions of a line have a run exactly when the line has a next state or is a jr |
| Halting.SourceStuck | src/tools/Lexer.cpp:944-1518 | At any other line the source has no next state exactly when it divides by zero or is past its last line |
| Halting.StuckTogether | src/tools/Lexer.cpp:944-1518 | Where the source is stuck, away from a jr, the machine is stuck, past the last line included |
| Halting.JrGoesOn | src/tools/Lexer.cpp:1234-1241 | The instruction of a jr always goes to the address in its register, a line's or not |
| Halting.StopTogether | src/tools/Lexer.cpp:944-1518 | A source without jr that cannot run n steps stops exactly where its expansion stops |
| Toolchain.Compile | tools/assem.cpp:103-131 | A fresh lexer and an assembler turn any text without a line in error into the words of its resolved lines and the segments of its data lines; a line in error stops before assembling, and a fault of the lexer is reported |
| Toolchain.HasError | src/tools/Source.cpp:911-922 | Says exactly whether some text line is in error |
| Toolchain.CompiledRuns | src/tools/Lexer.cpp:1524-1555 | The simulation carried through to machine words: the listing disassembled from the assembled words matches every run of the source, given no xor, no sll that is the zero word, and code below 2^26 |
| Toolchain.TextFaithful | src/tools/Assembler.cpp:220-310 | Every resolved line of such a source has a word that keeps its meaning |
| PseudoOps.BranchPairDecides | src/tools/Lexer.cpp:1331-1380 | For all register values, even when a source register is $at, the slt or sltu changes only $at and the branch after it is taken exactly when the signed (or, for bgtu, unsigned) comparison holds |
| PseudoOps.CompareBitDecides | src/cpu/State.cpp:265-271 | The bit of slt or sltu on the operands in the emitted order is the comparison of the numbers the registers hold |
| PseudoOps.BeqzDecides | src/tools/Lexer.cpp:1382-1402 | The emitted beq against $zero is taken exactly when the register holds zero |
| PseudoOps.LiLoads | src/tools/Lexer.cpp:1455-1505 | li leaves exactly its literal, for every literal from 0 to 2^31 - 1, on both sides of the 65535 split |
| PseudoOps.LaLoads | src/tools/Lexer.cpp:1199-1222 | la, after resolution, leaves exactly the 32-bit address of its label, or its literal |
| PseudoOps.MulMultiplies | src/tools/Lexer.cpp:1304-1329 | mult then mflo have the effect of mul |
| Addresses.TextAddrCounts | src/tools/Lexer.cpp:96-99 | Over every prefix of a run of the lexer, the text address is the base plus four bytes an instruction line emitted |
| Addresses.EmitAddrs | src/tools/Lexer.cpp:1290-1518 | Every line of an emission, both halves of an expansion included, carries the text address at its own emission |
| Addresses.EmitLength | src/tools/Lexer.cpp:1290-1518 | The text address moves by four bytes for each line an expansion emits, whatever the address |
| Addresses.ExpansionOps | src/tools/Lexer.cpp:1290-1518 | The instructions each pseudo-op becomes; li has one up to 65535 and two above |
| Addresses.ExpansionKeeps | src/tools/Lexer.cpp:1290-1518 | Every line of an expansion has the number of its source line; the label stays on the first line of a branch and is lost with the others |
| Addresses.EmittedAt | src/tools/Lexer.cpp:941-957 | What a line emitted is found in the finished text where it was put, with the address it was given |
| Addresses.PrefixGrows | src/tools/Source.cpp:825-836 | Lines and symbols once recorded stay in place |
| Addresses.LabelPointsToNext | src/tools/Lexer.cpp:1105-1169 | A label recorded in text mode has the address of the next instruction of the finished text, or the final text address when none follows |
| Addresses.SymbolTableIsFirst | src/tools/Source.cpp:789-798 | The symbol table gives every label the address recorded at its first definition, and 0 to undefined names |
| Addresses.LabelRecorded | src/tools/Lexer.cpp:1134-1148 | A labelled line, and no other, adds one symbol, with the address and segment of the mode before it |
| Resolution.ResolveIdempotent | src/tools/Lexer.cpp:1174-1267 | Resolving the labels twice is resolving them once |
| Resolution.ResolveUsesFirst | src/tools/Lexer.cpp:1174-1267 | A line changes only if it names a symbol the source defines, gets the address of the first definition, and keeps everything but its arguments |
| Resolution.PatchNumbers | src/tools/Lexer.cpp:1195-1246 | The numbers resolution puts in the arguments: halves for lui and ori by their marks, the low half of the distance for branches, the address for all others |
| Resolution.OffsetReaches | src/tools/Lexer.cpp:1224-1232 | Address plus sign-extended 16-bit offset is the label's address exactly when the distance fits 16 signed bits, and equal modulo 2^16 always |
| Source.AddrOfSymbolAppend | src/tools/Source.cpp:761-764 | A symbol added later never hides an earlier one of the same name |
| Source.SymbolTable.Add | src/tools/Source.cpp:761-764 | Appends the symbol |
| Source.SymbolTable.GetAddr | src/tools/Source.cpp:789-798 | Finds the address of the first symbol with the name; 0 when there is none |
| Source.SourceInfo.Init | src/tools/Source.cpp:925-929 | Drops all lines |
| Source.SourceInfo.AddText | src/tools/Source.cpp:825-828 | Appends a text line and touches no data line |
| Source.SourceInfo.AddData | src/tools/Source.cpp:833-836 | Appends a data line and touches no text line |
| Source.SourceInfo.Update | src/tools/Source.cpp:841-845 | Replaces one text line; an index past the end changes nothing |
| Source.SourceInfo.GetText | src/tools/Source.cpp:869-875 | The line at an index, the null line past the end |
| Source.SourceInfo.GetData | src/tools/Source.cpp:858-864 | The data line at an index, the null data line past the end |
| Lexer.Lexer.constructor | src/tools/Lexer.cpp:24-51 | A new lexer has no symbols and is in text mode |
| Lexer.Lexer.LoadSource | src/tools/Lexer.cpp:1592-1594 | The text is the one given |
| Lexer.Lexer.Advance | src/tools/Lexer.cpp:113-125 | Moves one character on, counts a line when it lands on a newline, and reads NUL past the end |
| Lexer.Lexer.SkipWhitespace | src/tools/Lexer.cpp:139-151 | Stops at the first character that is not white space |
| Lexer.Lexer.SkipCommentChars | src/tools/Lexer.cpp:156-160 | Stops at the newline that ends the comment; a comment without one is the fault of an endless loop |
| Lexer.Lexer.SkipSeparatorChars | src/tools/Lexer.cpp:165-177 | Stops at the first character that is not a separator |
| Lexer.Lexer.CopyChars | src/tools/Lexer.cpp:202-228 | The copy loop: the buffer receives the token's characters and a NUL, within its 512 cells, and the cursor stops after them |
| Lexer.Lexer.ScanIntoBuffer | src/tools/Lexer.cpp:202-234 | The buffer holds the token the text has at the cursor, and the cursor is past it |
| Lexer.Lexer.ExtractLiteral | src/tools/Lexer.cpp:241-266 | The longest run of digits from an index, and where it ends |
| Lexer.Lexer.ExtractRegister | src/tools/Lexer.cpp:274-346 | The parenthesis-counting loops give the register token, the token of no type, or the pop of an empty stack |
| Lexer.Lexer.GetToken | src/tools/Lexer.cpp:355-477 | The next token of the text, classified, with errors marked on the line |
| Lexer.Lexer.ReadRegister | src/tools/Lexer.cpp:1068-1083 | A register argument with its offset |
| Lexer.Lexer.ReadImmediate | src/tools/Lexer.cpp:1088-1100 | A literal, a label, or no argument |
| Lexer.Lexer.ReadR | src/tools/Lexer.cpp:961-965 | One register operand |
| Lexer.Lexer.ReadI | src/tools/Lexer.cpp:967-978 | One immediate operand, with its symbol |
| Lexer.Lexer.ReadRR | src/tools/Lexer.cpp:980-988 | Two registers, and the offset of the second when it is positive |
| Lexer.Lexer.ReadRI | src/tools/Lexer.cpp:990-1009 | A register and an immediate or symbol |
| Lexer.Lexer.ReadRRO | src/tools/Lexer.cpp:1011-1021 | Two registers and the offset of the second, 0 without one |
| Lexer.Lexer.ReadRRI | src/tools/Lexer.cpp:1023-1050 | Two registers and an immediate, symbol or offset |
| Lexer.Lexer.ReadRRR | src/tools/Lexer.cpp:1052-1057 | Three registers |
| Lexer.Lexer.ReadInstr | src/tools/Lexer.cpp:795-940 | The operation of the mnemonic with its operands in its pattern, and its marks; `Mnemonics` and `Listings` say which these are for each mnemonic |
| Lexer.Lexer.ReadAsciiz | src/tools/Lexer.cpp:492-524 | The bytes between the quotes; the start is recorded and the data address moves by their number |
| Lexer.Lexer.ReadByte | src/tools/Lexer.cpp:529-554 | One clipped byte, or an error, or the exception of the number conversion |
| Lexer.Lexer.ReadHalves | src/tools/Lexer.cpp:559-600 | A clipped literal a byte, to the end of the line; terminates |
| Lexer.Lexer.ReadWords | src/tools/Lexer.cpp:606-640 | A literal a byte, to the end of the line or the first token that is not one; terminates |
| Lexer.Lexer.ReadSpace | src/tools/Lexer.cpp:647-671 | The number of reserved bytes; the data address moves by it |
| Lexer.Lexer.ReadDirective | src/tools/Lexer.cpp:712-789 | The data line of a directive with its address, appended, or the change of segment, which `DataImage.ModeLaw` states by name |
| Lexer.Lexer.ExpandPseudo | src/tools/Lexer.cpp:1290-1518 | Appends exactly the expansion of the pseudo-op and moves the text address by four bytes a line |
| Lexer.Lexer.PlaceInstr | src/tools/Lexer.cpp:941-957 | Appends the line or its expansion at the text address |
| Lexer.Lexer.ReadLine | src/tools/Lexer.cpp:1105-1169 | One line of the text: label recorded, body placed; strictly consumes text |
| Lexer.Lexer.ResolveLabels | src/tools/Lexer.cpp:1174-1267 | Rewrites every line in place as resolution says, against the whole symbol table |
| Lexer.Lexer.PatchLine | src/tools/Lexer.cpp:1195-1246 | The arguments each kind of line gets from a label address |
| Lexer.Lexer.Lex | src/tools/Lexer.cpp:1524-1555 | On every text, the output is the placed lines of the text, resolved, forward references included, or the fault that stops the lexer, an entered comment without an end among them |
| Termination.LexingEnds | src/tools/Lexer.cpp:1524-1555 | A text in which every comment character has a newline after it lexes to an end or to an exception |
| Termination.FileClosed | src/tools/Lexer.cpp:1561-1587 | The text built from the lines of a file, each with a newline and a NUL at the end, is such a text, whatever the lines |
| Termination.FileLexingEnds | src/tools/Lexer.cpp:1561-1587 | So no file makes the lexer loop for ever |
| Termination.LexingFails | src/tools/Lexer.cpp:1524-1555 | For every text and fault, lexing fails with the fault if and only if some pass of the main loop does |
| Termination.OpenNeverEnds | src/tools/Lexer.cpp:156-160 | Whatever was read before, coming to a comment character with no newline ahead ends in the fault of an open comment |
| Termination.TokenOpens | src/tools/Lexer.cpp:202-228 | A token scan meets that fault exactly when its characters run into a number sign with no newline ahead, within the buffer |
| Termination.WrappedLoopEnds | src/tools/Lexer.cpp:113-125 | With the 32-bit position wrapping, the comment loop ends if and only if the text has a newline anywhere |
| Termination.SeparatorEatsComment | src/tools/Lexer.cpp:165-177 | After any white space and separators, semicolons among them, the next token is read as one, newline ahead or not |
| Termination.SeparatorExample | src/tools/Lexer.cpp:1524-1555 | A whole text with such a semicolon and no newline lexes to an end |
| Scanner.StoIOfDecimal | src/tools/Lexer.cpp:1068-1083 | Reading back a printed number gives it, or the out-of-range exception from 2^31 on |
| Scanner.NextTokenData | src/tools/Lexer.cpp:355-477 | Reading a token never touches the data line |
| Scanner.ScanToken | src/tools/Lexer.cpp:202-234 | Scanning never moves back, and moves on from any character that is neither space nor comment: the measure of termination |
| Scanner.ParseLine | src/tools/Lexer.cpp:1105-1169 | Every pass of the main loop consumes text |
| ParsedLines.LinesMarked | src/tools/Lexer.cpp:1105-1169 | Over every text: parsed lines are marked as pseudo-ops exactly when they are, standalone labels have no operation, .space lines no bytes; from a lower-case text all lines are regular |
| ParsedLines.RegularParsed | src/tools/Lexer.cpp:795-940 | Parsed lines meet the regularity the other results ask for exactly when every instruction line has an operation |
| ParsedLines.TilingParsed | src/tools/Lexer.cpp:712-789 | Parsed lines meet the condition of the tiling result exactly when their data comes from .word, .asciiz and .space |
| ParsedLines.InstrMarked | src/tools/Lexer.cpp:795-940 | An instruction line has the operation its mnemonic names, whatever operands follow |
| ParsedLines.MnemonicKnown | src/tools/Lexer.cpp:355-477 | A lower-case mnemonic token names an operation |
| Mnemonics.MnemonicFound | src/tools/Codes.hpp:69-133 | Every mnemonic, as written out for its operation, is looked up as that operation |
| Mnemonics.OtherNotFound | src/tools/Codes.hpp:69-133 | No other string is looked up as an operation |
| Mnemonics.DirectiveFound | src/tools/Codes.hpp:136-152 | Every directive is looked up as itself by its name |
| Mnemonics.UnknownDirective | src/tools/Lexer.cpp:712-722 | Any other name is taken for .align |
| ParsedLines.MissingMnemonics | src/tools/Codes.hpp:69-133 | No mnemonic names sub, subu or sb |
| ParsedLines.UnparsedOps | src/tools/Lexer.cpp:795-940 | Exactly which operations the parser has no case for |
| ParsedLines.UnparsedLine | src/tools/Lexer.cpp:795-940 | On every text, a line with such an operation has the error mark and no operands |
| Operands.NameRoundTrip | src/common/Register.cpp:71-97 | Looking up the name of a register gives its index, for all 32 |
| Operands.NamedRegisters | src/common/Register.cpp:71-97 | $zero, $at and $ra are the registers 0, 1 and 31 of the expansions and links |
| Operands.ScanPrinted | src/tools/Lexer.cpp:285-309 | The scan stops at the register name with the opened parentheses pending and the offset read |
| Operands.ExtractPrinted | src/tools/Lexer.cpp:274-346 | The operand parser undoes its printer for every register, offset and nesting, exactly when nothing is closed or something was opened |
| Operands.ClassifyPrinted | src/tools/Lexer.cpp:355-477 | The token classifier reaches the operand parser exactly when the operand does not start like a literal, and otherwise gives the literal |
| Operands.PrintedNumbers | src/tools/Lexer.cpp:1068-1083 | The argument gets the register's number and the offset's, -1 when there is none |
| PrintedLines.ArgsRead | src/tools/Lexer.cpp:961-1057 | The operands of every pattern are read into the arguments they were printed from: registers with any offset and parentheses the classifier accepts, literals and label names; the offset of the second register becomes the third argument where the pattern says so |
| PrintedLines.OperandRead | src/tools/Lexer.cpp:355-477 | A register, literal, label name or quoted string after a space is the next token, without an error |
| PrintedLines.RegistersUnchecked | src/tools/Lexer.cpp:1052-1083 | Three registers: an operand of any other kind leaves no argument and no error |
| PrintedLines.ImmediateChecked | src/tools/Lexer.cpp:990-1009 | A register and an immediate: the line is in error if and only if the immediate is neither a literal nor a label |
| PrintedLines.ThirdChecked | src/tools/Lexer.cpp:1023-1050 | The same after two registers |
| PrintedLines.TokenScanned | src/tools/Lexer.cpp:202-234 | A token is scanned whole before any blank, separator or closed comment, and a comma or the comment after it consumed |
| Listings.ListingRoundTrip | src/tools/Lexer.cpp:1524-1555 | Lexing the text of a printed listing gives its lines back with their numbers: lines carry operations and directives and print their names, with labels, operands in the pattern of each operation, and any blanks, comments and empty lines between them; each line read in the mode the lines before leave; every mnemonic, every directive but .byte, any number of lines |
| Listings.LineRead | src/tools/Lexer.cpp:1105-1169 | A printed line is parsed as the line it prints, its label on the text or the data line as the mode says, and the cursor stops at its end or past the comment there |
| DataLines.WordsRun | src/tools/Lexer.cpp:606-640 | For a list of any length, whatever ends it, the .word loop stores the low byte of each literal and goes on after the list |
| DataLines.HalvesRun | src/tools/Lexer.cpp:559-600 | The same for .half with clipped literals, but it stops before storing the last one when the line has ended with it |
| DataLines.ListEnds | src/tools/Lexer.cpp:559-640 | A list that a newline or a comment ends at once: .word stores n bytes, .half n - 1 |
| DataLines.ListThenComment | src/tools/Lexer.cpp:559-640 | With white space and a comment after the list both store n bytes, and .word is in error |
| DataLines.ListTakesToken | src/tools/Lexer.cpp:559-640 | With only white space up to the next line, the first token there is lost by .half without a mark, and by .word with one, unless it is a literal, whose byte .word stores |
| DataLines.AsciizStores | src/tools/Lexer.cpp:492-524 | For every string, .asciiz stores what comes before the first blank, separator, comment or NUL without the last character, and the whole string if and only if it has none and fits the buffer; there is no error mark either way |
| DataLines.AsciizRest | src/tools/Lexer.cpp:202-234 | The lexer goes on inside the string, at the character that cut it or after a comma |
| DataLines.HelloWorld | asm/example_prog.asm:11 | Of this string "Hell" is stored |
| DataLines.ByteRead | src/tools/Lexer.cpp:529-554 | .byte stores the digit after a single quote and marks the line, takes a closed character for an error, and meets the conversion exception otherwise |
| Listings.ListingClosed | src/tools/Lexer.cpp:1561-1587 | Every comment of the text of a listing is closed, operands and quoted strings included |
| DataSegments.SegmentsTile | src/tools/Assembler.cpp:317-345 | The assembled segments of .word, .asciiz and .space start at the data base, each where the last ended, and end at the data address |
| DataSegments.DataAddrCounts | src/tools/Lexer.cpp:101-104 | The data address is the base plus the bytes of the lines so far |
| DataSegments.AddrIsNextStart | src/tools/Lexer.cpp:712-789 | The data address before any line is the start of the next segment, or the end of the last |
| DataSegments.DataLabels | src/tools/Lexer.cpp:1134-1148 | A label recorded in data mode has the start of the next segment, and on a directive's line that directive's own |
| DataSegments.DirectiveLabels | src/tools/Lexer.cpp:1134-1148 | A label on a directive's own line is the start of its segment if and only if the line is read in data mode, for code below the data base |
| DataImage.SegmentBytes | src/tools/Assembler.cpp:317-345 | The assembled segment has the bytes of a .word, .asciiz or .byte line in order, then its reserved zeros; that of .half is empty |
| DataImage.LateAddress | src/tools/Lexer.cpp:785-787 | .byte and .half lines get the address after their bytes |
| DataImage.ModeLaw | src/tools/Lexer.cpp:712-764 | A line of a listing is read in data mode if and only if the last line before it that selects a segment is .data, a data directive or an unknown one, and not .text or an instruction |
| DataImage.PrintedLabel | src/tools/Lexer.cpp:1134-1148 | After such a line a label has 0x10000000 plus the data bytes before it, and otherwise 0x00400000 plus four bytes an instruction |
| DataImage.PrintedSegment | src/tools/Assembler.cpp:317-345 | The segment of a .word, .asciiz or .space line of a listing stands at the address of its label and holds the low bytes of its literals, its characters, or zeros, in order |
| DataImage.TextToSegment | tools/assem.cpp:103-131 | The same from the text of the listing |
| PrintedPrograms.PrintedCompiles | tools/assem.cpp:103-131 | The text of every listing lexes, and is in error if and only if it has one of the instructions the lexer knows and cannot parse |
| Encoding.DecodeEncode | src/tools/Disassembler.cpp:18-268 | Decoding an assembled word gives back operation and operand fields, for every operation both tables have and all operands; the zero word is the no-op |
| Encoding.EncodeDecode | src/tools/Assembler.cpp:71-310 | For every operation and all operands, assembling a disassembled word gives that word, but for beq and bne (rs and rt exchanged), j and jal (bit 24 cleared) and xor (the zero word) |
| Encoding.ReassembledKeeps | src/tools/Disassembler.cpp:70-85 | Reassembly keeps a word exactly when a branch has equal registers, a jump has bit 24 clear, and the operation is not xor |
| Encoding.ReassembledTwice | src/tools/Disassembler.cpp:70-85 | A second round restores branch words and changes nothing else |
| Encoding.OperandsRecovered | src/tools/Disassembler.cpp:18-231 | Operation and all in-range operands are recovered, up to the branch swap, the zero-word sll excluded |
| Encoding.WordsDistinct | src/tools/Assembler.cpp:220-310 | Two different lines with operands in range never share a word |
| Encoding.JumpInRange | src/tools/Disassembler.cpp:227 | A jump operand is in range exactly when it is word-aligned, below 2^28, with bit 26 clear |
| Encoding.ZeroIsSll | src/tools/Assembler.cpp:138-150 | Only sll of $zero by nothing into $zero assembles to the zero word |
| Encoding.XorDecodes | src/tools/Disassembler.cpp:99-166 | No xor word is recognised |
| Encoding.FieldsR | src/tools/Assembler.cpp:71-82 | The fields of an R word are the low five bits of the three operands, and the function code |
| Encoding.FieldsShamt | src/tools/Assembler.cpp:138-150 | The fields of a shift word |
| Encoding.FieldsI | src/tools/Assembler.cpp:155-170 | The fields of an I word |
| Encoding.FieldsJ | src/tools/Assembler.cpp:204-212 | The fields of a J word |
| Assembler.Assembler.AsmR | src/tools/Assembler.cpp:71-82 | The loop over operands ORs each in at its place |
| Assembler.Assembler.AsmRsRt | src/tools/Assembler.cpp:89-102 | The same for the two operands of multiplications and divisions |
| Assembler.Assembler.AsmRd | src/tools/Assembler.cpp:107-117 | The word with rd alone |
| Assembler.Assembler.AsmRs | src/tools/Assembler.cpp:122-132 | The word with rs alone |
| Assembler.Assembler.AsmShamt | src/tools/Assembler.cpp:138-150 | The word of a shift |
| Assembler.Assembler.AsmI | src/tools/Assembler.cpp:155-170 | The loop over operands with the immediate last |
| Assembler.Assembler.AsmIRt | src/tools/Assembler.cpp:176-186 | The word with rt and an immediate |
| Assembler.Assembler.AsmJ | src/tools/Assembler.cpp:204-212 | The word of a jump |
| Assembler.Assembler.AssembleText | src/tools/Assembler.cpp:220-310 | The word of any line by its format, at the line's address |
| Assembler.Assembler.AssembleData | src/tools/Assembler.cpp:317-345 | The bytes of a data line and its reserved space as zeros, at its address, byte by byte as `DataImage.SegmentBytes` says |
| Assembler.Assembler.Assemble | src/tools/Assembler.cpp:352-383 | One word a text line and one segment a data line, in order; a source without text leaves the program as it was |
| Disassembler.DisInstrDecodes | src/tools/Disassembler.cpp:240-268 | A disassembled line has the operation and the numbers the decoder reads |
| Disassembler.DisProgram | src/tools/Disassembler.cpp:274-288 | One line an instruction, in order, with its address |
| Reassembly.ProgramReassembles | src/tools/Disassembler.cpp:274-288 | For every program the assembler can build, disassembling and assembling keeps addresses and words but for the named exceptions, and when exactly a word is kept |
| Reassembly.ProgramReassemblesTwice | src/tools/Disassembler.cpp:274-288 | A second round brings branch words back and changes nothing else |
| Reassembly.BackSteps | src/tools/Disassembler.cpp:240-268 | Running the disassembly of a line is running the line, from every machine state, exchanged branch registers included |
| Reassembly.DisassembledKinds | src/tools/Disassembler.cpp:18-231 | The operands of a disassembled line are registers and literals where its format has them |
| Reassembly.DisassemblyRuns | src/tools/Disassembler.cpp:274-288 | A listing and its disassembly run alike for any number of steps from any state, when both tables know its words |
| Program.ByteImageAt | src/tools/Program.cpp:332-346 | The four bytes at the place of an instruction join to its word |
| Program.FileLayout | src/tools/Program.cpp:351-390 | A file is the count, the first address and the words in order |
| Program.SaveLoad | src/tools/Program.cpp:351-435 | Loading a saved non-empty program restores its instructions exactly when their addresses are contiguous |
| Program.Program.Add | src/tools/Program.cpp:233-236 | Appends an instruction |
| Program.Program.AddData | src/tools/Program.cpp:242-245 | Appends a segment |
| Program.Program.GetInstr | src/tools/Program.cpp:251-256 | The instruction at an index, the null instruction past the end |
| Program.Program.ToVec | src/tools/Program.cpp:332-346 | The loop accumulates the words most significant byte first |
| Program.Program.Save | src/tools/Program.cpp:351-390 | Writes the count, the first address and the words |
| Program.Program.Load | src/tools/Program.cpp:395-435 | For every file, even an empty one, reads as many words as the count says and numbers their addresses from the first; a short file repeats the last word read and leaves unread variables as they were |
| Contiguity.TextCounted | src/tools/Lexer.cpp:1162-1168 | Every entry of the text stands four bytes past the base for each instruction before it |
| Contiguity.ContiguousText | src/tools/Program.cpp:395-435 | Such a text assembles to contiguous addresses exactly when only its last entry lacks an instruction |
| Contiguity.SaveLoadLexed | src/tools/Program.cpp:351-435 | A lexed and assembled program survives a save and a load exactly when no standalone label is followed by more text |
| DataCache.DataCache.constructor | src/cpu/DataCache.cpp:18-22 | A cache of the given size, its bytes unknown |
| DataCache.DataCache.Clear | src/cpu/DataCache.cpp:48-52 | Every byte is zero |
| DataCache.DataCache.ReadHalf | src/cpu/DataCache.cpp:65-73 | The two bytes at an index, joined |
| DataCache.HalfBytes | src/cpu/DataCache.cpp:65-73 | Of a half-word read, the first byte is the more significant |
| DataCache.DataCache.ReadWord | src/cpu/DataCache.cpp:78-88 | Four bytes, the first the most significant |
| State.State.constructor | src/cpu/State.cpp:19-22 | Every register is zero but the ALU register, which is unknown, like memory |
| State.State.Fetch | src/cpu/State.cpp:95-103 | The word at the program counter, and the counter moved on |
| State.State.Decode | src/cpu/State.cpp:108-142 | The fields of the format, by the masks of the code; other fields keep what they held |
| State.State.Execute | src/cpu/State.cpp:147-366 | The execute stage, as the switches say, for every defined instruction |
| State.State.ExecuteRegister | src/cpu/State.cpp:150-277 | The R-instructions, whose results `Instructions.RegisterTick` states in numbers |
| State.State.ExecuteJump | src/cpu/State.cpp:279-292 | The jumps, relative to the program counter, with the link |
| State.State.ExecuteImmediate | src/cpu/State.cpp:294-363 | Branches, immediates and memory addresses |
| State.State.Memory | src/cpu/State.cpp:371-420 | Loads and stores within memory, each in its byte order |
| State.State.WriteBack | src/cpu/State.cpp:425-465 | The register written, result or not: which and with what, `Instructions` states for every word |
| State.State.Tick | src/cpu/State.cpp:495-503 | The five stages in turn are one step of the model |
| State.State.WriteMem | src/cpu/State.cpp:470-477 | Writes the image at the offset if it fits, and nothing otherwise |
| State.State.ReadMem | src/cpu/State.cpp:479-482 | The byte at an index |
| State.State.ClearMem | src/cpu/State.cpp:487-490 | Memory is zero |
| State.State.Reset | src/cpu/State.cpp:508-511 | Registers are zero; memory and the ALU register stay |
| Cpu.FieldsInFile | src/cpu/State.cpp:108-142 | Decoded register fields always name one of the 32 registers |
| Cpu.TickProper | src/cpu/State.cpp:495-503 | A tick keeps the register file, the size of memory and the range of every field |
| Arithmetic.SumVal | src/cpu/State.cpp:233-234 | A sum of words holds the sum of their numbers modulo 2^32 |
| Arithmetic.DifferenceVal | src/cpu/State.cpp:241-247 | And a difference the difference |
| Arithmetic.ShiftLeftVal | src/cpu/State.cpp:157-159 | A left shift multiplies by a power of two modulo 2^32 |
| Arithmetic.ShiftRightVal | src/cpu/State.cpp:161-167 | A right shift of the emulator divides the signed number by a power of two, rounding down |
| Arithmetic.LogicBits | src/cpu/State.cpp:249-259 | and, or and xor work on each binary digit |
| Arithmetic.SignExtVal | src/tools/Lexer.cpp:1224-1232 | Sign extension keeps the signed number of the low half, modulo 2^32 |
| Instructions.RegisterTick | src/cpu/State.cpp:150-277 | For every fetched R word: when it has a successor, the number its result is by function code, the register it goes to or the old ALU value that does, HI, LO and the counter |
| Instructions.ImmediateTick | src/cpu/State.cpp:320-350 | For every immediate opcode: the number left in rt, with the immediate never negative, and nothing else changed |
| Instructions.BranchTick | src/cpu/State.cpp:296-318 | For every branch: taken on the numbers in its registers, where it goes, and the old ALU value in rt |
| Instructions.JumpTick | src/cpu/State.cpp:279-292 | For every jump: four times the target from the next instruction, whose address jal puts in register 31 |
| Instructions.LoadTick | src/cpu/State.cpp:352-458 | For every load: it has a successor exactly when its bytes are in memory, and rt then has the word with those bytes, the first on top, or the one byte |
| Instructions.StoreTick | src/cpu/State.cpp:352-401 | For every store: the same condition, and memory then has the bytes of rt, the lowest first |
| Instructions.UnknownTick | src/cpu/State.cpp:425-465 | Any other word puts the old ALU value in rt and moves on |
| AssembledLines.RegisterLine | src/cpu/State.cpp:233-271 | An assembled add, addu, sub, subu, and, or, xor, slt or sltu leaves the number the instruction set says, in the even part of its destination |
| AssembledLines.ShiftLine | src/cpu/State.cpp:157-159 | An assembled sll multiplies by two to the amount modulo 16 |
| AssembledLines.ImmediateLine | src/cpu/State.cpp:320-350 | An assembled addi or addiu adds the unsigned low half of its literal; andi, ori, xori and lui as the instruction set says |
| AssembledLines.LoadLine | src/cpu/State.cpp:403-458 | An assembled lw leaves the four bytes at base plus unsigned offset, the first the most significant |
| AssembledLines.StoreLine | src/cpu/State.cpp:387-396 | An assembled sw leaves the bytes of its register there, the first the least significant |
| AssembledLines.StoreLoadLines | src/cpu/State.cpp:387-412 | An assembled sw then lw of the same word leaves it with its bytes reversed, the word itself if and only if it reads the same both ways |
| AssembledLines.BranchLine | src/cpu/State.cpp:300-306 | An assembled beq or bne is taken on equality of its registers, and where it goes |
| AssembledLines.JumpLine | src/cpu/State.cpp:279-292 | An assembled j or jal goes its operand on from the next instruction, which jal links |
| AssembledLines.MoveLine | src/cpu/State.cpp:195-205 | mfhi and mflo leave HI and LO in the even part of their destination |
| AssembledLines.SetLine | src/cpu/State.cpp:199-209 | mthi and mtlo set HI and LO, and register 0 to the old ALU value |
| AssembledLines.MulDivLine | src/cpu/State.cpp:211-231 | The numbers mult, multu, div and divu leave in HI and LO, and exactly when a division has none |
| AssembledLines.ReferenceExec | src/tools/Assembler.cpp:220-310 | The instruction set in numbers: what every instruction without control flow reads, computes and writes on the reference machine |
| AssembledLines.ReferenceMemory | src/tools/Assembler.cpp:220-310 | Its memory has words most significant byte first, and gives back what was stored |
| Agreement.FieldsAgree | src/cpu/State.cpp:108-142 | Emulator and disassembler read the same opcode, function, rs, rt and immediate from every word |
| Agreement.TargetsAgree | src/tools/Disassembler.cpp:227 | The targets are the same once bit 24 is cleared, and only then |
| Agreement.RdAgrees | src/cpu/State.cpp:119 | The emulator's rd is the encoded one with bit 0 cleared, exact if and only if that bit is clear |
| Agreement.ShamtAgrees | src/cpu/State.cpp:120 | The emulator's shift amount is the encoded one modulo 16, exact if and only if it is below 16 |
| RunSafety.WordLoaded | src/cpu/State.cpp:470-477 | After loading, each word of the program sits at its place |
| RunSafety.LoadChanges | src/cpu/State.cpp:470-477 | Loading changes exactly the bytes of the image, and none if it does not fit |
| RunSafety.FetchesProgram | src/cpu/State.cpp:95-103 | From the start of a loaded program the k-th fetch gives its k-th word and the counter four bytes on, for every k |
| RunSafety.TickMemory | src/cpu/State.cpp:371-420 | A tick changes memory only if it is a store, and only the bytes at its address |
| RunSafety.TickRegisters | src/cpu/State.cpp:425-465 | A tick writes at most its destination register, and jal the return address |
| RunSafety.RunMemory | src/cpu/State.cpp:371-420 | Over runs of any length, a byte that differs was covered by a store of the run |
| RunSafety.CodeStays | src/cpu/State.cpp:495-503 | In a run without stores, memory stays and every tick fetches the word originally at its counter |
| HiLo.DivTruncates | src/cpu/State.cpp:223-226 | After div, LO times the divisor plus HI is the dividend, HI is smaller than the divisor and has the dividend's sign |
| HiLo.DivuTruncates | src/cpu/State.cpp:228-231 | The same for divu on unsigned numbers |
| HiLo.MultProduct | src/cpu/State.cpp:211-215 | After mult, HI and LO together are the signed product exactly when it fits an int |
| HiLo.MultuProduct | src/cpu/State.cpp:217-221 | After multu, LO is the product modulo 2^32 and HI is zero |
| HiLo.MatchesReference | src/cpu/State.cpp:211-231 | HI and LO are what the instruction set says exactly when the product fits the C++ type it is computed in |
| Emulation.StoreThenLoad | src/cpu/State.cpp:387-412 | Loading a word just stored gives its bytes reversed, the word itself exactly when it reads the same both ways |
| Emulation.StoreThenLoadByte | src/cpu/State.cpp:378-401 | A byte or half-word stored comes back as one unsigned byte; sh puts the low byte in both places |
| Emulation.LoadsSign | src/cpu/State.cpp:378-401 | That is what a sign-extending load gives if and only if the byte is below 0x80, and for a half-word if and only if its upper byte is zero |
| Emulation.SetImmediate | src/cpu/State.cpp:328-330 | slti is that of the instruction set if and only if bit 15 is clear or the sign makes no difference to the comparison |
| Emulation.SetUnsignedImmediate | src/cpu/State.cpp:332-334 | The same for sltiu |
| Emulation.AddressMisses | src/cpu/State.cpp:352-358 | A load or store goes to base plus signed offset if and only if the offset's low half has no sign |
| Emulation.ShiftIsLogical | src/cpu/State.cpp:161-163 | srl is a logical shift exactly when the sign bit is clear or the amount is 0 |
| Emulation.NorIsBitwise | src/cpu/State.cpp:261-263 | nor is the bitwise one exactly when that is zero |
| Emulation.BranchesDecide | src/cpu/State.cpp:300-318 | beq, bne, blez and bgtz decide by the numbers in the registers |
| Emulation.BranchMisses | src/cpu/State.cpp:300-318 | A taken branch of the emulator never reaches the label its assembled offset was computed for |
| Emulation.JumpMisses | src/cpu/State.cpp:279-292 | A j or jal of the emulator reaches its operand only when the counter has wrapped to zero |
| Emulation.NoResultOverwrites | src/cpu/State.cpp:425-465 | Every instruction without a result (all branches, taken or not, multiplications, divisions, mthi, mtlo, jr, unknown codes) leaves the old ALU value in its destination register; registers are kept if and only if it was there already |
| Emulation.ZeroOverwritten | src/cpu/State.cpp:435-437 | For an assembled multiplication or division that register is register 0 |
| Emulation.JrFields | src/tools/Assembler.cpp:71-82 | The word of jr holds its register in the rd field, read back exactly when it is even, and another operand in rs |
| Emulation.JrMisses | src/cpu/State.cpp:181-183 | An emulated jr goes where the register in rs says, to its own operand's address if and only if both hold the same word |
| Emulation.JalrIdles | src/tools/Assembler.cpp:220-310 | An assembled jalr is the zero word, which changes nothing but the counter |
| EndToEnd.DecodedR | src/cpu/State.cpp:108-142 | The emulator decodes an assembled R word to the operands of its line, rd exactly when it is even |
| EndToEnd.DecodedShift | src/cpu/State.cpp:108-142 | The same for shifts, the amount modulo 16 |
| EndToEnd.ShiftField | src/cpu/State.cpp:120 | The decoded shift amount is the operand's exactly when that is below 16 |
| EndToEnd.DecodedI | src/cpu/State.cpp:108-142 | The same for I words |
| EndToEnd.TickLine | src/cpu/State.cpp:495-503 | One tick over the word of a straight line leaves the registers the line means, and changes nothing else |
| EndToEnd.RunLines | src/cpu/State.cpp:495-503 | k ticks over k lines in memory fold their meanings |
| EndToEnd.AssembleLoadRun | src/cpu/State.cpp:95-503 | Any list of add, addu, sub, subu, and, or, xor, slt, sltu, sll, addi, addiu, andi, ori, xori and lui lines (even rd, shift below 16, destination not $zero), assembled, turned into bytes, loaded anywhere and run for any k ticks up to its length, leaves the fold of its first k meanings, pc = start + 4k, and memory, HI and LO unchanged |
| EndToEnd.AddImmediate | src/cpu/State.cpp:320-326 | The emulator's addi is that of the instruction set exactly when bit 15 of the literal is clear |
| EndToEnd.ReferenceRun | src/tools/Assembler.cpp:220-310 | The reference machine folds the same meanings over such a listing |
| EndToEnd.EmulatorIsReference | src/cpu/State.cpp:95-503 | After every number of ticks, the emulator running the assembled bytes has the registers of the reference machine running the listing, and is as far from its start, wherever the listing is laid out and the bytes are loaded |
| SourceRuns.SourceOnEmulator | src/cpu/State.cpp:95-503 | For every straight-line source, the emulator running its assembled bytes from any address where they fit has, after the instructions of its first n lines, the registers of the source after n lines but for $at, and the counter is as far on as the next line's address; memory, HI and LO are unchanged |
| SourceRuns.StraightRun | src/tools/Lexer.cpp:1524-1555 | Such a source runs to its end, one line after the other, and takes one instruction for each its lines emit |
| SourceRuns.StraightText | src/tools/Lexer.cpp:1290-1518 | Its text, expansions of la and li resolved, stands at consecutive addresses from the text base, and the emulator runs each line of it as the instruction set does |
| SourceRuns.ResetRun | src/cpu/State.cpp:508-511 | A program loaded at address 0 of a reset processor runs from its first instruction with all registers zero before it |

## Left out

- File streams, option parsing, console and verbose output, error strings, `toString` and `diff`: display and plumbing. `save` and `load` are on word sequences, and a file is a sequence of whole 32-bit words.
- ELF, Object, Segment, the byte getters and setters of Data, the operator overloads: unused or only getters and setters.
- `.align`, `.globl`, floats, macros and `syscall`: unimplemented in the source beyond their table entries. The values of the tables are modelled.
- Emulated branches, jumps, `jr` and `jalr` in runs of programs, and stores followed by loads: assembler and emulator disagree about offsets, the register of `jr`, the code of `jalr` and byte order, so the results about control flow are about the resolved text. Their single steps are modelled, and `Emulation` says exactly how far they miss.
- Delay slots: neither the assembler nor the emulator has them.
- A lexer used for a second source: `lex` does not clear the symbol table. `Lexer.Lexer.Lex` states what happens for any starting table; the other results are for a fresh lexer.
- The `text` mode left by the first lexing is likewise kept, and stated.
- Undefined behaviour of the C++: signed overflow wraps to 32 bits; division by zero, INT_MIN / -1, shift amounts past the word and accesses outside memory have no successor state; the pop of an empty stack in `extractReg` and the exceptions of `std::stoi` are outcomes of the lexer. A read past the end of a one-character token gives NUL.
- `State(unsigned int)` and the copy constructors: the emulator always has its default memory of 2^20 bytes.
- Listings.ListingRoundTrip: does not print `.byte`, which takes no well-formed character token; negative literals, which the lexer cannot read; a label on a line of its own, which the lexer joins with the next line; strings and lists the lexer does not read whole, which `DataLines` covers; and a semicolon after a list, which the separator skip consumes (`Termination.SeparatorEatsComment`).
- SourceRuns.SourceOnEmulator: sources of the instructions the emulator runs as the instruction set does (see `EndToEnd.Straight` and `EndToEnd.SignFree`), `la` and `li`; for the others `Emulation` and `HiLo` say where the two part.
- `TextInfo::error` is kept, its text is not; `line_buf`, and the token of the line before, are not part of the model.
- Several long functions of the source (`parseInstr`, `expandPsuedo`, `extractReg`, `execute`, `memory`) are split into helper methods, each with its part of the switch.
- Simulation.Simulation: is about runs the source semantics allows; `Halting` says where they stop. A `jr` to an address that is no line's is stuck in the source and goes on in the expansion, where it may land in the middle of another line's instructions.

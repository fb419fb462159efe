# A Dafny model of the tcldis decompilation core

tcldis turns Tcl bytecode back into Tcl text. Tcl compiles a script into
a byte string and a pool of literal strings (`getbc`). A fixed opcode
table, `INSTRUCTIONS` (tcldis.py:10), names each instruction and lists its
operand types. The decompiler then runs four stages:

1. **Decoding** (`getop`, `OPERANDS`, `Inst.__init__`, `getinsts`). The
   byte string is read as a sequence of instructions, each placed at its
   byte offset. Operands are big-endian integers, one or four bytes wide,
   signed or unsigned. A jump gets a target location: its own offset plus
   its first operand.
2. **Block splitting** (`_bblock_create`).
   - Block starts are collected: the first instruction, every jump target,
     and the instruction after every jump.
   - Block ends are collected: every jump, the instruction just before
     every non-zero target, and the last instruction.
   - The sorted starts are paired with the sorted ends, and the
     instruction list is cut at each pair.
   - Finally the jump fixup replaces every jump's target location with the
     block located there.
3. **Reduction** (`_inst_reductions`, `_bblock_reduce`). Inside a block,
   each round scans from the front for the first raw instruction that can
   be rewritten:
   - a `push` becomes the literal it names;
   - an instruction with a reduction rule (`invokeStk`, `loadStk`,
     `loadArrayStk`, `storeStk`, `pop`, `jumpFalse1`, `jumpTrue1`)
     swallows the values just before it into one node: a call, a variable
     or array reference, an ignored call, or a jump;
   - a `nop` also has a rule, but it takes no values and leaves nothing in
     its place.

   `jumpFalse4`, `jumpTrue4` and the unconditional jumps have no rule and
   stay raw.

   Rounds repeat until a scan finds nothing to do.
4. **Formatting** (the `fmt` methods, `_bblock_format`). Every reduced node
   is replaced by its Tcl text. Raw instructions stay as they are.

The model is split into these files:

| File | Contents |
|---|---|
| `wrappers.dfy` | The `Result` type. Each exception the Python code can raise is an `Error` value. |
| `slices.dfy` | Python list slicing and indexing, negative indices included. |
| `operands.dfy` | The operand types and their big-endian readers, with an encoder as the readers' inverse. |
| `instructions.dfy` | `Inst`, instruction decoding and `getinsts`, with an assembler as their inverse. |
| `blocks.dfy` | `_bblock_create`: the boundary scan, the cut and the jump fixup. |
| `reduction.dfy` | The nodes, the rule table, one scan position, and the reduction to a fixpoint. Tcl's per-instruction stack effect is used as an independent account of what a rewrite keeps. |
| `format.dfy` | `fmt`, and a reader for the printed text that proves `fmt` loses nothing. |
| `decompiler.dfy` | `decompile`. |
| `scenarios.dfy` | The bytecode of `set x 15` and of `puts $a`, carried through every stage. These cases come from tests/test.py. |

Inputs that come from outside are parameters:

- The opcode table. It is `_tcldis.inst_table()` (tcldis.py:10), from the
  `_tcldis` extension.
- The bytecode and the literal pool. `getbc` produces them from Tcl text.

`Decompiler.Decompile(table, bytecode, literals)` takes the bytecode and
the literals, as tests/test.py:9 calls `decompile(*getbc(tcl))`.
`decompile(tcl_code)` at tcldis.py:296 instead calls `getbc` itself.

The Python code works by mutation:

- the jump fixup overwrites `inst.targetloc`;
- the reducer assigns into `bblock.insts`;
- `_bblock_format` replaces `bblock.insts`.

Here each of these stages returns new values instead. A jump's target is
`TargetLoc(offset)` before the fixup and `TargetBlock(index)` after it.
The index refers to the block list.

## Model

| member | source | states |
|---|---|---|
| Slices.Index | tcldis.py:266 | Python indexing of the literal pool. It is defined exactly when `-n <= k < n`, for a pool of `n` entries. Any defined index, negative or not, names the entry at position `k mod n`. |
| Slices.WindowBeforeIndex | tcldis.py:276-277 | The argument window `insts[i-nargs:i]` has exactly `nargs` entries if and only if `0 <= nargs <= i`. In that case it is the `nargs` entries just before position `i`. |
| Slices.StripEnds | tcldis.py:131 | `[1:-1]` removes exactly the first and last character and keeps everything between them. |
| Operands.ReadOperand | tcldis.py:15-36 | Reading an operand succeeds exactly when its type has a reader (not `NONE`) and enough bytes remain. It consumes exactly the type's width. The value lies in the signed or unsigned range of that width and agrees with the big-endian reading of the bytes modulo 256^width. |
| Operands.ReadEncode | tcldis.py:20-22 | Reading the encoding of any in-range value gives back that value, and leaves exactly the bytes that follow. |
| Operands.EncodeRead | tcldis.py:20-22 | Encoding the value read gives back exactly the bytes consumed. Distinct byte strings therefore never read as the same operand. |
| Operands.BigEndianOfToBigEndian | tcldis.py:22 | Writing a number as big-endian bytes and reading them back gives the number. |
| Operands.ToBigEndianOfBigEndian | tcldis.py:22 | Reading big-endian bytes and writing the number back gives the same bytes. |
| Instructions.ReadOperandsSpec | tcldis.py:45-47 | Reading an instruction's operands succeeds exactly when no operand type is `NONE` and the bytes cover all widths. There is one operand per declared type, tagged with that type, each in its type's range. |
| Instructions.DecodeInstSpec | tcldis.py:39-52 | Decoding succeeds exactly when all of these hold: a first byte is present and in the table, no operand type is `NONE`, the instruction's bytes are present, and a jump has an operand. The result has the given location, the table's name and the declared operand types. A jump's target is its location plus its first operand. Any other instruction has no target. |
| Instructions.GetInstsLaidOut | tcldis.py:168-180 | `getinsts` returns a list exactly when that list lies back to back over the whole bytecode from offset 0. Each instruction is decoded from exactly its table size of bytes at its own offset. |
| Instructions.GetInstsIncreasing | tcldis.py:174-179 | Locations strictly increase from 0. The list is empty only for empty bytecode. |
| Instructions.TruncatedTailFails | tcldis.py:175-177 | Bytecode that ends inside an instruction is rejected. |
| Instructions.DecodeEncodedInst | tcldis.py:39-52 | Decoding an assembled instruction gives back the expected instruction at the given location, whatever bytes follow. |
| Instructions.DecodeAssembled | tcldis.py:168-180 | `getinsts` of an assembled program gives back the program's instructions at their byte offsets. |
| Blocks.InstBefore | tcldis.py:200-205 | The `instbefore` search succeeds exactly when an instruction after the first one sits at the target. It returns the location of the instruction just before the first such one. |
| Blocks.BoundarySets | tcldis.py:186-207 | The scan succeeds exactly when the list is non-empty and every jump has a target location whose `instbefore` search, when the target is not 0, succeeds. The start set is exactly the first instruction, the jump targets, and the instructions after jumps. The end set is exactly the jumps, the instructions before non-zero targets, and the last instruction. |
| Blocks.SortedElems | tcldis.py:212 | `sorted(list(s))` holds exactly the elements of `s`, each once, in strictly increasing order. |
| Blocks.SliceBlocks | tcldis.py:212-219 | Each block begins at its start and ends at the end paired with it. The blocks put back together are a prefix of the list. |
| Blocks.Partition | tcldis.py:186-219 | The blocks of a successful cut are non-empty and each is located at its first instruction. Each begins at a start and ends at an end, and they are in increasing order of location. There are as many blocks as starts and as ends. Every start begins some block and every end closes one. Put back together they give a prefix of the list, or the whole list when locations increase. |
| Blocks.FindBlock | tcldis.py:224-229 | Returns the first block located at the target. It fails exactly when no block is. |
| Blocks.FixInst | tcldis.py:221-229 | Fixing succeeds exactly when the instruction is not a jump, or is a jump with a block at its target. A jump then points at the first such block and nothing else about it changes. Any other instruction is unchanged. |
| Blocks.FixBlocks | tcldis.py:220-229 | Fixing the blocks' instructions succeeds exactly when all of them can be resolved. It keeps every block's location and length, and resolves every instruction. |
| Blocks.EraseFixed | tcldis.py:220-229 | The fixup changes nothing but jump targets: turning each block index back into its location gives back the cut. |
| Blocks.BlockCreate | tcldis.py:182-230 | `_bblock_create` succeeds exactly when the cut succeeds and every jump of the whole list has a block at its target. It returns the cut with every jump resolved against it, and nothing else changed. |
| Blocks.StraightLine | tcldis.py:182-230 | A non-empty list without jumps, in increasing order of location, is one block at the first location. |
| Blocks.NoJumpsNoFix | tcldis.py:220-229 | Without jumps the fixup returns the cut unchanged. |
| Reduction.RulesConsistent | tcldis.py:239-249 | Every rule's fixed argument count is one its constructor accepts (`BCVarRef` one, `BCArrayRef` two, and so on). Only `invokeStk` takes its count from an operand. |
| Reduction.StepSpec | tcldis.py:263-285 | The loop body raises exactly at a faulty raw instruction. That is a push without an operand or without a literal at its index, or an `invokeStk` without an operand. It rewrites exactly where a sound push stands, or an instruction with a rule whose `nargs` preceding entries exist and pass the rule's check. Every rewrite removes exactly that instruction, swallows only values, puts in at most one non-raw node, keeps the net stack effect, and builds well-formed nodes from well-formed ones. A sound push at `i` is replaced by exactly the literal `literals[op0]` that its first operand names (tcldis.py:266). |
| Reduction.StepByRule | tcldis.py:270-280 | For an instruction with a rule, the loop body raises exactly when `nargs` cannot be computed. It rewrites exactly when the window before it is full and every entry passes `checktype`. The rewrite is the rule's constructor applied to those entries. |
| Reduction.WindowAdmits | tcldis.py:276-279 | The sliced argument list passes the `isinstance` check exactly when the entries just before the instruction do. |
| Reduction.BuildEffects | tcldis.py:239-249 | What a rule builds leaves on Tcl's stack exactly what its arguments and the instruction together leave. |
| Reduction.ApplyRewrite | tcldis.py:283 | The slice assignment removes exactly the rewritten instruction from the raw instructions and keeps the others in order. It keeps the block's net stack effect and its well-formedness. |
| Reduction.FindStep | tcldis.py:263-285 | The scan acts at the first position that rewrites or raises, and at no earlier position. It finds nothing exactly when no position acts. |
| Reduction.FindStepFirst | tcldis.py:263-285 | When every position before `i` does nothing and position `i` acts, the scan acts at `i` and with exactly what position `i` does. |
| Reduction.RoundKeeps | tcldis.py:280-285 | A round strictly shrinks the raw instructions to a subsequence, keeps every faulty instruction, and adds none. |
| Reduction.Reduce | tcldis.py:254-285 | `_bblock_reduce` succeeds exactly when no raw instruction of the block is faulty. The block it leaves is settled (no position rewrites or raises) and holds no push. Its raw instructions are a subsequence of the original ones. It keeps the block's net stack effect and its well-formedness. |
| Reduction.RoundStep | tcldis.py:261-285 | When the scan does nothing before `i` and rewrites at `i`, reducing the block gives the same result as reducing what that rewrite leaves. This ties the result of `_bblock_reduce` to the rewrites the loop body makes. |
| Reduction.ReduceSettled | tcldis.py:259-262 | A settled block comes back unchanged. |
| Reduction.ReduceIdempotent | tcldis.py:254-285 | Reducing a reduced block changes nothing. |
| Format.IgnoredCallText | tcldis.py:130-131 | An ignored call prints as its call's words joined by spaces, without brackets. |
| Format.ParseFmt | tcldis.py:79-108 | Reading the printed text of a value back gives the value and leaves what followed. Values are built from plain words. |
| Format.FmtInjective | tcldis.py:79-108 | Two different such values never print the same. |
| Format.ParseIgnoredCall | tcldis.py:130-131 | The line printed for an ignored call reads back as the words of its call. |
| Format.FormatBlock | tcldis.py:287-294 | `_bblock_format` keeps the block's length. An entry stays an instruction exactly where the block held that raw instruction. Every printable node is replaced by its `fmt` text. |
| Format.FormatKeepsRaws | tcldis.py:291-294 | The instructions a formatted block still shows are exactly the block's raw instructions, in order. |
| Decompiler.LiftRaws | tcldis.py:263-264 | A fresh block holds exactly its instructions, all raw. |
| Decompiler.ReduceBlocks | tcldis.py:304 | Reducing the blocks succeeds exactly when no block holds a faulty instruction. It gives one reduced block per block, each the reduction of that block. |
| Decompiler.ReducedBlocks | tcldis.py:303-305 | Every reduced block has these properties: it is settled, well formed and free of pushes; it shows a subsequence of its block's instructions; and it keeps its block's net stack effect. |
| Decompiler.Decompile | tcldis.py:296-307 | `decompile` succeeds exactly when decoding succeeds, block creation succeeds, and no block holds a faulty instruction. It gives one formatted block per block, and each shows only instructions of its own block, in order. |
| Decompiler.DecompileShowsDecoded | tcldis.py:296-307 | `decompile` invents no instruction and reorders none. Put the raw instructions shown in all output blocks together, turning each resolved jump target back into its location. The result is a subsequence of the instructions `getinsts` decoded. |
| Scenarios.SetDecompiles | tests/test.py:11-12 | The bytecode of `set x 15` (followed by `pop`) decompiles to one block with the single line `set x 15`. |
| Scenarios.PutsDecompiles | tests/test.py:17-18 | The bytecode of `puts $a` (followed by `pop`) decompiles to one block with the single line `puts $a`. |

## Left out

- `getbc`, `printbc` and the opcode table (`_tcldis.inst_table()`) come from the `_tcldis` extension, whose source is not part of this model. The bytecode, the literals and the table are inputs here. The table's operand numbers are taken to be among the nine `OPERANDS` kinds; a table naming a tenth makes tcldis.py:46 raise IndexError, which the model cannot express. The web front end (web/) is not part of this model.
- `num_bytes`: Tcl's table gives it per instruction. Here it is one opcode byte plus the operand widths, which is how Tcl's table is built. A table whose `num_bytes` disagrees with its operands is not modelled.
- The outer `while any(...)` loop in `decompile` (tcldis.py:304-305) evaluates its condition once. The list comprehension reduces every block, each to its fixpoint. `_bblock_reduce` returns `None`, so the body `pass` never runs. The model reduces every block once.
- The `__repr__` methods and `BCJump.fmt` are left out. `BCJump.fmt` returns the debugging representation, so a formatted jump is kept as a structured `JumpLine`. `BBFlow` is never used.
- `BCValue.inst` is not kept, because nothing reads it again. A jump node keeps only its target.
- Reduction.InstEffect counts 0 for instructions with neither a table rule nor the literal-push rewrite (`push1`/`push4` count 1). It is used only as a measure that rewrites keep, and such instructions are never rewritten.
- Format.ParseFmt: the round trip is proved only for values built from plain words. A word holding a space, `$`, brackets or parentheses prints ambiguously, because `fmt` adds no quoting.
- Blocks.Partition: states what a successful cut yields, including one block per start and per end. Which lists make the assertions at tcldis.py:209, 214 and 217 fail is given only by its definition, and by the single-block case Blocks.StraightLine.
- Instructions.TruncatedTailFails: covers an instruction cut short at the end of otherwise valid bytecode. Which bytecode `getinsts` rejects is stated in full by Instructions.GetInstsLaidOut.
- Scenarios.SetDecompiles and Scenarios.PutsDecompiles state the block contents that `decompile(*getbc(tcl))` returns (tests/test.py:9). Their bytecode ends with a `pop`, as the bytecode of a command inside a script does.
- tcldis.py builds no exception-guard block boundaries, joins no blocks, matches no control flow and records no rewrite steps. None of these is modelled.

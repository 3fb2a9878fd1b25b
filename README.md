# ply's eBPF code generator, in Dafny

This project models the code generator of ply, a dynamic tracing tool, as written in `src/compile.c`. The generator receives an annotated syntax tree for one probe. Every node already has a resolved location: nowhere, a register, or a frame offset and size. The generator appends eBPF instructions to a fixed program buffer and returns an error code. The instruction set is the one RFC 9669 defines:
- section 3 for the instruction fields;
- section 4.1 for 64-bit arithmetic;
- section 4.3 for jumps, whose offsets count from the next instruction;
- section 5.1 for frame loads and stores.

The model has three layers:

- **What each routine appends.** Module `CodeGen` (codegen.dfy) gives this as a function of the routine's inputs: an `Emitted(err, code)` pair. `Then` is the source's `if (err) return err;`.
- **The routines themselves.** Module `Compile` (prog.dfy) models them as methods of a class `Prog`. The class holds the instruction array and its cursor `ip`. Each method appends instruction by instruction, with loops where the C code loops. Each one is proved to append exactly its `CodeGen` sequence and to return its error code.
- **Meaning.** Module `Machine` (machine.dfy) is a small semantics for the instructions the generator emits. It covers arithmetic, frame loads and stores, forward jumps, exit, and stopping at a helper call. Using it:
  - module `Semantics` (semantics.dfy) proves what the emitted sequences do to registers and the stack frame;
  - module `Properties` (properties.dfy) proves whole-program properties of the walk and of `compile_probe`;
  - module `Findings` (findings.dfy) holds the two literal-load defects and their correction.

The supporting modules are:
- `Bpf` (bpf.dfy): instruction fields, the generator's instruction macros and the helper-name table.
- `Ast` (ast.dfy): nodes and locations.
- `Bytes` (bytes.dfy): little-endian encoding.
- `Wrappers` (wrappers.dfy): `Option`.

Three behaviours of the code are easy to misread, and the model keeps each one as written:

- **Zero-fill remainder.** `emit_stack_zero` rounds a size that is not a multiple of 8 up to whole double words: its loop `i += 8` runs while `i < size`, so a size of 12 gets two stores, which clear 16 bytes.
- **String literal into a register.** `emit_xfer_literal` also loads a string literal into a register, reading its first eight bytes as an int64. The model requires the string to have at least eight bytes, because a shorter one is read out of bounds.
- **Small-literal immediate.** A literal at or below `0xffffffff` gets one MOV whose signed 32-bit immediate is sign-extended. See Findings.

## Model

| member | source | states |
|---|---|---|
| Bpf.BpfFuncName | src/compile.c:12-37 | A helper id has a name exactly when it is one of the nine known helpers. |
| Bpf.BpfFuncNameInjective | src/compile.c:12-37 | Two ids with the same name are the same helper. |
| Compile.Prog.constructor | src/compile.c:475-479 | A fresh buffer is empty, with the cursor at slot 0. |
| Compile.Prog.Emit | src/compile.c:172-178 | Stores the instruction at the cursor and advances the cursor by one. Earlier slots are unchanged, and the emitted program grows by exactly that instruction. |
| Compile.Prog.LdMapFd | src/compile.c:302 | The foreign map-descriptor load appends exactly its own instructions. |
| Compile.Prog.StackZero | src/compile.c:180-189 | Appends `MOV r0, #0` and then one r0 store per 8-byte stride below the size. Returns 0. |
| Properties.StackZeroShape | src/compile.c:180-189 | There are 1 + ⌈size/8⌉ instructions, `MOV r0, #0` first. Store k goes to addr + 8(k-1), so offsets strictly increase. The stores cover the size and overshoot it by less than 8 bytes. |
| Semantics.ZeroStoresExec | src/compile.c:185-186 | With r0 = 0, n double-word stores zero 8n consecutive frame bytes. |
| Semantics.StackZeroExec | src/compile.c:180-189 | Running the zero-fill leaves r0 = 0 and zero bytes over the rounded-up region. Reading the node's `size` bytes back gives zeros. |
| Ast.IntWords | src/compile.c:193-194 | An int64 literal's memory, read as two 32-bit words, reads back as the literal. |
| Ast.PackWords | src/compile.c:269-271 | A string's memory, read as 32-bit words, packs bytes 4k to 4k+3 little-endian into word k. |
| Compile.Prog.XferLiteral | src/compile.c:191-220 | Appends what the literal transfer prescribes and returns its error. The loop advances the offset, the remaining size and the word pointer together. Nowhere gives -EINVAL. A register gets one MOV or the three-instruction wide load. The stack gets one word store per 4 bytes. |
| Semantics.WordStoresExec | src/compile.c:212-216 | The word stores write the words' little-endian bytes contiguously from the destination offset. |
| Semantics.IntLitToStack | src/compile.c:212-216 | An int64 literal sent to a stack slot leaves its eight little-endian bytes there. |
| Semantics.IntLitReload | src/compile.c:212-216 | Loading that slot back into a register gives the literal modulo 2^64. |
| Semantics.StrLitToStack | src/compile.c:212-216 | A string literal sent to the stack copies its first `size` bytes into the destination region. |
| Semantics.SmallIntLitToReg | src/compile.c:207-209 | A literal within the signed 32-bit range reaches its register with its 64-bit two's-complement value. |
| Compile.Prog.XferReg | src/compile.c:222-242 | Appends the register transfer and returns its error. |
| Semantics.XferRegToReg | src/compile.c:229-234 | After the transfer the destination register holds the source's value. The same register needs no instruction; a different one needs exactly one MOV. |
| Semantics.XferRegToStack | src/compile.c:236-238 | The destination slot receives the register's eight little-endian bytes. |
| Compile.Prog.XferStack | src/compile.c:244-261 | Appends the stack transfer and returns its error. |
| Semantics.XferStackToReg | src/compile.c:251-253 | The destination register receives the slot's little-endian value. |
| Semantics.SpillReload | src/compile.c:236-238 | A register stored to a slot and loaded back into a register gives the original value. This is the partner of the stack-to-register transfer at lines 251-253. |
| CodeGen.XferCode | src/compile.c:263-289 | Result is 0, -EINVAL or -ENOSYS, and failure appends nothing. -EINVAL exactly when the destination is nowhere, or a non-literal source is nowhere. -ENOSYS exactly for a non-literal stack source into a stack destination. Literals always take the literal path. |
| Compile.Prog.Xfer | src/compile.c:263-289 | Appends the transfer `XferCode` prescribes and returns its error. |
| Compile.Prog.MapLoad | src/compile.c:291-317 | Appends nothing under a plain overwrite. Otherwise appends zero-fill, map descriptor, lookup, null check and copy. Always returns 0. |
| Compile.Prog.Lookup | src/compile.c:303-308 | Appends r2 = r10 + key offset, the `map_lookup_elem` call and `JEQ r0, #0, +5`. |
| Compile.Prog.CopyValue | src/compile.c:311-315 | Appends the five instructions of the `probe_read` copy. |
| Properties.MapLoadSkipped | src/compile.c:293-297 | The map load appends nothing exactly when the parent is a plain-overwrite assignment. |
| Semantics.MapLoadLayout | src/compile.c:299-315 | A map load ends with the lookup, then `JEQ r0, #0, +5`, then exactly the five copy instructions, ending in the `probe_read` call. |
| Semantics.LookupRun | src/compile.c:303-305 | The lookup calls `map_lookup_elem` with r2 = r10 + key-record offset. |
| Semantics.CopyRun | src/compile.c:308-315 | A NULL lookup result jumps past all five copy instructions. Otherwise `probe_read` is called with r1 = r10 + value offset, r2 = value size and r3 = the found value. |
| Semantics.ProbeReadRun | src/compile.c:311-315 | The copy sets r1 = r10 + value offset, r2 = size, r3 = r0, then calls `probe_read`. |
| Compile.Prog.Assign | src/compile.c:319-354 | Appends the assignment sequence and returns its error. |
| Compile.Prog.MapUpdate | src/compile.c:346-352 | Appends the map-descriptor load and then the update call. |
| Compile.Prog.UpdateCall | src/compile.c:347-352 | Appends r2/r3 frame addresses, r4 = 0 and the `map_update_elem` call. |
| Properties.AssignErrors | src/compile.c:324-344 | Only a transfer error fails an assignment, and it stops before the store. A plain overwrite of a non-literal only stores. |
| Semantics.AssignLayout | src/compile.c:346-352 | Every successful assignment ends with the six-instruction `map_update_elem` call. |
| Semantics.UpdateRun | src/compile.c:347-352 | That call runs with r2 = r10 + key offset, r3 = r10 + value offset and r4 = 0. |
| Semantics.CompoundComputeShape | src/compile.c:331-344 | For every compound operator, a compound assignment is the slot load, exactly one ALU instruction, and the store back. |
| Semantics.CompoundAssignExec | src/compile.c:331-344 | After a compound assignment the value slot holds `old value op rhs`. The rhs is an immediate literal or the right-hand register. |
| Compile.Prog.Provide | src/compile.c:407-409 | A call's provider appends its code and its error is returned. |
| CodeGen.PostCode | src/compile.c:380-417 | Integer, record, not, binop and return nodes emit nothing and succeed. Probe, script and empty nodes fail with -ENOSYS. A string literal always succeeds. |
| Compile.Prog.Post | src/compile.c:369-424 | Appends the per-kind action `PostCode` prescribes and returns its error. |
| Properties.StrLitErrorDropped | src/compile.c:385-387 | A string literal whose destination is nowhere makes the transfer fail, yet compile_post appends nothing and returns 0. |
| Properties.WalkPassive | src/compile.c:381-401 | For literals, records and the unimplemented operators, the walk is just the walk of the children. |
| Properties.WalkRejects | src/compile.c:411-416 | Walking a probe, script or empty node always fails. |
| Compile.Prog.Walk | src/compile.c:426-429 | The post-order walk appends the children's code in order, then the node's own. The first error stops it. |
| Compile.Prog.WalkList | src/compile.c:426-429 | Walking siblings appends their walks in order and stops at the first error. |
| Properties.WalkListOk | src/compile.c:426-429 | A list walk succeeds exactly when every sibling's walk succeeds. |
| Properties.WalkListFirstError | src/compile.c:490-494 | A failing list walk returns the error of the first failing statement, and every earlier statement succeeded. |
| Compile.Prog.Pred | src/compile.c:431-467 | No predicate appends nothing. Otherwise the predicate's walk, then the gate. A walk error stops before the gate. |
| Compile.Prog.Gate | src/compile.c:444-464 | Appends the jump for the predicate's location and then `MOV r0, #0; EXIT`. A non-literal predicate with no location gives -EINVAL. |
| Semantics.GateRun | src/compile.c:444-464 | The gate returns 0 from the program exactly when the predicate's value is 0. Otherwise it falls through to the statements, so each +2 jump skips exactly `MOV r0, #0; EXIT`. |
| Semantics.GateRunReg | src/compile.c:445-446 | The register gate exits with 0 on a zero register and falls through otherwise. |
| Semantics.GateRunStack | src/compile.c:448-450 | The stack gate loads the slot into r0, then behaves like the register gate. |
| Semantics.GateRunConst | src/compile.c:452-460 | A non-zero constant jumps over the exit. Zero returns 0. |
| Properties.ProbeRejectsPredicate | src/compile.c:452-456 | A predicate with no location that is not an integer literal makes compile_probe return NULL. |
| Compile.Prog.Prologue | src/compile.c:483-488 | Appends `MOV r9, r1` and then the predicate code. |
| Compile.Prog.Statements | src/compile.c:490-497 | The statement loop appends every statement's walk in order and stops at the first error. On success it yields the last statement. |
| Compile.Prog.Probe | src/compile.c:483-504 | compile_probe's emission: the context save, the gate, the statements, and the implicit return unless the last statement is a return. |
| Compile.CompileProbe | src/compile.c:469-509 | Returns NULL exactly when allocation fails or any stage fails. Otherwise returns a fresh buffer holding exactly the probe's program. |
| Properties.ProbeShape | src/compile.c:469-509 | The result is NULL exactly when the predicate or a statement fails. Otherwise the program is `MOV r9, r1`, then the gate, the statements and the tail. |
| Properties.ProbeEnds | src/compile.c:484-504 | Every returned program starts with `MOV r9, r1`. Unless its last statement is a return, it ends with `MOV r0, #0; EXIT`. |
| Properties.ProbeRejectsStatement | src/compile.c:490-494 | A statement that is a probe, script or empty node makes compile_probe return NULL. |
| Properties.ReturnOnlyProbe | src/compile.c:499-500 | `{ return; }` compiles to the single `MOV r9, r1`, and running it falls off the end. |
| Findings.HighHalfOredTwice | src/compile.c:203-206 | Loading the literal 2^32 emits `MOV #1; LSH 32; OR #1`, which leaves 2^32 + 1 in the register. |
| Findings.LowPathSignExtends | src/compile.c:203-209 | Loading the literal 2^31 emits one MOV with immediate -2^31, which leaves 0xffff_ffff_8000_0000 in the register. |
| Findings.LoadImm64Exec | src/compile.c:202-210 | The corrected load sequence leaves every int64 literal's 64-bit pattern in the register. |
| Findings.XferCodeFixed | src/compile.c:263-289 | Matches emit_xfer on every input except an integer literal bound for a register. That case always succeeds, using the corrected load. |
| Findings.IntLitToRegFixed | src/compile.c:266-268 | With the corrected load, every integer literal sent to a register arrives intact. |

## Left out

- The disassembler (`dump_insn`, `dump_reg`, `dump_size`) and the `dump` flag are not modelled. They only write to stderr and never change the stored instruction. Only the helper-name table `bpf_func_name` is modelled.
- The `_d`/`_e` logging calls are left out; they are diagnostics only.
- `compile_pre` is left out because it does nothing.
- `calloc` failure in compile_probe is a boolean parameter `allocOk`. `free` is not modelled: a failed compilation just returns NULL.
- The buffer capacity comes from a header that is not part of this model. It is a constructor parameter, and every routine requires room for what it appends. `emit` has no overflow check, and the model does not add one.
- The foreign routines are fields of an `Env` value and are not modelled further: `emit_ld_mapfd`, `node_map_get_fd` and the provider's `compile`. The model assumes only that `emit_ld_mapfd` appends some instructions.
- `node_walk` (ast.c) is not part of this model. It is replaced by an explicit post-order recursion over each node's children, in the order the syntax suggests.
- `n->parent` is not stored. The "parent is a plain overwrite" test is a boolean that the walk passes to a node's children.
- Instructions are records with named fields. The bit packing of `struct bpf_insn` and the header macros are not modelled. Arguments are converted to the 16-bit offset and 32-bit immediate by two's-complement wrap, as C does.
- The host is assumed little-endian. A literal's memory is read as 32-bit words in that order.
- The ignored return value of `emit_xfer` for string literals (line 386) is kept as written, and `Properties.StrLitErrorDropped` states the consequence.
- Semantics lemmas: frame offsets are assumed to fit a signed 16-bit field (`InFrame`) and immediates a signed 32-bit field. The generator does not check either bound.
- Helper calls are not executed. A run stops at a call and reports the argument registers.
- Semantics.GateRun: covers only predicates whose value can be read. A stack predicate whose slot was never written is outside the semantics.
- Semantics.CompoundAssignExec: covers only the case where the map value lives on the stack and the assignment in a register, and only the operators add, sub, or and lsh. It also requires a right-hand side in a register to be a different register from the assignment's. When the two coincide, line 332 loads the slot into that register and line 339 computes `old op old`, so the slot does not get `old op rhs`. Which registers the annotation pass assigns is not part of this model. A literal right-hand side must fit the signed 32-bit immediate. A wider one is truncated at line 337, so `+= 0x1_0000_0000` adds 0.
- Compile.Prog.Probe: on failure it states only the error. The partly filled buffer is discarded, as in the source.
- Compile.Prog.XferLiteral: for a stack destination only, requires a byte count that is a multiple of 4 and covered by the literal's words. Otherwise the source loop `size -= 4` wraps around and never stops, or reads past the literal. A register destination needs the literal to hold two words, because line 203 reads an int64. An unresolved destination needs nothing.
- CodeGen.ProbeReady: requires at least one statement in the probe body, and so do Compile.CompileProbe, Compile.Prog.Probe and the Properties lemmas about probes. With an empty body `node_foreach` at line 490 never points `stmt` at a statement, and line 499 reads `stmt->type` through it. Whether the parser can produce an empty body is not part of this model.
- The generator model keeps the source's literal load as written. The corrected load lives in module Findings, and `Findings.XferCodeFixed` is emit_xfer with it.

## Findings

| source | as written | input that shows it | evidently intended | confidence | as-written member | corrected member |
|---|---|---|---|---|---|---|
| src/compile.c:206 | The third instruction of the wide literal load ORs in `*integer >> 32`, the high half again. | literal 0x1_0000_0000 into r1: the register ends up holding 0x1_0000_0001 | The low 32 bits are combined in, so the register holds the literal. | not executed; follows from the eBPF semantics of MOV/LSH/OR | Findings.HighHalfOredTwice | Findings.LoadImm64Exec |
| src/compile.c:203 | The guard `*integer > 0xffffffff` sends every smaller value to a single MOV. A signed 32-bit immediate is sign-extended, so values in [2^31, 2^32) and below -2^31 change. | literal 0x8000_0000 into r1: the register ends up holding 0xffff_ffff_8000_0000 | The single MOV is used only for values in the signed 32-bit range. | not executed; follows from the sign extension of ALU64 immediates (RFC 9669, section 4.1) | Findings.LowPathSignExtends | Findings.LoadImm64Exec |

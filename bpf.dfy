/**
 * The eBPF instruction set as the code generator uses it (RFC 9669): fixed-width
 * instructions, eleven registers, and the numbered kernel helpers.
 */
module Bpf {
  import opened Wrappers

  const TWO16: int := 0x1_0000
  const TWO32: int := 0x1_0000_0000
  const TWO64: int := 0x1_0000_0000_0000_0000

  type Int16 = x: int | -0x8000 <= x < 0x8000
  type Int32 = x: int | -0x8000_0000 <= x < 0x8000_0000
  type Int64 = x: int | -0x8000_0000_0000_0000 <= x < 0x8000_0000_0000_0000
  type U64 = x: int | 0 <= x < 0x1_0000_0000_0000_0000

  /** C's conversion of a wider integer into a signed 16-bit field: two's-complement wrap. */
  function S16(x: int): (r: Int16)
    ensures (x - r) % TWO16 == 0
    ensures -0x8000 <= x < 0x8000 ==> r == x
  {
    var m := x % TWO16;
    if m < 0x8000 then m else m - TWO16
  }

  /** C's conversion of a wider integer into a signed 32-bit field: two's-complement wrap. */
  function S32(x: int): (r: Int32)
    ensures (x - r) % TWO32 == 0
    ensures -0x8000_0000 <= x < 0x8000_0000 ==> r == x
  {
    var m := x % TWO32;
    if m < 0x8000_0000 then m else m - TWO32
  }

  /** Register numbers: r0 return value, r1-r5 helper arguments, r6-r9 preserved, r10 frame pointer. */
  type Reg = r: int | 0 <= r <= 10

  const R0: Reg := 0
  const R1: Reg := 1
  const R2: Reg := 2
  const R3: Reg := 3
  const R4: Reg := 4
  const R9: Reg := 9
  const R10: Reg := 10

  /** Instruction classes (RFC 9669, section 3.3). */
  datatype Class = Ld | Ldx | St | Stx | Alu | Jmp | Jmp32 | Alu64

  /** Arithmetic operation codes (RFC 9669, section 4.1). */
  datatype AluOp = Add | Sub | Mul | Div | Or | And | Lsh | Rsh | Neg | Mod | Xor | Mov | Arsh

  /** Jump operation codes (RFC 9669, section 4.3). */
  datatype JmpOp = Ja | Jeq | Jgt | Jge | Jset | Jne | Jsgt | Jsge | Call | Exit

  /** Load/store addressing modes (RFC 9669, section 5). */
  datatype Mode = Imm | Abs | Ind | Mem

  /** The operation field, read according to the instruction class. */
  datatype Op = Arith(alu: AluOp) | Branch(jmp: JmpOp) | Addressing(mode: Mode)

  /** Access sizes of load and store instructions (RFC 9669, section 5.1). */
  datatype Size = W | H | B | DW

  /** Whether the second operand is the immediate (K) or the source register (X). */
  datatype SrcKind = K | X

  /**
   * One instruction, field by field. Fields a class does not use are zero, as
   * they are in the encoding.
   */
  datatype Insn = Insn(cls: Class, op: Op, size: Size, srcKind: SrcKind,
                       dst: Reg, src: Reg, off: Int16, imm: Int32)

  // The instruction-building macros of the generator; arguments are converted
  // into the 16-bit offset and 32-bit immediate fields as C does.

  function MovReg(dst: Reg, src: Reg): Insn
  {
    Insn(Alu64, Arith(Mov), W, X, dst, src, 0, 0)
  }

  function MovImm(dst: Reg, imm: int): Insn
  {
    Insn(Alu64, Arith(Mov), W, K, dst, 0, 0, S32(imm))
  }

  function AluReg(op: AluOp, dst: Reg, src: Reg): Insn
  {
    Insn(Alu64, Arith(op), W, X, dst, src, 0, 0)
  }

  function AluImm(op: AluOp, dst: Reg, imm: int): Insn
  {
    Insn(Alu64, Arith(op), W, K, dst, 0, 0, S32(imm))
  }

  /** Double-word store of register `src` to `[dst + off]`. */
  function StxDw(dst: Reg, off: int, src: Reg): Insn
  {
    Insn(Stx, Addressing(Mem), DW, K, dst, src, S16(off), 0)
  }

  /** Double-word load of `[src + off]` into register `dst`. */
  function LdxDw(dst: Reg, off: int, src: Reg): Insn
  {
    Insn(Ldx, Addressing(Mem), DW, K, dst, src, S16(off), 0)
  }

  /** Word store of the immediate to `[dst + off]`. */
  function StwImm(dst: Reg, off: int, imm: int): Insn
  {
    Insn(St, Addressing(Mem), W, K, dst, 0, S16(off), S32(imm))
  }

  /** Conditional jump comparing register `dst` with the immediate; `off` counts from the next instruction. */
  function JmpImm(op: JmpOp, dst: Reg, imm: int, off: int): Insn
  {
    Insn(Jmp, Branch(op), W, K, dst, 0, S16(off), S32(imm))
  }

  function CallInsn(id: int): Insn
  {
    Insn(Jmp, Branch(Call), W, K, 0, 0, 0, S32(id))
  }

  const ExitInsn: Insn := Insn(Jmp, Branch(Exit), W, K, 0, 0, 0, 0)

  // Kernel helper identifiers (the kernel's enum bpf_func_id).
  const MapLookupElem: int := 1
  const MapUpdateElem: int := 2
  const MapDeleteElem: int := 3
  const ProbeRead: int := 4
  const KtimeGetNs: int := 5
  const TracePrintk: int := 6
  const GetCurrentPidTgid: int := 14
  const GetCurrentUidGid: int := 15
  const GetCurrentComm: int := 16

  const KnownHelpers: set<int> := {MapLookupElem, MapUpdateElem, MapDeleteElem, ProbeRead,
    KtimeGetNs, TracePrintk, GetCurrentPidTgid, GetCurrentUidGid, GetCurrentComm}

  /** The name the disassembler prints for a helper id; None for ids it prints as numbers. */
  function BpfFuncName(id: int): (r: Option<string>)
    ensures r.Some? <==> id in KnownHelpers
  {
    if id == MapLookupElem then Some("map_lookup_elem")
    else if id == MapUpdateElem then Some("map_update_elem")
    else if id == MapDeleteElem then Some("map_delete_elem")
    else if id == ProbeRead then Some("probe_read")
    else if id == KtimeGetNs then Some("ktime_get_ns")
    else if id == TracePrintk then Some("trace_printk")
    else if id == GetCurrentPidTgid then Some("get_current_pid_tgid")
    else if id == GetCurrentUidGid then Some("get_current_uid_gid")
    else if id == GetCurrentComm then Some("get_current_comm")
    else None
  }

  /** Different helpers get different names, so a disassembled call names its helper unambiguously. */
  lemma BpfFuncNameInjective(a: int, b: int)
    requires BpfFuncName(a).Some? && BpfFuncName(a) == BpfFuncName(b)
    ensures a == b
  {
  }
}

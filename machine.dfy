/**
 * A small operational semantics of the eBPF instructions the generator emits:
 * 64-bit arithmetic (RFC 9669, section 4.1), frame-pointer-relative loads and
 * stores (section 5.1) and forward jumps (section 4.3). Helper calls are not
 * executed: a run stops at one and reports the argument registers.
 */
module Machine {
  import opened Wrappers
  import opened Bytes
  import opened Bpf

  /** Register file and the stack frame, addressed by byte offset from r10. */
  datatype State = State(regs: seq<U64>, stack: map<int, Byte>)

  predicate Valid(s: State)
  {
    |s.regs| == 11
  }

  /** The immediate sign-extended to 64 bits, as the unsigned register value it becomes. */
  function Sext(imm: Int32): (r: U64)
    ensures (r - imm) % TWO64 == 0
  {
    imm % TWO64
  }

  function Pow2(n: nat): nat
  {
    if n == 0 then 1 else 2 * Pow2(n - 1)
  }

  function Or64(a: U64, b: U64): U64
  {
    ((a as bv64) | (b as bv64)) as int
  }

  function Shl64(a: U64, n: nat): U64
  {
    (a * Pow2(n)) % TWO64
  }

  /** The result of a 64-bit arithmetic operation; None for operations outside the modelled subset. */
  function AluResult(op: AluOp, x: U64, y: U64): Option<U64>
  {
    match op
    case Mov => Some(y)
    case Add => Some((x + y) % TWO64)
    case Sub => Some((x - y) % TWO64)
    case Or => Some(Or64(x, y))
    case Lsh => Some(Shl64(x, y % 64))
    case _ => None
  }

  /** The frame after writing `bs` at offset `off`. */
  function Store(m: map<int, Byte>, off: int, bs: seq<Byte>): map<int, Byte>
    decreases |bs|
  {
    if bs == [] then m else Store(m[off := bs[0]], off + 1, bs[1..])
  }

  /** What a store leaves at each offset: the new bytes inside the written range, the old frame outside. */
  lemma {:induction false} StoreAt(m: map<int, Byte>, off: int, bs: seq<Byte>, k: int)
    ensures off <= k < off + |bs| ==> k in Store(m, off, bs) && Store(m, off, bs)[k] == bs[k - off]
    ensures !(off <= k < off + |bs|) ==>
              (k in Store(m, off, bs) <==> k in m) && (k in m ==> Store(m, off, bs)[k] == m[k])
    decreases |bs|
  {
    if bs != [] {
      StoreAt(m[off := bs[0]], off + 1, bs[1..], k);
    }
  }

  /** Writing a concatenation is writing its parts one after the other. */
  lemma {:induction false} StoreAppend(m: map<int, Byte>, off: int, a: seq<Byte>, b: seq<Byte>)
    ensures Store(m, off, a + b) == Store(Store(m, off, a), off + |a|, b)
    decreases |a|
  {
    if a == [] {
      assert a + b == b;
    } else {
      assert (a + b)[0] == a[0];
      assert (a + b)[1..] == a[1..] + b;
      StoreAppend(m[off := a[0]], off + 1, a[1..], b);
    }
  }

  /** The `n` bytes at offset `off`; None when one of them was never written. */
  function Load(m: map<int, Byte>, off: int, n: nat): (r: Option<seq<Byte>>)
    ensures r.Some? ==> |r.value| == n
  {
    if forall k :: off <= k < off + n ==> k in m then Some(seq(n, j requires 0 <= j < n => m[off + j]))
    else None
  }

  /** Loading the first `n` bytes just stored gives them back. */
  lemma LoadStore(m: map<int, Byte>, off: int, bs: seq<Byte>, n: nat)
    requires n <= |bs|
    ensures Load(Store(m, off, bs), off, n) == Some(bs[..n])
  {
    var t := Store(m, off, bs);
    forall k | off <= k < off + n
      ensures k in t && t[k] == bs[k - off]
    {
      StoreAt(m, off, bs, k);
    }
    assert seq(n, j requires 0 <= j < n => t[off + j]) == bs[..n];
  }

  lemma Pow256Eight()
    ensures Pow256(8) == TWO64
  {
  }

  /** One non-jump instruction; None when it is outside the modelled subset or not allowed. */
  function Step(i: Insn, s: State): (r: Option<State>)
    requires Valid(s)
    ensures r.Some? ==> Valid(r.value)
  {
    match i.cls
    case Alu64 =>
      if !i.op.Arith? || i.dst == R10 then None
      else
        var y := if i.srcKind == K then Sext(i.imm) else s.regs[i.src];
        var v := AluResult(i.op.alu, s.regs[i.dst], y);
        if v.None? then None else Some(s.(regs := s.regs[i.dst := v.value]))
    case St =>
      if i.op == Addressing(Mem) && i.size == W && i.dst == R10
      then Some(s.(stack := Store(s.stack, i.off, LeBytes(i.imm, 4))))
      else None
    case Stx =>
      if i.op == Addressing(Mem) && i.size == DW && i.dst == R10
      then Some(s.(stack := Store(s.stack, i.off, LeBytes(s.regs[i.src], 8))))
      else None
    case Ldx =>
      if i.op == Addressing(Mem) && i.size == DW && i.src == R10 && i.dst != R10 then
        match Load(s.stack, i.off, 8)
        case None => None
        case Some(bs) =>
          Pow256Eight();
          Some(s.(regs := s.regs[i.dst := LeValue(bs)]))
      else None
    case _ => None
  }

  /** Straight-line execution; None as soon as an instruction cannot be stepped. */
  function Exec(code: seq<Insn>, s: State): (r: Option<State>)
    requires Valid(s)
    ensures r.Some? ==> Valid(r.value)
    decreases |code|
  {
    if code == [] then Some(s)
    else
      match Step(code[0], s)
      case None => None
      case Some(s1) => Exec(code[1..], s1)
  }

  /** How a run of a code fragment ends. */
  datatype Outcome =
    | Exited(ret: U64)                          // reached EXIT, returning r0
    | FellThrough(s: State)                     // ran off the end into whatever follows
    | CallsHelper(pc: nat, id: int, s: State)   // reached a helper call at `pc`
    | Stuck                                     // anything outside the modelled subset

  /** Run `code` from `pc`; jumps count from the next instruction and only go forward. */
  function Run(code: seq<Insn>, pc: nat, s: State): Outcome
    requires Valid(s) && pc <= |code|
    decreases |code| - pc
  {
    if pc == |code| then FellThrough(s)
    else
      var i := code[pc];
      var target := pc + 1 + i.off;
      var canJump := 0 <= i.off && target <= |code|;
      if i.cls == Jmp then
        if !i.op.Branch? then Stuck
        else
          match i.op.jmp
          case Exit => Exited(s.regs[0])
          case Call => CallsHelper(pc, i.imm, s)
          case Ja => if canJump then Run(code, target, s) else Stuck
          case Jeq =>
            if i.srcKind != K || !canJump then Stuck
            else if s.regs[i.dst] == Sext(i.imm) then Run(code, target, s)
            else Run(code, pc + 1, s)
          case Jne =>
            if i.srcKind != K || !canJump then Stuck
            else if s.regs[i.dst] != Sext(i.imm) then Run(code, target, s)
            else Run(code, pc + 1, s)
          case _ => Stuck
      else
        match Step(i, s)
        case None => Stuck
        case Some(s1) => Run(code, pc + 1, s1)
  }

  lemma MovRegStep(r: Reg, src: Reg, s: State)
    requires Valid(s) && r != R10
    ensures Step(MovReg(r, src), s) == Some(s.(regs := s.regs[r := s.regs[src]]))
  {
  }

  lemma MovImmStep(r: Reg, imm: Int32, s: State)
    requires Valid(s) && r != R10
    ensures Step(MovImm(r, imm), s) == Some(s.(regs := s.regs[r := Sext(imm)]))
  {
  }

  /** A non-jump instruction that steps moves the run to the next instruction. */
  lemma RunNext(code: seq<Insn>, pc: nat, s: State)
    requires Valid(s) && pc < |code| && code[pc].cls != Jmp && Step(code[pc], s).Some?
    ensures Run(code, pc, s) == Run(code, pc + 1, Step(code[pc], s).value)
  {
  }

  lemma RunExit(code: seq<Insn>, pc: nat, s: State)
    requires Valid(s) && pc < |code| && code[pc] == ExitInsn
    ensures Run(code, pc, s) == Exited(s.regs[0])
  {
  }

  /** A helper call stops the run, reporting the helper and the state it is called in. */
  lemma RunCall(code: seq<Insn>, pc: nat, s: State, id: int)
    requires Valid(s) && pc < |code| && code[pc] == CallInsn(id)
    ensures Run(code, pc, s) == CallsHelper(pc, S32(id), s)
  {
  }

  /** A conditional jump against zero: taken to `pc + 1 + off`, or on to the next instruction. */
  lemma RunBranch(code: seq<Insn>, pc: nat, s: State, op: JmpOp, dst: Reg, off: nat)
    requires Valid(s) && pc < |code| && code[pc] == JmpImm(op, dst, 0, off)
    requires op == Ja || op == Jeq || op == Jne
    requires off < 0x8000 && pc + 1 + off <= |code|
    ensures Run(code, pc, s) ==
            if op == Ja || (op == Jeq) == (s.regs[dst] == 0) then Run(code, pc + 1 + off, s)
            else Run(code, pc + 1, s)
  {
  }

  lemma ExecStep(code: seq<Insn>, s: State, t: State)
    requires Valid(s) && code != [] && Step(code[0], s) == Some(t)
    ensures Exec(code, s) == Exec(code[1..], t)
  {
  }

  /** Executing a concatenation executes its parts in turn. */
  lemma {:induction false} ExecAppend(a: seq<Insn>, b: seq<Insn>, s: State)
    requires Valid(s)
    ensures Exec(a + b, s) == (match Exec(a, s) case None => None case Some(t) => Exec(b, t))
    decreases |a|
  {
    if a == [] {
      assert a + b == b;
    } else {
      assert (a + b)[1..] == a[1..] + b;
      match Step(a[0], s)
      case None =>
      case Some(s1) => ExecAppend(a[1..], b, s1);
    }
  }
}

/**
 * What each routine of the generator appends to the program buffer and what
 * it returns, as functions of its inputs. The routines themselves, which
 * append instruction by instruction, are in module Compile and are proved to
 * append exactly these sequences.
 */
module CodeGen {
  import opened Wrappers
  import opened Bytes
  import opened Bpf
  import opened Ast

  /** Error numbers; routines return 0 or a negated error number. */
  const EINVAL: int := 22
  const ENOSYS: int := 38

  /** A routine's return code and the instructions it appended (on failure, those appended before it failed). */
  datatype Emitted = Emitted(err: int, code: seq<Insn>)

  /** Run `a`, then `b` unless `a` failed: the source's `if (err) return err;`. */
  function Then(a: Emitted, b: Emitted): Emitted
  {
    if a.err != 0 then a else Emitted(b.err, a.code + b.code)
  }

  /**
   * The routines defined outside this file, as the generator sees them:
   * the map's file descriptor, the instructions that load it into a
   * register, and a call provider's own code generation.
   */
  datatype Env = Env(mapFd: Node -> int,
                     ldMapFd: (Reg, int) -> seq<Insn>,
                     provider: Node -> Emitted)

  /** `MOV r0, #0; EXIT`: return zero from the probe. */
  const ExitSeq: seq<Insn> := [MovImm(R0, 0), ExitInsn]

  // ---------------------------------------------------------------- zero-fill

  /** `n` double-word stores of r0 at `addr`, `addr + 8`, ... */
  function ZeroStores(addr: int, n: nat): (r: seq<Insn>)
    ensures |r| == n
  {
    seq(n, k => StxDw(R10, addr + 8 * k, R0))
  }

  /** emit_stack_zero: clear r0, then store it over every 8-byte stride of the node's size. */
  function StackZeroCode(d: Dyn): seq<Insn>
  {
    [MovImm(R0, 0)] + ZeroStores(d.addr, (d.size + 7) / 8)
  }

  // ---------------------------------------------------------------- transfers

  /** Word stores of `words` at `addr`, `addr + 4`, ... */
  function WordStores(addr: int, words: seq<Int32>): (r: seq<Insn>)
    ensures |r| == |words|
  {
    seq(|words|, k requires 0 <= k < |words| => StwImm(R10, addr + 4 * k, words[k]))
  }

  /**
   * emit_xfer_literal: `words` is the literal's memory read as 32-bit words
   * and `size` the number of bytes to transfer. A register destination reads
   * the first two words as one int64.
   */
  function XferLiteralCode(to: Dyn, words: seq<Int32>, size: nat): Emitted
    requires to.loc == OnStack ==> size % 4 == 0 && size / 4 <= |words|
    requires to.loc == InReg ==> |words| >= 2
  {
    match to.loc
    case Nowhere => Emitted(-EINVAL, [])
    case InReg =>
      var v := Int64Of(words);
      if v > 0xffff_ffff then
        Emitted(0, [MovImm(to.reg, v / TWO32), AluImm(Lsh, to.reg, 32), AluImm(Or, to.reg, v / TWO32)])
      else
        Emitted(0, [MovImm(to.reg, v)])
    case OnStack => Emitted(0, WordStores(to.addr, words[.. size / 4]))
  }

  /** emit_xfer_reg: move register `from` to the destination. */
  function XferRegCode(to: Dyn, from: Reg): Emitted
  {
    match to.loc
    case Nowhere => Emitted(-EINVAL, [])
    case InReg => if to.reg == from then Emitted(0, []) else Emitted(0, [MovReg(to.reg, from)])
    case OnStack => Emitted(0, [StxDw(R10, to.addr, from)])
  }

  /** emit_xfer_stack: move the double word at frame offset `from` to the destination. */
  function XferStackCode(to: Dyn, from: int): Emitted
  {
    match to.loc
    case Nowhere => Emitted(-EINVAL, [])
    case InReg => Emitted(0, [LdxDw(to.reg, from, R10)])
    case OnStack => Emitted(-ENOSYS, [])
  }

  predicate IsLiteral(n: Node)
  {
    n.IntLit? || n.StrLit?
  }

  /**
   * What emit_xfer needs of a string source: its words cover the size when
   * it is copied to the stack, and two words when it is read into a register.
   */
  predicate XferReady(to: Node, from: Node)
  {
    from.StrLit? ==>
      (to.dyn.loc == OnStack ==> from.dyn.size % 4 == 0 && from.dyn.size <= |from.bytes|) &&
      (to.dyn.loc == InReg ==> |from.bytes| >= 8)
  }

  /**
   * emit_xfer: literals take the literal path whatever their own location;
   * other sources go by where they live. Every failure appends nothing.
   */
  function XferCode(to: Node, from: Node): (r: Emitted)
    requires XferReady(to, from)
    ensures r.err == 0 || r.err == -EINVAL || r.err == -ENOSYS
    ensures r.err != 0 ==> r.code == []
    ensures r.err == -EINVAL <==> to.dyn.loc == Nowhere || (!IsLiteral(from) && from.dyn.loc == Nowhere)
    ensures r.err == -ENOSYS <==>
              to.dyn.loc == OnStack && !IsLiteral(from) && from.dyn.loc == OnStack
  {
    match from
    case IntLit(_, v) => XferLiteralCode(to.dyn, IntWords(v), 8)
    case StrLit(d, bytes) => XferLiteralCode(to.dyn, PackWords(bytes), d.size)
    case _ =>
      match from.dyn.loc
      case Nowhere => Emitted(-EINVAL, [])
      case InReg => XferRegCode(to.dyn, from.dyn.reg)
      case OnStack => XferStackCode(to.dyn, from.dyn.addr)
  }

  // ---------------------------------------------------------------- map access

  /** Point r2 at the key record, call map_lookup_elem, skip the copy on a NULL result. */
  function LookupCode(keyAddr: int): seq<Insn>
  {
    [MovReg(R2, R10), AluImm(Add, R2, keyAddr), CallInsn(MapLookupElem), JmpImm(Jeq, R0, 0, 5)]
  }

  /** probe_read(r10 + value offset, value size, the found value). */
  function CopyCode(d: Dyn): seq<Insn>
  {
    [MovReg(R1, R10), AluImm(Add, R1, d.addr), MovImm(R2, d.size), MovReg(R3, R0), CallInsn(ProbeRead)]
  }

  /** map_update_elem(map, r10 + key offset, r10 + value offset, 0). */
  function UpdateCode(keyAddr: int, valueAddr: int): seq<Insn>
  {
    [MovReg(R2, R10), AluImm(Add, R2, keyAddr), MovReg(R3, R10), AluImm(Add, R3, valueAddr),
     MovImm(R4, 0), CallInsn(MapUpdateElem)]
  }

  /** emit_map_load: nothing under a plain overwrite, else zero-fill, look up, copy if found. */
  function MapLoadCode(env: Env, n: Node, parentMov: bool): Emitted
    requires n.MapRef?
  {
    if parentMov then Emitted(0, [])
    else Emitted(0, StackZeroCode(n.dyn) + env.ldMapFd(R1, env.mapFd(n)) + LookupCode(n.rec.dyn.addr) + CopyCode(n.dyn))
  }

  /** The map store that ends every assignment. */
  function StoreCode(env: Env, m: Node): seq<Insn>
    requires m.MapRef?
  {
    env.ldMapFd(R1, env.mapFd(m)) + UpdateCode(m.rec.dyn.addr, m.dyn.addr)
  }

  /** The in-place operation of a compound assignment, on the assignment's register. */
  function AssignAluInsn(a: Node): Insn
    requires a.Assign?
  {
    if a.expr.IntLit? then AluImm(a.op, a.dyn.reg, a.expr.integer)
    else AluReg(a.op, a.dyn.reg, a.expr.dyn.reg)
  }

  /** The part of emit_assign before the store. */
  function AssignComputeCode(a: Node): Emitted
    requires a.Assign? && a.lval.MapRef?
  {
    if a.op == Mov then
      (if a.expr.IntLit? then XferCode(a.lval, a.expr) else Emitted(0, []))
    else
      Then(XferCode(a, a.lval), Then(Emitted(0, [AssignAluInsn(a)]), XferCode(a.lval, a)))
  }

  /**
   * emit_assign: a plain overwrite transfers only an integer right-hand side;
   * a compound one loads the map value into the assignment's location,
   * applies the operator, and transfers the result back. Then the store.
   */
  function AssignCode(env: Env, a: Node): Emitted
    requires a.Assign? && a.lval.MapRef?
  {
    Then(AssignComputeCode(a), Emitted(0, StoreCode(env, a.lval)))
  }

  // ---------------------------------------------------------------- dispatch and walk

  /**
   * compile_post: the per-kind action once a node's children are compiled.
   * A string literal's transfer error is dropped, as in the source.
   */
  function PostCode(env: Env, n: Node, parentMov: bool): (r: Emitted)
    requires LocalOk(n)
    ensures n.IntLit? || n.Rec? || n.Not? || n.Binop? || n.Return? ==> r == Emitted(0, [])
    ensures n.Probe? || n.Script? || n.Untyped? ==> r == Emitted(-ENOSYS, [])
    ensures n.StrLit? ==> r.err == 0
  {
    match n
    case IntLit(_, _) => Emitted(0, [])
    case StrLit(_, _) => Emitted(0, XferCode(n, n).code)
    case Rec(_, _) => Emitted(0, [])
    case MapRef(_, _) => MapLoadCode(env, n, parentMov)
    case Not(_, _) => Emitted(0, [])
    case Binop(_, _, _) => Emitted(0, [])
    case Return(_) => Emitted(0, [])
    case Assign(_, _, _, _) => AssignCode(env, n)
    case FnCall(_, _) => env.provider(n)
    case Probe(_, _, _) => Emitted(-ENOSYS, [])
    case Script(_, _) => Emitted(-ENOSYS, [])
    case Untyped(_) => Emitted(-ENOSYS, [])
  }

  /** Post-order walk: the children in order, then the node itself; the first error stops it. */
  function WalkCode(env: Env, n: Node, parentMov: bool): Emitted
    requires WellFormed(n)
    decreases n, 1
  {
    ChildrenWellFormed(n);
    Then(WalkListCode(env, Children(n), UnderMov(n), n), PostCode(env, n, parentMov))
  }

  /** Walk the siblings `ns`, children of `owner`, in order. */
  function WalkListCode(env: Env, ns: seq<Node>, parentMov: bool, ghost owner: Node): Emitted
    requires Siblings(ns, owner)
    decreases owner, 0, |ns|
  {
    if ns == [] then Emitted(0, [])
    else Then(WalkCode(env, ns[0], parentMov), WalkListCode(env, ns[1..], parentMov, owner))
  }

  lemma AppendAssoc(a: seq<Insn>, b: seq<Insn>, c: seq<Insn>)
    ensures (a + b) + c == a + (b + c)
  {
  }

  lemma ThenAssoc(a: Emitted, b: Emitted, c: Emitted)
    ensures Then(Then(a, b), c) == Then(a, Then(b, c))
  {
    if a.err == 0 && b.err == 0 {
      assert (a.code + b.code) + c.code == a.code + (b.code + c.code);
    }
  }

  lemma ThenNil(a: Emitted)
    ensures Then(a, Emitted(0, [])) == a
  {
    assert a.code + [] == a.code;
  }

  /** Walking a list is walking a prefix, then (unless it failed) the rest. */
  lemma {:induction false} WalkListSplit(env: Env, ns: seq<Node>, i: nat, parentMov: bool, owner: Node)
    requires i <= |ns| && Siblings(ns, owner)
    ensures WalkListCode(env, ns, parentMov, owner) ==
            Then(WalkListCode(env, ns[..i], parentMov, owner), WalkListCode(env, ns[i..], parentMov, owner))
    decreases i
  {
    if i == 0 {
      assert ns[..0] == [] && ns[0..] == ns;
      var w := WalkListCode(env, ns, parentMov, owner);
      assert [] + w.code == w.code;
    } else {
      var pre := ns[..i];
      assert Siblings(ns[1..], owner) && Siblings(pre, owner) by {
        assert forall k :: 0 <= k < |ns| - 1 ==> ns[1..][k] == ns[k + 1];
        assert forall k :: 0 <= k < i ==> pre[k] == ns[k];
      }
      WalkListSplit(env, ns[1..], i - 1, parentMov, owner);
      assert pre[0] == ns[0] && ns[1..][..i - 1] == pre[1..];
      assert ns[1..][i - 1..] == ns[i..];
      ThenAssoc(WalkCode(env, ns[0], parentMov), WalkListCode(env, ns[..i][1..], parentMov, owner),
                WalkListCode(env, ns[i..], parentMov, owner));
    }
  }

  /**
   * Before the i-th sibling is walked, the walk so far extended by that
   * sibling's walk is the walk of the first i + 1, and it fits in the walk of
   * the whole list.
   */
  lemma WalkListStep(env: Env, ns: seq<Node>, i: nat, parentMov: bool, owner: Node)
    requires i < |ns| && Siblings(ns, owner)
    requires WalkListCode(env, ns[..i], parentMov, owner).err == 0
    ensures WalkListCode(env, ns[..i + 1], parentMov, owner) ==
            Then(WalkListCode(env, ns[..i], parentMov, owner), WalkCode(env, ns[i], parentMov))
    ensures |WalkListCode(env, ns[..i], parentMov, owner).code| + |WalkCode(env, ns[i], parentMov).code| <=
            |WalkListCode(env, ns, parentMov, owner).code|
  {
    WalkListSplit(env, ns, i + 1, parentMov, owner);
    var pre := ns[..i + 1];
    WalkListSplit(env, pre, i, parentMov, owner);
    assert pre[..i] == ns[..i];
    assert pre[i..] == [ns[i]];
    assert [ns[i]][1..] == [];
    ThenNil(WalkCode(env, ns[i], parentMov));
  }

  // ---------------------------------------------------------------- predicate and probe

  /** The early-exit gate after the predicate is compiled: jump over `MOV r0, #0; EXIT` when true. */
  function GateCode(p: Node): Emitted
  {
    match p.dyn.loc
    case InReg => Emitted(0, [JmpImm(Jne, p.dyn.reg, 0, 2)] + ExitSeq)
    case OnStack => Emitted(0, [LdxDw(R0, p.dyn.addr, R10), JmpImm(Jne, R0, 0, 2)] + ExitSeq)
    case Nowhere =>
      if !p.IntLit? then Emitted(-EINVAL, [])
      else Emitted(0, (if p.integer != 0 then [JmpImm(Ja, 0, 0, 2)] else []) + ExitSeq)
  }

  /** compile_pred: nothing without a predicate; otherwise compile it, then the gate. */
  function PredCode(env: Env, pred: Option<Node>): Emitted
    requires pred.Some? ==> WellFormed(pred.value)
  {
    if pred.None? then Emitted(0, [])
    else Then(WalkCode(env, pred.value, false), GateCode(pred.value))
  }

  predicate ProbeReady(p: Node)
  {
    p.Probe? && |p.stmts| > 0 && WellFormed(p)
  }

  /** The implicit `return 0` compile_probe appends unless the last statement is a return. */
  function TailCode(p: Node): seq<Insn>
    requires p.Probe? && |p.stmts| > 0
  {
    if p.stmts[|p.stmts| - 1].Return? then [] else ExitSeq
  }

  /** Everything compile_probe emits: save the context pointer, the gate, the statements, the tail. */
  function ProbeEmit(env: Env, p: Node): Emitted
    requires ProbeReady(p)
  {
    Then(Emitted(0, [MovReg(R9, R1)]),
      Then(PredCode(env, p.pred),
        Then(WalkListCode(env, p.stmts, false, p), Emitted(0, TailCode(p)))))
  }

  /** compile_probe's result: the program, or None (NULL) on the first error. */
  function ProbeProgram(env: Env, p: Node): Option<seq<Insn>>
    requires ProbeReady(p)
  {
    var e := ProbeEmit(env, p);
    if e.err != 0 then None else Some(e.code)
  }
}

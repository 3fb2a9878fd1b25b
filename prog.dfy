/**
 * The program buffer and the routines that fill it. Each routine appends
 * instruction by instruction, as the generator does, and is proved to append
 * exactly the sequence module CodeGen assigns to it and to return its error
 * code.
 */
module Compile {
  import opened Wrappers
  import opened Bpf
  import opened Ast
  import opened CodeGen

  /**
   * A fixed buffer of instructions and the cursor `ip` of the next free slot;
   * `code` is what has been emitted so far.
   */
  class Prog {
    const insns: array<Insn>
    var ip: nat
    ghost var code: seq<Insn>

    ghost predicate Valid()
      reads this, insns
    {
      ip <= insns.Length && code == insns[..ip]
    }

    /** There are `n` free slots after the cursor. */
    ghost predicate Room(n: nat)
      reads this
    {
      |code| + n <= insns.Length
    }

    /** A zeroed buffer of `capacity` slots with the cursor at its start. */
    constructor(capacity: nat)
      ensures Valid() && code == [] && insns.Length == capacity
      ensures fresh(insns)
    {
      insns := new Insn[capacity](_ => Insn(Ld, Arith(Add), W, K, 0, 0, 0, 0));
      ip := 0;
      code := [];
    }

    /** emit: store one instruction at the cursor and advance it. */
    method Emit(insn: Insn)
      requires Valid() && Room(1)
      modifies this, insns
      ensures Valid() && code == old(code) + [insn]
      ensures ip == old(ip) + 1 && insns[old(ip)] == insn
      ensures insns[..old(ip)] == old(insns[..ip])
    {
      insns[ip] := insn;
      ip := ip + 1;
      code := code + [insn];
    }

    /** Append a whole sequence, one instruction at a time. */
    method EmitAll(block: seq<Insn>)
      requires Valid() && Room(|block|)
      modifies this, insns
      ensures Valid() && code == old(code) + block
    {
      var i := 0;
      while i < |block|
        invariant 0 <= i <= |block|
        invariant Valid() && code == old(code) + block[..i]
      {
        Emit(block[i]);
        assert block[..i + 1] == block[..i] + [block[i]];
        i := i + 1;
      }
      assert block[..i] == block;
    }

    /** emit_ld_mapfd, defined elsewhere: append the instructions that load a map's descriptor into `reg`. */
    method LdMapFd(env: Env, reg: Reg, fd: int)
      requires Valid() && Room(|env.ldMapFd(reg, fd)|)
      modifies this, insns
      ensures Valid() && code == old(code) + env.ldMapFd(reg, fd)
    {
      EmitAll(env.ldMapFd(reg, fd));
    }

    /** emit_stack_zero: `MOV r0, #0`, then one double-word store of r0 per 8 bytes of the node's size. */
    method StackZero(n: Node) returns (err: int)
      requires Valid() && Room(|StackZeroCode(n.dyn)|)
      modifies this, insns
      ensures Valid() && code == old(code) + StackZeroCode(n.dyn)
      ensures err == 0
    {
      Emit(MovImm(R0, 0));
      var i: nat := 0;
      while i < n.dyn.size
        invariant i % 8 == 0 && i <= n.dyn.size + 7
        invariant Valid() && code == old(code) + [MovImm(R0, 0)] + ZeroStores(n.dyn.addr, i / 8)
      {
        Emit(StxDw(R10, n.dyn.addr + i, R0));
        assert ZeroStores(n.dyn.addr, i / 8 + 1) ==
               ZeroStores(n.dyn.addr, i / 8) + [StxDw(R10, n.dyn.addr + i, R0)];
        i := i + 8;
      }
      return 0;
    }

    /**
     * emit_xfer_literal: `from` is the literal's memory as 32-bit words and
     * `size` the byte count; a register destination reads the first two
     * words as one int64.
     */
    method XferLiteral(to: Node, from: seq<Int32>, size: nat) returns (err: int)
      requires to.dyn.loc == OnStack ==> size % 4 == 0 && size / 4 <= |from|
      requires to.dyn.loc == InReg ==> |from| >= 2
      requires Valid() && Room(|XferLiteralCode(to.dyn, from, size).code|)
      modifies this, insns
      ensures Valid() && code == old(code) + XferLiteralCode(to.dyn, from, size).code
      ensures err == XferLiteralCode(to.dyn, from, size).err
    {
      match to.dyn.loc
      case Nowhere =>
        return -EINVAL;
      case InReg =>
        var integer := Int64Of(from);
        if integer > 0xffff_ffff {
          Emit(MovImm(to.dyn.reg, integer / TWO32));
          Emit(AluImm(Lsh, to.dyn.reg, 32));
          Emit(AluImm(Or, to.dyn.reg, integer / TWO32));
          assert code == old(code) + [MovImm(to.dyn.reg, integer / TWO32), AluImm(Lsh, to.dyn.reg, 32),
                                      AluImm(Or, to.dyn.reg, integer / TWO32)];
        } else {
          Emit(MovImm(to.dyn.reg, integer));
        }
        return 0;
      case OnStack =>
        var at := to.dyn.addr;
        var rest := size;
        var k := 0;
        while rest != 0
          invariant rest % 4 == 0 && 0 <= rest <= size
          invariant 4 * k == size - rest && at == to.dyn.addr + 4 * k
          invariant Valid() && code == old(code) + WordStores(to.dyn.addr, from[..k])
          decreases rest
        {
          ghost var stored := WordStores(to.dyn.addr, from[..k]);
          Emit(StwImm(R10, at, from[k]));
          assert WordStores(to.dyn.addr, from[..k + 1]) == stored + [StwImm(R10, at, from[k])];
          AppendAssoc(old(code), stored, [StwImm(R10, at, from[k])]);
          at := at + 4;
          rest := rest - 4;
          k := k + 1;
        }
        assert k == size / 4;
        return 0;
    }

    /** emit_xfer_reg: move register `from` to the destination. */
    method XferReg(to: Node, from: Reg) returns (err: int)
      requires Valid() && Room(|XferRegCode(to.dyn, from).code|)
      modifies this, insns
      ensures Valid() && code == old(code) + XferRegCode(to.dyn, from).code
      ensures err == XferRegCode(to.dyn, from).err
    {
      match to.dyn.loc
      case Nowhere =>
        return -EINVAL;
      case InReg =>
        if to.dyn.reg == from {
          return 0;
        }
        Emit(MovReg(to.dyn.reg, from));
        return 0;
      case OnStack =>
        Emit(StxDw(R10, to.dyn.addr, from));
        return 0;
    }

    /** emit_xfer_stack: move the double word at frame offset `from` to the destination. */
    method XferStack(to: Node, from: int) returns (err: int)
      requires Valid() && Room(|XferStackCode(to.dyn, from).code|)
      modifies this, insns
      ensures Valid() && code == old(code) + XferStackCode(to.dyn, from).code
      ensures err == XferStackCode(to.dyn, from).err
    {
      match to.dyn.loc
      case Nowhere =>
        return -EINVAL;
      case InReg =>
        Emit(LdxDw(to.dyn.reg, from, R10));
        return 0;
      case OnStack =>
        return -ENOSYS;
    }

    /** emit_xfer: literals by value, everything else by the source's location. */
    method Xfer(to: Node, from: Node) returns (err: int)
      requires XferReady(to, from)
      requires Valid() && Room(|XferCode(to, from).code|)
      modifies this, insns
      ensures Valid() && code == old(code) + XferCode(to, from).code
      ensures err == XferCode(to, from).err
    {
      match from {
        case IntLit(_, integer) =>
          err := XferLiteral(to, IntWords(integer), 8);
          return;
        case StrLit(d, bytes) =>
          err := XferLiteral(to, PackWords(bytes), d.size);
          return;
        case _ =>
      }
      match from.dyn.loc
      case Nowhere =>
        return -EINVAL;
      case InReg =>
        err := XferReg(to, from.dyn.reg);
      case OnStack =>
        err := XferStack(to, from.dyn.addr);
    }

    /** emit_map_load: unless under a plain overwrite, zero the value, look it up and copy it if found. */
    method MapLoad(env: Env, n: Node, parentMov: bool) returns (err: int)
      requires n.MapRef?
      requires Valid() && Room(|MapLoadCode(env, n, parentMov).code|)
      modifies this, insns
      ensures Valid() && code == old(code) + MapLoadCode(env, n, parentMov).code
      ensures err == 0
    {
      if parentMov {
        return 0;
      }
      var _ := StackZero(n);
      LdMapFd(env, R1, env.mapFd(n));
      Lookup(n.rec.dyn.addr);
      CopyValue(n);
      return 0;
    }

    /** Point r2 at the key record, call map_lookup_elem, and skip the next five instructions on NULL. */
    method Lookup(keyAddr: int)
      requires Valid() && Room(|LookupCode(keyAddr)|)
      modifies this, insns
      ensures Valid() && code == old(code) + LookupCode(keyAddr)
    {
      Emit(MovReg(R2, R10));
      Emit(AluImm(Add, R2, keyAddr));
      Emit(CallInsn(MapLookupElem));
      Emit(JmpImm(Jeq, R0, 0, 5));
    }

    /** probe_read the value map_lookup_elem found into the node's stack slot. */
    method CopyValue(n: Node)
      requires Valid() && Room(|CopyCode(n.dyn)|)
      modifies this, insns
      ensures Valid() && code == old(code) + CopyCode(n.dyn)
    {
      Emit(MovReg(R1, R10));
      Emit(AluImm(Add, R1, n.dyn.addr));
      Emit(MovImm(R2, n.dyn.size));
      Emit(MovReg(R3, R0));
      Emit(CallInsn(ProbeRead));
    }

    /** emit_assign: compute the new value where the assignment lives, then store it with map_update_elem. */
    method Assign(env: Env, a: Node) returns (err: int)
      requires a.Assign? && a.lval.MapRef?
      requires Valid() && Room(|AssignCode(env, a).code|)
      modifies this, insns
      ensures Valid() && code == old(code) + AssignCode(env, a).code
      ensures err == AssignCode(env, a).err
    {
      var m, expr := a.lval, a.expr;
      if a.op == Mov {
        if expr.IntLit? {
          err := Xfer(m, expr);
          if err != 0 {
            return;
          }
        }
      } else {
        err := Xfer(a, m);
        if err != 0 {
          return;
        }
        ghost var load := code;
        if expr.IntLit? {
          Emit(AluImm(a.op, a.dyn.reg, expr.integer));
        } else {
          Emit(AluReg(a.op, a.dyn.reg, expr.dyn.reg));
        }
        ghost var op := [AssignAluInsn(a)];
        err := Xfer(m, a);
        AppendAssoc(load, op, XferCode(m, a).code);
        AppendAssoc(old(code), XferCode(a, m).code, op + XferCode(m, a).code);
        if err != 0 {
          return;
        }
      }
      MapUpdate(env, m);
      AppendAssoc(old(code), AssignComputeCode(a).code, StoreCode(env, m));
      return 0;
    }

    /** The store that ends emit_assign: map_update_elem(map, r10 + key offset, r10 + value offset, 0). */
    method MapUpdate(env: Env, m: Node)
      requires m.MapRef?
      requires Valid() && Room(|StoreCode(env, m)|)
      modifies this, insns
      ensures Valid() && code == old(code) + StoreCode(env, m)
    {
      LdMapFd(env, R1, env.mapFd(m));
      UpdateCall(m.rec.dyn.addr, m.dyn.addr);
      AppendAssoc(old(code), env.ldMapFd(R1, env.mapFd(m)), UpdateCode(m.rec.dyn.addr, m.dyn.addr));
    }

    /** Pass r2 = key, r3 = value, r4 = 0 to map_update_elem (r1 already holds the map). */
    method UpdateCall(keyAddr: int, valueAddr: int)
      requires Valid() && Room(|UpdateCode(keyAddr, valueAddr)|)
      modifies this, insns
      ensures Valid() && code == old(code) + UpdateCode(keyAddr, valueAddr)
    {
      Emit(MovReg(R2, R10));
      Emit(AluImm(Add, R2, keyAddr));
      Emit(MovReg(R3, R10));
      Emit(AluImm(Add, R3, valueAddr));
      Emit(MovImm(R4, 0));
      Emit(CallInsn(MapUpdateElem));
    }

    /** A call provider's own code generation, defined elsewhere. */
    method Provide(env: Env, n: Node) returns (err: int)
      requires Valid() && Room(|env.provider(n).code|)
      modifies this, insns
      ensures Valid() && code == old(code) + env.provider(n).code
      ensures err == env.provider(n).err
    {
      EmitAll(env.provider(n).code);
      return env.provider(n).err;
    }

    /** compile_post: the per-kind action once a node's children are compiled. */
    method Post(env: Env, n: Node, parentMov: bool) returns (err: int)
      requires LocalOk(n)
      requires Valid() && Room(|PostCode(env, n, parentMov).code|)
      modifies this, insns
      ensures Valid() && code == old(code) + PostCode(env, n, parentMov).code
      ensures err == PostCode(env, n, parentMov).err
    {
      err := 0;
      match n
      case IntLit(_, _) =>
      case StrLit(_, _) =>
        var _ := Xfer(n, n);
      case Rec(_, _) =>
      case MapRef(_, _) =>
        err := MapLoad(env, n, parentMov);
      case Not(_, _) =>
      case Binop(_, _, _) =>
      case Return(_) =>
      case Assign(_, _, _, _) =>
        err := Assign(env, n);
      case FnCall(_, _) =>
        err := Provide(env, n);
      case Probe(_, _, _) =>
        err := -ENOSYS;
      case Script(_, _) =>
        err := -ENOSYS;
      case Untyped(_) =>
        err := -ENOSYS;
    }

    /** compile_walk: the children in order, then the node itself; the first error stops the walk. */
    method Walk(env: Env, n: Node, parentMov: bool) returns (err: int)
      requires WellFormed(n)
      requires Valid() && Room(|WalkCode(env, n, parentMov).code|)
      modifies this, insns
      ensures Valid() && code == old(code) + WalkCode(env, n, parentMov).code
      ensures err == WalkCode(env, n, parentMov).err
      decreases n, 1
    {
      ChildrenWellFormed(n);
      ghost var children := WalkListCode(env, Children(n), UnderMov(n), n);
      err := WalkList(env, Children(n), UnderMov(n), n);
      if err != 0 {
        return;
      }
      err := Post(env, n, parentMov);
      AppendAssoc(old(code), children.code, PostCode(env, n, parentMov).code);
    }

    /** Walk the siblings `ns`, children of `owner`, in order, stopping at the first error. */
    method WalkList(env: Env, ns: seq<Node>, parentMov: bool, ghost owner: Node) returns (err: int)
      requires Siblings(ns, owner)
      requires Valid() && Room(|WalkListCode(env, ns, parentMov, owner).code|)
      modifies this, insns
      ensures Valid() && code == old(code) + WalkListCode(env, ns, parentMov, owner).code
      ensures err == WalkListCode(env, ns, parentMov, owner).err
      decreases owner, 0
    {
      var i := 0;
      while i < |ns|
        invariant 0 <= i <= |ns|
        invariant WalkListCode(env, ns[..i], parentMov, owner).err == 0
        invariant Valid() && code == old(code) + WalkListCode(env, ns[..i], parentMov, owner).code
      {
        WalkListStep(env, ns, i, parentMov, owner);
        ghost var done, w := WalkListCode(env, ns[..i], parentMov, owner), WalkCode(env, ns[i], parentMov);
        err := Walk(env, ns[i], parentMov);
        AppendAssoc(old(code), done.code, w.code);
        if err != 0 {
          WalkListSplit(env, ns, i + 1, parentMov, owner);
          return;
        }
        i := i + 1;
      }
      assert ns[..i] == ns;
      return 0;
    }

    /** compile_pred: compile the predicate, then jump over `MOV r0, #0; EXIT` when it holds. */
    method Pred(env: Env, pred: Option<Node>) returns (err: int)
      requires pred.Some? ==> WellFormed(pred.value)
      requires Valid() && Room(|PredCode(env, pred).code|)
      modifies this, insns
      ensures Valid() && code == old(code) + PredCode(env, pred).code
      ensures err == PredCode(env, pred).err
    {
      if pred.None? {
        return 0;
      }
      var p := pred.value;
      err := Walk(env, p, false);
      if err != 0 {
        return;
      }
      ghost var walked := code;
      err := Gate(p);
      AppendAssoc(old(code), WalkCode(env, p, false).code, GateCode(p).code);
    }

    /** The gate compile_pred emits after the predicate: jump over `MOV r0, #0; EXIT` when it holds. */
    method Gate(p: Node) returns (err: int)
      requires Valid() && Room(|GateCode(p).code|)
      modifies this, insns
      ensures Valid() && code == old(code) + GateCode(p).code
      ensures err == GateCode(p).err
    {
      match p.dyn.loc {
        case InReg =>
          Emit(JmpImm(Jne, p.dyn.reg, 0, 2));
        case OnStack =>
          Emit(LdxDw(R0, p.dyn.addr, R10));
          Emit(JmpImm(Jne, R0, 0, 2));
        case Nowhere =>
          if !p.IntLit? {
            return -EINVAL;
          }
          if p.integer != 0 {
            Emit(JmpImm(Ja, 0, 0, 2));
          }
      }
      ghost var jumped := code;
      Emit(MovImm(R0, 0));
      Emit(ExitInsn);
      AppendAssoc(jumped, [MovImm(R0, 0)], [ExitInsn]);
      assert [MovImm(R0, 0)] + [ExitInsn] == ExitSeq;
      AppendAssoc(old(code), jumped[|old(code)|..], ExitSeq);
      assert old(code) + jumped[|old(code)|..] == jumped;
      return 0;
    }

    /**
     * The body of compile_probe: `MOV r9, r1`, the predicate gate, every
     * statement in order, and `MOV r0, #0; EXIT` unless the last statement
     * is a return.
     */
    method Probe(env: Env, probe: Node) returns (err: int)
      requires ProbeReady(probe)
      requires Valid() && code == [] && Room(|ProbeEmit(env, probe).code|)
      modifies this, insns
      ensures Valid() && err == ProbeEmit(env, probe).err
      ensures err == 0 ==> code == ProbeEmit(env, probe).code
    {
      ghost var head := Then(Emitted(0, [MovReg(R9, R1)]), PredCode(env, probe.pred));
      ghost var body := WalkListCode(env, probe.stmts, false, probe);
      ghost var tail := Emitted(0, TailCode(probe));
      ThenAssoc(Emitted(0, [MovReg(R9, R1)]), PredCode(env, probe.pred), Then(body, tail));
      assert ProbeEmit(env, probe) == Then(head, Then(body, tail));
      err := Prologue(env, probe.pred);
      if err != 0 {
        return;
      }
      assert code == head.code;
      var stmt;
      err, stmt := Statements(env, probe);
      if err != 0 {
        return;
      }
      if stmt.Return? {
        assert tail == Emitted(0, []);
        ThenNil(body);
        return 0;
      }
      ghost var walked := code;
      Emit(MovImm(R0, 0));
      Emit(ExitInsn);
      AppendAssoc(walked, [MovImm(R0, 0)], [ExitInsn]);
      assert [MovImm(R0, 0)] + [ExitInsn] == ExitSeq;
      AppendAssoc(head.code, body.code, ExitSeq);
      return 0;
    }

    /** The start of compile_probe: keep the context pointer r1 in r9, then the predicate gate. */
    method Prologue(env: Env, pred: Option<Node>) returns (err: int)
      requires pred.Some? ==> WellFormed(pred.value)
      requires Valid() && Room(1 + |PredCode(env, pred).code|)
      modifies this, insns
      ensures Valid() && code == old(code) + Then(Emitted(0, [MovReg(R9, R1)]), PredCode(env, pred)).code
      ensures err == PredCode(env, pred).err
    {
      Emit(MovReg(R9, R1));
      err := Pred(env, pred);
      AppendAssoc(old(code), [MovReg(R9, R1)], PredCode(env, pred).code);
    }

    /** The statement loop of compile_probe; on success `stmt` is the last statement. */
    method Statements(env: Env, probe: Node) returns (err: int, stmt: Node)
      requires ProbeReady(probe)
      requires Valid() && Room(|WalkListCode(env, probe.stmts, false, probe).code|)
      modifies this, insns
      ensures Valid() && code == old(code) + WalkListCode(env, probe.stmts, false, probe).code
      ensures err == WalkListCode(env, probe.stmts, false, probe).err
      ensures err == 0 ==> stmt == probe.stmts[|probe.stmts| - 1]
    {
      var stmts := probe.stmts;
      assert Siblings(stmts, probe);
      var i := 0;
      while true
        invariant 0 <= i < |stmts|
        invariant WalkListCode(env, stmts[..i], false, probe).err == 0
        invariant Valid() && code == old(code) + WalkListCode(env, stmts[..i], false, probe).code
        decreases |stmts| - i
      {
        stmt := stmts[i];
        WalkListStep(env, stmts, i, false, probe);
        ghost var done, w := WalkListCode(env, stmts[..i], false, probe), WalkCode(env, stmt, false);
        err := Walk(env, stmt, false);
        AppendAssoc(old(code), done.code, w.code);
        if err != 0 {
          WalkListSplit(env, stmts, i + 1, false, probe);
          return;
        }
        if i + 1 == |stmts| {
          break;
        }
        i := i + 1;
      }
      assert stmts[..i + 1] == stmts;
    }
  }

  /**
   * compile_probe: a fresh buffer of `capacity` slots (`allocOk` is whether
   * the allocation succeeds), filled by Prog.Probe; any error discards it.
   */
  method CompileProbe(env: Env, probe: Node, capacity: nat, allocOk: bool) returns (prog: Prog?)
    requires ProbeReady(probe)
    requires |ProbeEmit(env, probe).code| <= capacity
    ensures prog == null <==> !allocOk || ProbeProgram(env, probe).None?
    ensures prog != null ==> fresh(prog) && prog.Valid() &&
                             prog.code == ProbeProgram(env, probe).value
  {
    if !allocOk {
      return null;
    }
    prog := new Prog(capacity);
    var err := prog.Probe(env, probe);
    if err != 0 {
      return null;
    }
  }
}

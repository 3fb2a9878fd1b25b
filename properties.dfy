/**
 * Properties of the generated code as a whole: how errors propagate through
 * the post-order walk, which node kinds can never be compiled, and the shape
 * of every program compile_probe returns.
 */
module Properties {
  import opened Wrappers
  import opened Bpf
  import opened Ast
  import opened CodeGen
  import opened Machine

  // ---------------------------------------------------------------- zero-fill

  /**
   * emit_stack_zero's loop stores at offsets 0, 8, 16, ... below the size:
   * one MOV, then exactly enough double-word stores to cover the node's
   * bytes and no more than seven bytes beyond them.
   */
  lemma StackZeroShape(d: Dyn)
    ensures var c := StackZeroCode(d);
            |c| >= 1 && c[0] == MovImm(R0, 0) &&
            (forall k :: 1 <= k < |c| ==> c[k] == StxDw(R10, d.addr + 8 * (k - 1), R0)) &&
            d.size <= 8 * (|c| - 1) < d.size + 8
  {
    var c := StackZeroCode(d);
    var n := (d.size + 7) / 8;
    assert |c| == 1 + n;
    forall k | 1 <= k < |c|
      ensures c[k] == StxDw(R10, d.addr + 8 * (k - 1), R0)
    {
      assert c[k] == ZeroStores(d.addr, n)[k - 1];
    }
  }

  // ---------------------------------------------------------------- the walk

  lemma SiblingsTail(ns: seq<Node>, owner: Node)
    requires Siblings(ns, owner) && ns != []
    ensures Siblings(ns[1..], owner)
  {
    assert forall i :: 0 <= i < |ns| - 1 ==> ns[1..][i] == ns[i + 1];
  }

  /** A list walk succeeds exactly when the walk of every sibling succeeds. */
  lemma {:induction false} WalkListOk(env: Env, ns: seq<Node>, parentMov: bool, owner: Node)
    requires Siblings(ns, owner)
    ensures WalkListCode(env, ns, parentMov, owner).err == 0 <==>
            forall i :: 0 <= i < |ns| ==> WalkCode(env, ns[i], parentMov).err == 0
    decreases |ns|
  {
    if ns != [] {
      SiblingsTail(ns, owner);
      WalkListOk(env, ns[1..], parentMov, owner);
      assert forall i :: 1 <= i < |ns| ==> ns[1..][i - 1] == ns[i];
    }
  }

  /**
   * A failing list walk reports the error of the first sibling that fails;
   * every sibling before it compiled.
   */
  lemma {:induction false} WalkListFirstError(env: Env, ns: seq<Node>, parentMov: bool, owner: Node)
    requires Siblings(ns, owner)
    requires WalkListCode(env, ns, parentMov, owner).err != 0
    ensures exists j :: 0 <= j < |ns| && WalkListCode(env, ns, parentMov, owner).err == WalkCode(env, ns[j], parentMov).err &&
                        forall i :: 0 <= i < j ==> WalkCode(env, ns[i], parentMov).err == 0
    decreases |ns|
  {
    var e := WalkListCode(env, ns, parentMov, owner).err;
    if WalkCode(env, ns[0], parentMov).err != 0 {
      assert e == WalkCode(env, ns[0], parentMov).err;
    } else {
      SiblingsTail(ns, owner);
      WalkListFirstError(env, ns[1..], parentMov, owner);
      var j :| 0 <= j < |ns[1..]| && WalkListCode(env, ns[1..], parentMov, owner).err == WalkCode(env, ns[1..][j], parentMov).err &&
               forall i :: 0 <= i < j ==> WalkCode(env, ns[1..][i], parentMov).err == 0;
      assert ns[1..][j] == ns[j + 1];
      forall i | 0 <= i < j + 1
        ensures WalkCode(env, ns[i], parentMov).err == 0
      {
        if i > 0 {
          assert ns[i] == ns[1..][i - 1];
        }
      }
    }
  }

  /**
   * Probes, scripts and untyped nodes have no code of their own: walking one
   * always fails, with its children's error or with -ENOSYS (an untyped node
   * has no children).
   */
  lemma WalkRejects(env: Env, n: Node, parentMov: bool)
    requires WellFormed(n) && (n.Probe? || n.Script? || n.Untyped?)
    ensures WalkCode(env, n, parentMov).err != 0
    ensures n.Untyped? ==> WalkCode(env, n, parentMov).err == -ENOSYS
  {
    ChildrenWellFormed(n);
  }

  /** Literals, records and the unimplemented operators add nothing after their children. */
  lemma WalkPassive(env: Env, n: Node, parentMov: bool)
    requires WellFormed(n) && (n.IntLit? || n.Rec? || n.Not? || n.Binop? || n.Return?)
    ensures WalkCode(env, n, parentMov) == WalkListCode(env, Children(n), UnderMov(n), n)
  {
    ChildrenWellFormed(n);
    ThenNil(WalkListCode(env, Children(n), UnderMov(n), n));
  }

  /**
   * The left side of a plain overwrite is not read: under a `=` assignment a
   * map reference loads nothing, and otherwise it loads through a lookup.
   */
  lemma MapLoadSkipped(env: Env, n: Node, parentMov: bool)
    requires n.MapRef?
    ensures MapLoadCode(env, n, parentMov).err == 0
    ensures MapLoadCode(env, n, parentMov).code == [] <==> parentMov
  {
    assert !parentMov ==> |MapLoadCode(env, n, parentMov).code| >= |StackZeroCode(n.dyn)| >= 1;
  }

  /**
   * emit_assign fails only with a transfer error, and then stops before the
   * store; a plain overwrite of anything but an integer literal transfers
   * nothing and only stores.
   */
  lemma AssignErrors(env: Env, a: Node)
    requires a.Assign? && a.lval.MapRef?
    ensures AssignCode(env, a).err == 0 || AssignCode(env, a).err == -EINVAL || AssignCode(env, a).err == -ENOSYS
    ensures AssignCode(env, a).err != 0 ==> AssignCode(env, a).code == AssignComputeCode(a).code
    ensures a.op == Mov && !a.expr.IntLit? ==> AssignCode(env, a) == Emitted(0, StoreCode(env, a.lval))
  {
    if a.op == Mov && !a.expr.IntLit? {
      assert [] + StoreCode(env, a.lval) == StoreCode(env, a.lval);
    }
  }

  /**
   * A string literal whose destination is unknown compiles to nothing, and
   * the walk goes on: compile_post drops emit_xfer's -EINVAL.
   */
  lemma StrLitErrorDropped(env: Env, n: Node, parentMov: bool)
    requires n.StrLit? && LocalOk(n) && n.dyn.loc == Nowhere
    ensures XferCode(n, n).err == -EINVAL
    ensures PostCode(env, n, parentMov) == Emitted(0, [])
  {
  }

  // ---------------------------------------------------------------- the probe

  /**
   * compile_probe returns NULL exactly when the predicate or one of the
   * statements fails; otherwise the program saves the context pointer, holds
   * the gate, then every statement's code, then the implicit `return 0`.
   */
  lemma ProbeShape(env: Env, p: Node)
    requires ProbeReady(p)
    ensures ProbeProgram(env, p).None? <==>
            PredCode(env, p.pred).err != 0 || WalkListCode(env, p.stmts, false, p).err != 0
    ensures ProbeProgram(env, p).Some? ==>
            ProbeProgram(env, p).value ==
            [MovReg(R9, R1)] + PredCode(env, p.pred).code + WalkListCode(env, p.stmts, false, p).code + TailCode(p)
  {
    var pred := PredCode(env, p.pred);
    var body := WalkListCode(env, p.stmts, false, p);
    if pred.err == 0 && body.err == 0 {
      AppendAssoc([MovReg(R9, R1)], pred.code, body.code + TailCode(p));
      AppendAssoc([MovReg(R9, R1)] + pred.code, body.code, TailCode(p));
    }
  }

  /**
   * Every program compile_probe returns starts by saving r1 in r9 and, unless
   * its last statement is a return, ends with `MOV r0, #0; EXIT`.
   */
  lemma ProbeEnds(env: Env, p: Node)
    requires ProbeReady(p) && ProbeProgram(env, p).Some?
    ensures var c := ProbeProgram(env, p).value;
            |c| >= 1 && c[0] == MovReg(R9, R1) &&
            (!p.stmts[|p.stmts| - 1].Return? ==> |c| >= 3 && c[|c| - 2 ..] == ExitSeq)
  {
    ProbeShape(env, p);
  }

  /**
   * A return statement emits nothing yet, and compile_probe then adds no
   * implicit exit: the probe `{ return; }` compiles to the single
   * `MOV r9, r1`, and running it falls off the end of the program.
   */
  lemma ReturnOnlyProbe(env: Env, d: Dyn, s: State)
    requires Valid(s)
    ensures ProbeReady(Probe(d, None, [Return(d)]))
    ensures ProbeProgram(env, Probe(d, None, [Return(d)])) == Some([MovReg(R9, R1)])
    ensures Run([MovReg(R9, R1)], 0, s) == FellThrough(s.(regs := s.regs[9 := s.regs[1]]))
  {
    var p := Probe(d, None, [Return(d)]);
    assert WellFormed(p) by {
      assert AllWellFormed([Return(d)]);
    }
    assert WalkListCode(env, p.stmts, false, p) == Emitted(0, []) by {
      assert p.stmts[1..] == [];
      assert WalkCode(env, Return(d), false) == Emitted(0, []);
    }
    assert PredCode(env, p.pred) == Emitted(0, []);
    assert TailCode(p) == [];
    ProbeShape(env, p);
    assert [MovReg(R9, R1)] + [] + [] + [] == [MovReg(R9, R1)];
    MovRegStep(R9, R1, s);
    RunNext([MovReg(R9, R1)], 0, s);
  }

  /** A probe with a statement that can never be compiled yields no program. */
  lemma ProbeRejectsStatement(env: Env, p: Node, i: nat)
    requires ProbeReady(p) && i < |p.stmts|
    requires p.stmts[i].Probe? || p.stmts[i].Script? || p.stmts[i].Untyped?
    ensures ProbeProgram(env, p).None?
  {
    assert WellFormed(p) && AllWellFormed(p.stmts);
    assert p.stmts[i] < p && WellFormed(p.stmts[i]);
    WalkRejects(env, p.stmts[i], false);
    WalkListOk(env, p.stmts, false, p);
    ProbeShape(env, p);
  }

  /** A predicate whose value is nowhere and that is not an integer literal makes compile_probe fail. */
  lemma ProbeRejectsPredicate(env: Env, p: Node)
    requires ProbeReady(p) && p.pred.Some?
    requires WalkCode(env, p.pred.value, false).err == 0
    requires p.pred.value.dyn.loc == Nowhere && !p.pred.value.IntLit?
    ensures ProbeProgram(env, p).None?
  {
    ProbeShape(env, p);
  }
}

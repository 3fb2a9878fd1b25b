/**
 * What the generated fragments do when run on the machine of module Machine:
 * each transfer moves the value it names, the zero-fill clears the node's
 * frame region, the gate exits with 0 exactly when the predicate is zero, and
 * the map sequences pass the arguments the kernel helpers expect
 * (RFC 9669, sections 4.1, 4.3 and 5.1).
 */
module Semantics {
  import opened Wrappers
  import opened Bytes
  import opened Bpf
  import opened Machine
  import opened Ast
  import opened CodeGen

  /** Every store or load at `addr .. addr + n` has an offset the 16-bit field holds. */
  predicate InFrame(addr: int, n: nat)
  {
    -0x8000 <= addr && addr + n <= 0x8000
  }

  /** The bytes a run of word stores leaves in the frame, first word first. */
  function WordBytes(words: seq<Int32>): (r: seq<Byte>)
    ensures |r| == 4 * |words|
  {
    if words == [] then [] else LeBytes(words[0], 4) + WordBytes(words[1..])
  }

  /** The little-endian value of an eight-byte slot, as a register holds it. */
  function SlotValue(bs: seq<Byte>): (r: U64)
    requires |bs| == 8
    ensures Pow256(8) == TWO64 && r == LeValue(bs)
  {
    Pow256Eight();
    LeValue(bs)
  }

  /** Reading back the eight bytes of a value gives the value modulo 2^64. */
  lemma SlotRoundTrip(v: int)
    ensures SlotValue(LeBytes(v, 8)) == v % TWO64
  {
    LeRoundTrip(v, 8);
  }

  /** A register's value survives the trip through a stack slot. */
  lemma SlotOfRegister(v: U64)
    ensures SlotValue(LeBytes(v, 8)) == v
  {
    SlotRoundTrip(v);
  }

  function Zeros(n: nat): (r: seq<Byte>)
    ensures |r| == n
  {
    seq(n, _ => 0)
  }

  // ---------------------------------------------------------------- stores of words and zeros

  lemma WordStoresCons(addr: int, words: seq<Int32>)
    requires words != []
    ensures WordStores(addr, words)[0] == StwImm(R10, addr, words[0])
    ensures WordStores(addr, words)[1..] == WordStores(addr + 4, words[1..])
  {
  }

  lemma ZeroStoresCons(addr: int, n: nat)
    requires n > 0
    ensures ZeroStores(addr, n)[0] == StxDw(R10, addr, R0)
    ensures ZeroStores(addr, n)[1..] == ZeroStores(addr + 8, n - 1)
  {
  }

  /** Consecutive word stores write the words' little-endian bytes one after the other. */
  lemma {:induction false} WordStoresExec(addr: int, words: seq<Int32>, s: State)
    requires Valid(s) && InFrame(addr, 4 * |words|)
    ensures Exec(WordStores(addr, words), s) == Some(s.(stack := Store(s.stack, addr, WordBytes(words))))
    decreases |words|
  {
    var c := WordStores(addr, words);
    if words == [] {
      assert c == [] && WordBytes(words) == [];
      assert s.(stack := Store(s.stack, addr, [])) == s;
    } else {
      var s1 := s.(stack := Store(s.stack, addr, LeBytes(words[0], 4)));
      var filled := Store(s1.stack, addr + 4, WordBytes(words[1..]));
      assert Exec(c, s) == Some(s.(stack := filled)) by {
        WordStoresCons(addr, words);
        assert Step(c[0], s) == Some(s1);
        ExecStep(c, s, s1);
        WordStoresExec(addr + 4, words[1..], s1);
      }
      assert filled == Store(s.stack, addr, WordBytes(words)) by {
        StoreAppend(s.stack, addr, LeBytes(words[0], 4), WordBytes(words[1..]));
      }
    }
  }

  /** Words that encode consecutive 4-byte chunks of `bs` store exactly `bs`. */
  lemma {:induction false} WordBytesOf(w: seq<Int32>, bs: seq<Byte>)
    requires |bs| == 4 * |w|
    requires forall k :: 0 <= k < |w| ==> LeBytes(w[k], 4) == bs[4 * k .. 4 * k + 4]
    ensures WordBytes(w) == bs
    decreases |w|
  {
    if w != [] {
      forall k | 0 <= k < |w| - 1
        ensures LeBytes(w[1..][k], 4) == bs[4..][4 * k .. 4 * k + 4]
      {
        assert bs[4..][4 * k .. 4 * k + 4] == bs[4 * (k + 1) .. 4 * (k + 1) + 4];
      }
      WordBytesOf(w[1..], bs[4..]);
      assert LeBytes(w[0], 4) == bs[..4];
      assert bs == bs[..4] + bs[4..];
    }
  }

  /** The two words of an int64 literal store its eight little-endian bytes. */
  lemma IntWordBytes(v: Int64)
    ensures WordBytes(IntWords(v)) == LeBytes(v, 8)
  {
    var w := IntWords(v);
    assert WordBytes(w) == LeBytes(w[0], 4) + LeBytes(w[1], 4) by {
      assert w[1..][1..] == [];
    }
    assert Pow256(4) == TWO32;
    LeBytesSplit(v, 4, 4);
    LeBytesMod(w[0], v, 4);
  }

  lemma {:induction false} LeBytesZero(n: nat)
    ensures LeBytes(0, n) == Zeros(n)
    decreases n
  {
    if n > 0 {
      LeBytesZero(n - 1);
      assert [0] + Zeros(n - 1) == Zeros(n);
    }
  }

  lemma ZerosAppend(a: nat, b: nat)
    ensures Zeros(a) + Zeros(b) == Zeros(a + b)
  {
  }

  /** A double-word store of a register writes its eight little-endian bytes. */
  lemma StxStep(addr: int, r: Reg, s: State)
    requires Valid(s) && InFrame(addr, 8)
    ensures Step(StxDw(R10, addr, r), s) == Some(s.(stack := Store(s.stack, addr, LeBytes(s.regs[r], 8))))
  {
  }

  /** One double-word store of r0 = 0 zeroes eight bytes. */
  lemma ZeroStoreStep(addr: int, s: State)
    requires Valid(s) && s.regs[0] == 0 && InFrame(addr, 8)
    ensures Step(StxDw(R10, addr, R0), s) == Some(s.(stack := Store(s.stack, addr, Zeros(8))))
  {
    StxStep(addr, R0, s);
    LeBytesZero(8);
  }

  /** With r0 = 0, `n` double-word stores of r0 zero 8 * n bytes. */
  lemma {:induction false} ZeroStoresExec(addr: int, n: nat, s: State)
    requires Valid(s) && s.regs[0] == 0 && InFrame(addr, 8 * n)
    ensures Exec(ZeroStores(addr, n), s) == Some(s.(stack := Store(s.stack, addr, Zeros(8 * n))))
    decreases n
  {
    if n == 0 {
      assert ZeroStores(addr, 0) == [] && Zeros(0) == [];
      assert s.(stack := Store(s.stack, addr, [])) == s;
    } else {
      var s1 := s.(stack := Store(s.stack, addr, Zeros(8)));
      ZeroStoresExec(addr + 8, n - 1, s1);
      ZeroStoresFirst(addr, n, s);
    }
  }

  /** The first store of a zero-fill, followed by the rest. */
  lemma ZeroStoresFirst(addr: int, n: nat, s: State)
    requires Valid(s) && s.regs[0] == 0 && InFrame(addr, 8 * n) && n > 0
    requires var s1 := s.(stack := Store(s.stack, addr, Zeros(8)));
             Exec(ZeroStores(addr + 8, n - 1), s1) ==
             Some(s1.(stack := Store(s1.stack, addr + 8, Zeros(8 * (n - 1)))))
    ensures Exec(ZeroStores(addr, n), s) == Some(s.(stack := Store(s.stack, addr, Zeros(8 * n))))
  {
    ZeroStoresHead(addr, n, s);
    ZeroFillSplit(s.stack, addr, n);
  }

  lemma ZeroStoresHead(addr: int, n: nat, s: State)
    requires Valid(s) && s.regs[0] == 0 && InFrame(addr, 8 * n) && n > 0
    ensures Exec(ZeroStores(addr, n), s) ==
            Exec(ZeroStores(addr + 8, n - 1), s.(stack := Store(s.stack, addr, Zeros(8))))
  {
    ZeroStoresCons(addr, n);
    ZeroStoreStep(addr, s);
    ExecStep(ZeroStores(addr, n), s, s.(stack := Store(s.stack, addr, Zeros(8))));
  }

  lemma ZeroFillSplit(m: map<int, Byte>, addr: int, n: nat)
    requires n > 0
    ensures Store(Store(m, addr, Zeros(8)), addr + 8, Zeros(8 * (n - 1))) == Store(m, addr, Zeros(8 * n))
  {
    StoreAppend(m, addr, Zeros(8), Zeros(8 * (n - 1)));
    ZerosAppend(8, 8 * (n - 1));
  }

  /** emit_stack_zero clears r0 and every byte of the node's frame region, rounded up to whole double words. */
  lemma StackZeroExec(d: Dyn, s: State)
    requires Valid(s) && InFrame(d.addr, 8 * ((d.size + 7) / 8))
    ensures Exec(StackZeroCode(d), s) ==
            Some(State(s.regs[0 := 0], Store(s.stack, d.addr, Zeros(8 * ((d.size + 7) / 8)))))
    ensures Load(Exec(StackZeroCode(d), s).value.stack, d.addr, d.size) == Some(Zeros(d.size))
  {
    var n := (d.size + 7) / 8;
    var c := StackZeroCode(d);
    var s1 := s.(regs := s.regs[0 := 0]);
    assert Exec(c, s) == Exec(ZeroStores(d.addr, n), s1) by {
      MovImmStep(R0, 0, s);
      assert c[0] == MovImm(R0, 0) && c[1..] == ZeroStores(d.addr, n);
      ExecStep(c, s, s1);
    }
    ZeroStoresExec(d.addr, n, s1);
    assert Load(Store(s1.stack, d.addr, Zeros(8 * n)), d.addr, d.size) == Some(Zeros(d.size)) by {
      LoadStore(s1.stack, d.addr, Zeros(8 * n), d.size);
      assert Zeros(8 * n)[..d.size] == Zeros(d.size);
    }
  }

  // ---------------------------------------------------------------- transfers

  /** Register to register: the destination takes the source's value (nothing is emitted when they coincide). */
  lemma XferRegToReg(to: Dyn, from: Reg, s: State)
    requires Valid(s) && to.loc == InReg && to.reg != R10
    ensures XferRegCode(to, from).err == 0
    ensures to.reg == from ==> XferRegCode(to, from).code == []
    ensures to.reg != from ==> XferRegCode(to, from).code == [MovReg(to.reg, from)]
    ensures Exec(XferRegCode(to, from).code, s) == Some(s.(regs := s.regs[to.reg := s.regs[from]]))
  {
    if to.reg == from {
      assert s.regs[to.reg := s.regs[from]] == s.regs;
    }
  }

  /** Register to stack: the slot receives the register's eight little-endian bytes. */
  lemma XferRegToStack(to: Dyn, from: Reg, s: State)
    requires Valid(s) && to.loc == OnStack && InFrame(to.addr, 8)
    ensures XferRegCode(to, from).err == 0
    ensures Exec(XferRegCode(to, from).code, s) ==
            Some(s.(stack := Store(s.stack, to.addr, LeBytes(s.regs[from], 8))))
  {
  }

  /** Stack to register: the register takes the slot's little-endian value. */
  lemma XferStackToReg(to: Dyn, from: int, s: State, bs: seq<Byte>)
    requires Valid(s) && to.loc == InReg && to.reg != R10 && InFrame(from, 8)
    requires Load(s.stack, from, 8) == Some(bs)
    ensures XferStackCode(to, from).err == 0
    ensures Exec(XferStackCode(to, from).code, s) == Some(s.(regs := s.regs[to.reg := SlotValue(bs)]))
  {
  }

  /** Spilling a register to a slot and reloading the slot into a register gives back the value. */
  lemma SpillReload(slot: Dyn, from: Reg, to: Dyn, s: State)
    requires Valid(s) && slot.loc == OnStack && InFrame(slot.addr, 8)
    requires to.loc == InReg && to.reg != R10
    ensures Exec(XferRegCode(slot, from).code + XferStackCode(to, slot.addr).code, s).Some?
    ensures Exec(XferRegCode(slot, from).code + XferStackCode(to, slot.addr).code, s).value.regs[to.reg] ==
            s.regs[from]
  {
    var bs := LeBytes(s.regs[from], 8);
    var s1 := s.(stack := Store(s.stack, slot.addr, bs));
    SlotOfRegister(s.regs[from]);
    var spill, reload := XferRegCode(slot, from).code, XferStackCode(to, slot.addr).code;
    assert Exec(spill, s) == Some(s1) by {
      XferRegToStack(slot, from, s);
    }
    assert Exec(reload, s1) == Some(s1.(regs := s1.regs[to.reg := SlotValue(bs)])) by {
      LoadStore(s.stack, slot.addr, bs, 8);
      assert bs[..8] == bs;
      XferStackToReg(to, slot.addr, s1, bs);
    }
    ExecAppend(spill, reload, s);
  }

  /** An integer literal sent to the stack leaves its eight little-endian bytes in the slot. */
  lemma IntLitToStack(to: Node, lit: Node, s: State)
    requires Valid(s) && lit.IntLit? && to.dyn.loc == OnStack && InFrame(to.dyn.addr, 8)
    ensures XferCode(to, lit).err == 0
    ensures Exec(XferCode(to, lit).code, s) == Some(s.(stack := Store(s.stack, to.dyn.addr, LeBytes(lit.integer, 8))))
  {
    var w := IntWords(lit.integer);
    assert w[..8 / 4] == w;
    WordStoresExec(to.dyn.addr, w, s);
    IntWordBytes(lit.integer);
  }

  /** Reloading a literal that was sent to the stack gives its value modulo 2^64. */
  lemma IntLitReload(slot: Node, lit: Node, to: Dyn, s: State)
    requires Valid(s) && lit.IntLit? && slot.dyn.loc == OnStack && InFrame(slot.dyn.addr, 8)
    requires to.loc == InReg && to.reg != R10
    ensures Exec(XferCode(slot, lit).code + XferStackCode(to, slot.dyn.addr).code, s).Some?
    ensures Exec(XferCode(slot, lit).code + XferStackCode(to, slot.dyn.addr).code, s).value.regs[to.reg] ==
            lit.integer % TWO64
  {
    var bs := LeBytes(lit.integer, 8);
    var s1 := s.(stack := Store(s.stack, slot.dyn.addr, bs));
    assert SlotValue(bs) == lit.integer % TWO64 by {
      SlotRoundTrip(lit.integer);
    }
    var store, reload := XferCode(slot, lit).code, XferStackCode(to, slot.dyn.addr).code;
    assert Exec(store, s) == Some(s1) by {
      IntLitToStack(slot, lit, s);
    }
    assert Exec(reload, s1) == Some(s1.(regs := s1.regs[to.reg := SlotValue(bs)])) by {
      LoadStore(s.stack, slot.dyn.addr, bs, 8);
      assert bs[..8] == bs;
      XferStackToReg(to, slot.dyn.addr, s1, bs);
    }
    ExecAppend(store, reload, s);
  }

  /** A string literal sent to the stack copies its first `size` bytes into the node's region. */
  lemma StrLitToStack(to: Node, lit: Node, s: State)
    requires Valid(s) && lit.StrLit? && lit.dyn.size % 4 == 0 && lit.dyn.size <= |lit.bytes|
    requires to.dyn.loc == OnStack && InFrame(to.dyn.addr, lit.dyn.size)
    ensures XferCode(to, lit).err == 0
    ensures Exec(XferCode(to, lit).code, s) ==
            Some(s.(stack := Store(s.stack, to.dyn.addr, lit.bytes[..lit.dyn.size])))
  {
    var size := lit.dyn.size;
    var w := PackWords(lit.bytes)[..size / 4];
    var bs := lit.bytes[..size];
    forall k | 0 <= k < |w|
      ensures LeBytes(w[k], 4) == bs[4 * k .. 4 * k + 4]
    {
      assert bs[4 * k .. 4 * k + 4] == lit.bytes[4 * k .. 4 * k + 4];
    }
    WordBytesOf(w, bs);
    WordStoresExec(to.dyn.addr, w, s);
  }

  /** An integer literal that fits the 32-bit immediate reaches a register with its 64-bit value. */
  lemma SmallIntLitToReg(to: Node, lit: Node, s: State)
    requires Valid(s) && lit.IntLit? && -0x8000_0000 <= lit.integer < 0x8000_0000
    requires to.dyn.loc == InReg && to.dyn.reg != R10
    ensures XferCode(to, lit).err == 0
    ensures Exec(XferCode(to, lit).code, s) == Some(s.(regs := s.regs[to.dyn.reg := lit.integer % TWO64]))
  {
    assert Int64Of(IntWords(lit.integer)) == lit.integer;
  }

  // ---------------------------------------------------------------- gate

  /** The value compile_pred's gate tests: the predicate's register, its stack slot, or a constant. */
  function PredValue(p: Node, s: State): Option<U64>
    requires Valid(s)
  {
    match p.dyn.loc
    case InReg => Some(s.regs[p.dyn.reg])
    case OnStack =>
      (match Load(s.stack, p.dyn.addr, 8)
       case None => None
       case Some(bs) => Some(SlotValue(bs)))
    case Nowhere => if p.IntLit? then Some(p.integer % TWO64) else None
  }

  /**
   * The gate returns 0 from the probe exactly when the predicate is zero and
   * otherwise falls through to the statements: every +2 jump skips exactly
   * `MOV r0, #0; EXIT`.
   */
  lemma GateRun(p: Node, s: State)
    requires Valid(s) && PredValue(p, s).Some?
    requires p.dyn.loc == OnStack ==> InFrame(p.dyn.addr, 8)
    ensures GateCode(p).err == 0
    ensures Run(GateCode(p).code, 0, s) == Exited(0) <==> PredValue(p, s).value == 0
    ensures Run(GateCode(p).code, 0, s).FellThrough? <==> PredValue(p, s).value != 0
  {
    match p.dyn.loc
    case InReg => GateRunReg(p, s);
    case OnStack => GateRunStack(p, s);
    case Nowhere => GateRunConst(p, s);
  }

  lemma GateRunConst(p: Node, s: State)
    requires Valid(s) && p.dyn.loc == Nowhere && p.IntLit?
    ensures GateCode(p).err == 0
    ensures Run(GateCode(p).code, 0, s) == if p.integer == 0 then Exited(0) else FellThrough(s)
  {
    var c := GateCode(p).code;
    if p.integer != 0 {
      assert c == [JmpImm(Ja, 0, 0, 2), MovImm(R0, 0), ExitInsn];
      RunBranch(c, 0, s, Ja, 0, 2);
    } else {
      assert c == [MovImm(R0, 0), ExitInsn];
      ZeroThenExit(c, 0, s);
    }
  }

  /** `MOV r0, #0; EXIT` at `pc` returns 0. */
  lemma ZeroThenExit(c: seq<Insn>, pc: nat, s: State)
    requires Valid(s) && pc + 2 <= |c| && c[pc] == MovImm(R0, 0) && c[pc + 1] == ExitInsn
    ensures Run(c, pc, s) == Exited(0)
  {
    var s1 := s.(regs := s.regs[0 := 0]);
    MovImmStep(R0, 0, s);
    RunNext(c, pc, s);
    RunExit(c, pc + 1, s1);
  }

  lemma GateRunReg(p: Node, s: State)
    requires Valid(s) && p.dyn.loc == InReg
    ensures GateCode(p).err == 0
    ensures Run(GateCode(p).code, 0, s) ==
            if s.regs[p.dyn.reg] == 0 then Exited(0) else FellThrough(s)
  {
    var c := GateCode(p).code;
    assert c == [JmpImm(Jne, p.dyn.reg, 0, 2), MovImm(R0, 0), ExitInsn];
    RunBranch(c, 0, s, Jne, p.dyn.reg, 2);
    if s.regs[p.dyn.reg] == 0 {
      ZeroThenExit(c, 1, s);
    }
  }

  lemma GateRunStack(p: Node, s: State)
    requires Valid(s) && p.dyn.loc == OnStack && InFrame(p.dyn.addr, 8) && PredValue(p, s).Some?
    ensures GateCode(p).err == 0
    ensures var t := s.(regs := s.regs[0 := PredValue(p, s).value]);
            Run(GateCode(p).code, 0, s) == if t.regs[0] == 0 then Exited(0) else FellThrough(t)
  {
    var c := GateCode(p).code;
    assert c == [LdxDw(R0, p.dyn.addr, R10), JmpImm(Jne, R0, 0, 2), MovImm(R0, 0), ExitInsn];
    var t := s.(regs := s.regs[0 := PredValue(p, s).value]);
    assert Step(c[0], s) == Some(t);
    RunNext(c, 0, s);
    RunBranch(c, 1, t, Jne, R0, 2);
    if t.regs[0] == 0 {
      ZeroThenExit(c, 2, t);
    }
  }

  // ---------------------------------------------------------------- helper-call sequences

  lemma AddSext(x: U64, a: Int32)
    ensures (x + Sext(a)) % TWO64 == (x + a) % TWO64
  {
  }

  /** `MOV r, r10; ADD r, #addr` points `r` at frame offset `addr`. */
  lemma FrameAddressRun(c: seq<Insn>, pc: nat, r: Reg, addr: int, s: State)
    requires Valid(s) && r != R10 && -0x8000_0000 <= addr < 0x8000_0000
    requires pc + 2 <= |c| && c[pc] == MovReg(r, R10) && c[pc + 1] == AluImm(Add, r, addr)
    ensures Run(c, pc, s) == Run(c, pc + 2, s.(regs := s.regs[r := (s.regs[10] + addr) % TWO64]))
  {
    var s1 := s.(regs := s.regs[r := s.regs[10]]);
    var s2 := s.(regs := s.regs[r := (s.regs[10] + addr) % TWO64]);
    assert Run(c, pc, s) == Run(c, pc + 1, s1) by {
      MovRegStep(r, R10, s);
      RunNext(c, pc, s);
    }
    assert Step(c[pc + 1], s1) == Some(s2) by {
      AddSext(s.regs[10], addr);
      assert s1.regs[r := (s.regs[10] + addr) % TWO64] == s2.regs;
    }
    RunNext(c, pc + 1, s1);
  }

  /** emit_map_load's lookup calls map_lookup_elem with r2 pointing at the key record. */
  lemma LookupRun(c: seq<Insn>, pc: nat, key: int, s: State)
    requires Valid(s) && -0x8000_0000 <= key < 0x8000_0000
    requires pc + 4 <= |c| && c[pc .. pc + 4] == LookupCode(key)
    ensures Run(c, pc, s) ==
            CallsHelper(pc + 2, MapLookupElem, s.(regs := s.regs[2 := (s.regs[10] + key) % TWO64]))
  {
    assert c[pc] == LookupCode(key)[0] && c[pc + 1] == LookupCode(key)[1] && c[pc + 2] == LookupCode(key)[2];
    FrameAddressRun(c, pc, R2, key, s);
    RunCall(c, pc + 2, s.(regs := s.regs[2 := (s.regs[10] + key) % TWO64]), MapLookupElem);
  }

  /**
   * The null check after map_lookup_elem: a NULL result (r0 = 0) jumps past
   * exactly the five copy instructions; otherwise probe_read is called with
   * r1 = the node's frame address, r2 = its size, r3 = the found value.
   */
  lemma CopyRun(c: seq<Insn>, pc: nat, d: Dyn, s: State)
    requires Valid(s) && -0x8000_0000 <= d.addr < 0x8000_0000 && d.size < 0x8000_0000
    requires pc + 6 == |c| && c[pc] == JmpImm(Jeq, R0, 0, 5) && c[pc + 1 ..] == CopyCode(d)
    ensures Run(c, pc, s) ==
            if s.regs[0] == 0 then FellThrough(s)
            else CallsHelper(pc + 5, ProbeRead,
                             s.(regs := s.regs[1 := (s.regs[10] + d.addr) % TWO64][2 := d.size][3 := s.regs[0]]))
  {
    RunBranch(c, pc, s, Jeq, R0, 5);
    if s.regs[0] != 0 {
      ProbeReadRun(c, pc + 1, d, s);
    }
  }

  /** The copy: probe_read(r10 + the node's offset, its size, r0). */
  lemma ProbeReadRun(c: seq<Insn>, pc: nat, d: Dyn, s: State)
    requires Valid(s) && -0x8000_0000 <= d.addr < 0x8000_0000 && d.size < 0x8000_0000
    requires pc + 5 <= |c| && c[pc .. pc + 5] == CopyCode(d)
    ensures Run(c, pc, s) ==
            CallsHelper(pc + 4, ProbeRead,
                        s.(regs := s.regs[1 := (s.regs[10] + d.addr) % TWO64][2 := d.size][3 := s.regs[0]]))
  {
    var cp := CopyCode(d);
    assert c[pc] == cp[0] && c[pc + 1] == cp[1] && c[pc + 2] == cp[2] && c[pc + 3] == cp[3] && c[pc + 4] == cp[4];
    var s1 := s.(regs := s.regs[1 := (s.regs[10] + d.addr) % TWO64]);
    var s2 := s1.(regs := s1.regs[2 := d.size]);
    var s3 := s2.(regs := s2.regs[3 := s.regs[0]]);
    assert Run(c, pc, s) == Run(c, pc + 2, s1) by {
      FrameAddressRun(c, pc, R1, d.addr, s);
    }
    assert Run(c, pc + 2, s1) == Run(c, pc + 3, s2) by {
      MovImmStep(R2, d.size, s1);
      RunNext(c, pc + 2, s1);
    }
    assert Run(c, pc + 3, s2) == Run(c, pc + 4, s3) by {
      MovRegStep(R3, R0, s2);
      RunNext(c, pc + 3, s2);
    }
    RunCall(c, pc + 4, s3, ProbeRead);
  }

  /** Where emit_map_load's lookup, null check and copy sit: the last nine instructions. */
  lemma MapLoadLayout(env: Env, n: Node)
    requires n.MapRef?
    ensures var c := MapLoadCode(env, n, false).code;
            |c| >= 9 && c[|c| - 9 .. |c| - 5] == LookupCode(n.rec.dyn.addr) &&
            c[|c| - 7] == CallInsn(MapLookupElem) &&
            c[|c| - 6] == JmpImm(Jeq, R0, 0, 5) && c[|c| - 5 ..] == CopyCode(n.dyn) &&
            c[|c| - 1] == CallInsn(ProbeRead)
  {
    var pre := StackZeroCode(n.dyn) + env.ldMapFd(R1, env.mapFd(n));
    var c := MapLoadCode(env, n, false).code;
    assert c == pre + LookupCode(n.rec.dyn.addr) + CopyCode(n.dyn);
    assert |c| == |pre| + 9;
    assert c[|pre| .. |pre| + 4] == LookupCode(n.rec.dyn.addr);
    assert c[|c| - 7] == LookupCode(n.rec.dyn.addr)[2];
    assert c[|pre| + 4 ..] == CopyCode(n.dyn);
  }

  /** The store sequence calls map_update_elem with r2 = key address, r3 = value address, r4 = 0. */
  lemma UpdateRun(c: seq<Insn>, pc: nat, key: int, value: int, s: State)
    requires Valid(s) && -0x8000_0000 <= key < 0x8000_0000 && -0x8000_0000 <= value < 0x8000_0000
    requires pc + 6 <= |c| && c[pc .. pc + 6] == UpdateCode(key, value)
    ensures Run(c, pc, s) ==
            CallsHelper(pc + 5, MapUpdateElem,
                        s.(regs := s.regs[2 := (s.regs[10] + key) % TWO64][3 := (s.regs[10] + value) % TWO64][4 := 0]))
  {
    var u := UpdateCode(key, value);
    assert c[pc] == u[0] && c[pc + 1] == u[1] && c[pc + 2] == u[2] && c[pc + 3] == u[3] && c[pc + 4] == u[4] && c[pc + 5] == u[5];
    var s1 := s.(regs := s.regs[2 := (s.regs[10] + key) % TWO64]);
    var s2 := s1.(regs := s1.regs[3 := (s.regs[10] + value) % TWO64]);
    var s3 := s2.(regs := s2.regs[4 := 0]);
    assert Run(c, pc, s) == Run(c, pc + 2, s1) by {
      FrameAddressRun(c, pc, R2, key, s);
    }
    assert Run(c, pc + 2, s1) == Run(c, pc + 4, s2) by {
      FrameAddressRun(c, pc + 2, R3, value, s1);
    }
    assert Run(c, pc + 4, s2) == Run(c, pc + 5, s3) by {
      MovImmStep(R4, 0, s2);
      RunNext(c, pc + 4, s2);
    }
    RunCall(c, pc + 5, s3, MapUpdateElem);
  }

  /** Every successful emit_assign ends with the six instructions of the map_update_elem call. */
  lemma AssignLayout(env: Env, a: Node)
    requires a.Assign? && a.lval.MapRef? && AssignCode(env, a).err == 0
    ensures var c := AssignCode(env, a).code;
            |c| >= 6 && c[|c| - 6 ..] == UpdateCode(a.lval.rec.dyn.addr, a.lval.dyn.addr) &&
            c[|c| - 1] == CallInsn(MapUpdateElem)
  {
    var c := AssignCode(env, a).code;
    var u := UpdateCode(a.lval.rec.dyn.addr, a.lval.dyn.addr);
    var pre := AssignComputeCode(a).code + env.ldMapFd(R1, env.mapFd(a.lval));
    assert c == pre + u by {
      AppendAssoc(AssignComputeCode(a).code, env.ldMapFd(R1, env.mapFd(a.lval)), u);
    }
    assert c[|c| - 6 ..] == u;
  }

  /**
   * A compound assignment whose map value sits on the stack and whose result
   * register is the assignment's own: the value slot ends up holding
   * `old value op right-hand side`, ready for map_update_elem.
   */
  lemma CompoundAssignExec(a: Node, s: State, bs: seq<Byte>)
    requires Valid(s) && a.Assign? && a.lval.MapRef? && a.op in {Add, Sub, Or, Lsh}
    requires a.dyn.loc == InReg && a.dyn.reg != R10
    requires a.lval.dyn.loc == OnStack && InFrame(a.lval.dyn.addr, 8)
    requires Load(s.stack, a.lval.dyn.addr, 8) == Some(bs)
    requires a.expr.IntLit? ==> -0x8000_0000 <= a.expr.integer < 0x8000_0000
    requires !a.expr.IntLit? ==> a.expr.dyn.reg != a.dyn.reg
    ensures AssignComputeCode(a).err == 0
    ensures Exec(AssignComputeCode(a).code, s).Some?
    ensures var rhs := if a.expr.IntLit? then a.expr.integer % TWO64 else s.regs[a.expr.dyn.reg];
            Load(Exec(AssignComputeCode(a).code, s).value.stack, a.lval.dyn.addr, 8) ==
            Some(LeBytes(AluResult(a.op, SlotValue(bs), rhs).value, 8))
  {
    var m, r := a.lval, a.dyn.reg;
    var rhs := if a.expr.IntLit? then a.expr.integer % TWO64 else s.regs[a.expr.dyn.reg];
    var res := AluResult(a.op, SlotValue(bs), rhs).value;
    var alu := AssignAluInsn(a);
    CompoundComputeShape(a);
    var s1 := s.(regs := s.regs[r := SlotValue(bs)]);
    assert Step(alu, s1) == Some(s.(regs := s.regs[r := res])) by {
      RegOverwrite(s.regs, r, SlotValue(bs), res);
      if a.expr.IntLit? {
        AluImmStep(a.op, r, a.expr.integer, s1);
      } else {
        AluRegStep(a.op, r, a.expr.dyn.reg, s1);
      }
    }
    ReadModifyWrite(r, m.dyn.addr, alu, s, bs, res);
    assert Load(Store(s.stack, m.dyn.addr, LeBytes(res, 8)), m.dyn.addr, 8) == Some(LeBytes(res, 8)) by {
      LoadStore(s.stack, m.dyn.addr, LeBytes(res, 8), 8);
      assert LeBytes(res, 8)[..8] == LeBytes(res, 8);
    }
  }

  lemma RegOverwrite(regs: seq<U64>, r: Reg, x: U64, y: U64)
    requires r < |regs|
    ensures regs[r := x][r := y] == regs[r := y]
  {
  }

  /** A compound assignment on a stack slot is load, one ALU instruction, store, whatever the operator. */
  lemma CompoundComputeShape(a: Node)
    requires a.Assign? && a.lval.MapRef? && a.op != Mov
    requires a.dyn.loc == InReg && a.dyn.reg != R10
    requires a.lval.dyn.loc == OnStack
    ensures AssignComputeCode(a).err == 0
    ensures AssignComputeCode(a).code ==
            [LdxDw(a.dyn.reg, a.lval.dyn.addr, R10), AssignAluInsn(a), StxDw(R10, a.lval.dyn.addr, a.dyn.reg)]
  {
    assert XferCode(a, a.lval).code == [LdxDw(a.dyn.reg, a.lval.dyn.addr, R10)];
    assert XferCode(a.lval, a).code == [StxDw(R10, a.lval.dyn.addr, a.dyn.reg)];
  }

  /** Load a slot into `r`, apply `alu` to it, store `r` back. */
  lemma ReadModifyWrite(r: Reg, addr: int, alu: Insn, s: State, bs: seq<Byte>, res: U64)
    requires Valid(s) && r != R10 && InFrame(addr, 8) && Load(s.stack, addr, 8) == Some(bs)
    requires Step(alu, s.(regs := s.regs[r := SlotValue(bs)])) == Some(s.(regs := s.regs[r := res]))
    ensures Exec([LdxDw(r, addr, R10), alu, StxDw(R10, addr, r)], s) ==
            Some(State(s.regs[r := res], Store(s.stack, addr, LeBytes(res, 8))))
  {
    var c := [LdxDw(r, addr, R10), alu, StxDw(R10, addr, r)];
    var s1 := s.(regs := s.regs[r := SlotValue(bs)]);
    var s2 := s.(regs := s.regs[r := res]);
    assert Exec(c, s) == Exec(c[1..], s1) by {
      assert Step(c[0], s) == Some(s1);
      ExecStep(c, s, s1);
    }
    assert Exec(c[1..], s1) == Exec(c[2..], s2) by {
      assert c[1..][0] == alu && c[1..][1..] == c[2..];
      ExecStep(c[1..], s1, s2);
    }
    assert Exec(c[2..], s2) == Some(State(s.regs[r := res], Store(s.stack, addr, LeBytes(res, 8)))) by {
      assert c[2..] == [StxDw(R10, addr, r)];
      StxStep(addr, r, s2);
    }
  }

  lemma AluImmStep(op: AluOp, r: Reg, imm: Int32, s: State)
    requires Valid(s) && r != R10 && op in {Add, Sub, Or, Lsh}
    ensures Step(AluImm(op, r, imm), s) == Some(s.(regs := s.regs[r := AluResult(op, s.regs[r], imm % TWO64).value]))
  {
  }

  lemma AluRegStep(op: AluOp, r: Reg, src: Reg, s: State)
    requires Valid(s) && r != R10 && op in {Add, Sub, Or, Lsh}
    ensures Step(AluReg(op, r, src), s) == Some(s.(regs := s.regs[r := AluResult(op, s.regs[r], s.regs[src]).value]))
  {
  }
}

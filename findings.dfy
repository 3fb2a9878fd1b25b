/**
 * Two defects in how emit_xfer_literal loads an int64 literal into a
 * register, each shown on one literal, and a corrected load sequence proved
 * to put every literal's 64-bit pattern in the register.
 */
module Findings {
  import opened Wrappers
  import opened Bytes
  import opened Bpf
  import opened Machine
  import opened Ast
  import opened CodeGen

  /** The register-destination literal load as written, for literal `v` into `r`. */
  function LiteralToReg(r: Reg, v: Int64): seq<Insn>
  {
    XferLiteralCode(Dyn(InReg, r, 0, 8), IntWords(v), 8).code
  }

  lemma {:induction false} Pow2Add(a: nat, b: nat)
    ensures Pow2(a + b) == Pow2(a) * Pow2(b)
    decreases a
  {
    if a > 0 {
      Pow2Add(a - 1, b);
    }
  }

  lemma Pow2ThirtyTwo()
    ensures Pow2(32) == TWO32
  {
    assert Pow2(4) == 16;
    Pow2Add(4, 4);
    Pow2Add(8, 8);
    Pow2Add(16, 16);
  }

  /** Three instructions that each step run to the last state. */
  lemma ExecThree(c: seq<Insn>, s: State, s1: State, s2: State, s3: State)
    requires Valid(s) && |c| == 3
    requires Step(c[0], s) == Some(s1) && Step(c[1], s1) == Some(s2) && Step(c[2], s2) == Some(s3)
    ensures Exec(c, s) == Some(s3)
  {
    ExecStep(c, s, s1);
    ExecStep(c[1..], s1, s2);
    ExecStep(c[2..], s2, s3);
    assert c[2..][1..] == [];
  }

  /** Shifting left by 32 multiplies by 2^32, wrapped. */
  lemma LshStep(r: Reg, s: State)
    requires Valid(s) && r != R10
    ensures Step(AluImm(Lsh, r, 32), s) == Some(s.(regs := s.regs[r := (s.regs[r] * TWO32) % TWO64]))
  {
    Pow2ThirtyTwo();
  }

  lemma AddImmStep(r: Reg, imm: Int32, s: State)
    requires Valid(s) && r != R10
    ensures Step(AluImm(Add, r, imm), s) == Some(s.(regs := s.regs[r := (s.regs[r] + imm % TWO64) % TWO64]))
  {
  }

  /** Literals above 0xffffffff take the three-instruction path, with the high half as both immediates. */
  lemma LiteralToRegWide(r: Reg, v: Int64)
    requires v > 0xffff_ffff
    ensures LiteralToReg(r, v) == [MovImm(r, v / TWO32), AluImm(Lsh, r, 32), AluImm(Or, r, v / TWO32)]
  {
  }

  lemma OrImmStep(r: Reg, imm: Int32, s: State)
    requires Valid(s) && r != R10
    ensures Step(AluImm(Or, r, imm), s) == Some(s.(regs := s.regs[r := Or64(s.regs[r], Sext(imm))]))
  {
  }

  lemma LshOneStep(s: State)
    requires Valid(s) && s.regs[1] == 1
    ensures Step(AluImm(Lsh, R1, 32), s) == Some(s.(regs := s.regs[1 := TWO32]))
  {
    LshStep(R1, s);
  }

  lemma OrOneStep(s: State)
    requires Valid(s) && s.regs[1] == TWO32
    ensures Step(AluImm(Or, R1, 1), s) == Some(s.(regs := s.regs[1 := 0x1_0000_0001]))
  {
    OrImmStep(R1, 1, s);
    assert Or64(TWO32, 1) == 0x1_0000_0001;
  }

  /**
   * 2^32 takes the wide path: `MOV r, #1; LSH r, 32; OR r, #1`. The OR puts
   * the high half into the low half, and the register ends up holding
   * 2^32 + 1.
   */
  lemma HighHalfOredTwice(s: State)
    requires Valid(s)
    ensures LiteralToReg(R1, 0x1_0000_0000) == [MovImm(R1, 1), AluImm(Lsh, R1, 32), AluImm(Or, R1, 1)]
    ensures Exec(LiteralToReg(R1, 0x1_0000_0000), s) == Some(s.(regs := s.regs[1 := 0x1_0000_0001]))
  {
    var c := [MovImm(R1, 1), AluImm(Lsh, R1, 32), AluImm(Or, R1, 1)];
    assert LiteralToReg(R1, 0x1_0000_0000) == c by {
      LiteralToRegWide(R1, 0x1_0000_0000);
    }
    var s1 := s.(regs := s.regs[1 := 1]);
    var s2 := s1.(regs := s1.regs[1 := TWO32]);
    var s3 := s2.(regs := s2.regs[1 := 0x1_0000_0001]);
    assert Exec(c, s) == Some(s3) by {
      assert Step(c[0], s) == Some(s1) by {
        MovImmStep(R1, 1, s);
      }
      assert Step(c[1], s1) == Some(s2) by {
        LshOneStep(s1);
      }
      assert Step(c[2], s2) == Some(s3) by {
        OrOneStep(s2);
      }
      ExecThree(c, s, s1, s2, s3);
    }
    assert s3 == s.(regs := s.regs[1 := 0x1_0000_0001]);
  }

  /**
   * 2^31 passes the `> 0xffffffff` guard, so it is loaded with one MOV whose
   * 32-bit immediate is -2^31; ALU64 sign-extends it, and the register holds
   * 0xffff_ffff_8000_0000 instead of 0x8000_0000.
   */
  lemma LowPathSignExtends(s: State)
    requires Valid(s)
    ensures LiteralToReg(R1, 0x8000_0000) == [MovImm(R1, 0x8000_0000)]
    ensures MovImm(R1, 0x8000_0000).imm == -0x8000_0000
    ensures Exec(LiteralToReg(R1, 0x8000_0000), s) == Some(s.(regs := s.regs[1 := 0xffff_ffff_8000_0000]))
  {
    var c := LiteralToReg(R1, 0x8000_0000);
    var s1 := s.(regs := s.regs[1 := 0xffff_ffff_8000_0000]);
    MovImmStep(R1, -0x8000_0000, s);
    ExecStep(c, s, s1);
    assert c[1..] == [];
  }

  // ---------------------------------------------------------------- the correction

  /**
   * Load any int64 into `r`: one MOV when it fits the sign-extended 32-bit
   * immediate, otherwise the high half (wrapped to 32 bits), a shift by 32,
   * and an ADD of the sign-extended low half, which the high half was chosen
   * to compensate.
   */
  function LoadImm64(r: Reg, v: Int64): (c: seq<Insn>)
    ensures |c| == 1 <==> -0x8000_0000 <= v < 0x8000_0000
    ensures |c| == 1 || |c| == 3
  {
    if -0x8000_0000 <= v < 0x8000_0000 then [MovImm(r, v)]
    else
      var lo := S32(v);
      [MovImm(r, S32((v - lo) / TWO32)), AluImm(Lsh, r, 32), AluImm(Add, r, lo)]
  }

  /** `x` and `y` leave the same remainder modulo `n` when `n` divides their difference. */
  lemma ModCongruent(x: int, y: int, n: int, k: int)
    requires n > 0 && x - y == k * n
    ensures x % n == y % n
  {
    DivModUnique(x, n, y / n + k, y % n);
  }

  /** The wide path's arithmetic: (hi * 2^32 + lo) wraps to v, whatever wrap hi took. */
  lemma WideLoadValue(v: Int64)
    ensures var lo := S32(v);
            var hi := S32((v - lo) / TWO32);
            (((hi % TWO64) * TWO32) % TWO64 + lo % TWO64) % TWO64 == v % TWO64
  {
    var lo := S32(v);
    var q := (v - lo) / TWO32;
    var hi := S32(q);
    assert v - lo == q * TWO32;
    var j := (q - hi) / TWO32;
    assert q - hi == j * TWO32;
    var a := hi % TWO64;
    var i := (hi - a) / TWO64;
    assert hi - a == i * TWO64;
    var b := (a * TWO32) % TWO64;
    var m := (a * TWO32 - b) / TWO64;
    assert a * TWO32 - b == m * TWO64;
    var l := lo % TWO64;
    var t := (lo - l) / TWO64;
    assert lo - l == t * TWO64;
    // b + l = a*2^32 - m*2^64 + lo - t*2^64 = hi*2^32 - i*2^96 + lo - (m + t)*2^64
    //       = q*2^32 - j*2^64 + lo - (i*2^32 + m + t)*2^64 = v - (j + i*2^32 + m + t)*2^64
    assert a * TWO32 == hi * TWO32 - i * TWO32 * TWO64 by {
      MulDistrib(TWO32, hi, -(i * TWO64));
    }
    assert hi * TWO32 == q * TWO32 - j * TWO32 * TWO32;
    ModCongruent(b + l, v, TWO64, -(j + i * TWO32 + m + t));
  }

  /** What the wide path computes from its two immediates. */
  lemma WideSteps(r: Reg, hi: Int32, lo: Int32, s: State)
    requires Valid(s) && r != R10
    ensures Exec([MovImm(r, hi), AluImm(Lsh, r, 32), AluImm(Add, r, lo)], s) ==
            Some(s.(regs := s.regs[r := (((hi % TWO64) * TWO32) % TWO64 + lo % TWO64) % TWO64]))
  {
    var c := [MovImm(r, hi), AluImm(Lsh, r, 32), AluImm(Add, r, lo)];
    var a := hi % TWO64;
    var b := (a * TWO32) % TWO64;
    var s1 := s.(regs := s.regs[r := a]);
    var s2 := s1.(regs := s1.regs[r := b]);
    var s3 := s2.(regs := s2.regs[r := (b + lo % TWO64) % TWO64]);
    assert Step(c[0], s) == Some(s1) by {
      MovImmStep(r, hi, s);
    }
    assert Step(c[1], s1) == Some(s2) by {
      LshStep(r, s1);
    }
    assert Step(c[2], s2) == Some(s3) by {
      AddImmStep(r, lo, s2);
    }
    ExecThree(c, s, s1, s2, s3);
    assert s3.regs == s.regs[r := (b + lo % TWO64) % TWO64];
  }

  /** The corrected sequence leaves the literal's 64-bit two's-complement pattern in `r`. */
  lemma LoadImm64Exec(r: Reg, v: Int64, s: State)
    requires Valid(s) && r != R10
    ensures Exec(LoadImm64(r, v), s) == Some(s.(regs := s.regs[r := v % TWO64]))
  {
    var c := LoadImm64(r, v);
    if -0x8000_0000 <= v < 0x8000_0000 {
      var s1 := s.(regs := s.regs[r := v % TWO64]);
      assert Exec(c, s) == Some(s1) by {
        MovImmStep(r, v, s);
        ExecStep(c, s, s1);
        assert c[1..] == [];
      }
    } else {
      var lo := S32(v);
      var hi := S32((v - lo) / TWO32);
      var x := (((hi % TWO64) * TWO32) % TWO64 + lo % TWO64) % TWO64;
      assert x == v % TWO64 by {
        WideLoadValue(v);
      }
      assert Exec(c, s) == Some(s.(regs := s.regs[r := x])) by {
        assert c == [MovImm(r, hi), AluImm(Lsh, r, 32), AluImm(Add, r, lo)];
        WideSteps(r, hi, lo, s);
      }
    }
  }

  /** emit_xfer with the corrected literal load for integer literals bound for a register. */
  function XferCodeFixed(to: Node, from: Node): (r: Emitted)
    requires XferReady(to, from)
    ensures from.IntLit? && to.dyn.loc == InReg ==> r.err == 0
    ensures !(from.IntLit? && to.dyn.loc == InReg) ==> r == XferCode(to, from)
  {
    if from.IntLit? && to.dyn.loc == InReg then Emitted(0, LoadImm64(to.dyn.reg, from.integer))
    else XferCode(to, from)
  }

  /** With the correction, every int64 literal reaches its register intact. */
  lemma IntLitToRegFixed(to: Node, lit: Node, s: State)
    requires Valid(s) && lit.IntLit? && to.dyn.loc == InReg && to.dyn.reg != R10
    ensures Exec(XferCodeFixed(to, lit).code, s) == Some(s.(regs := s.regs[to.dyn.reg := lit.integer % TWO64]))
  {
    LoadImm64Exec(to.dyn.reg, lit.integer, s);
  }
}

/**
 * The annotated syntax tree the generator consumes. Every node carries the
 * value descriptor filled in by the earlier annotation pass: where the value
 * lives, which register, which frame offset, how many bytes.
 */
module Ast {
  import opened Wrappers
  import opened Bytes
  import opened Bpf

  /** LOC_NOWHERE, LOC_REG, LOC_STACK. */
  datatype Loc = Nowhere | InReg | OnStack

  /**
   * A node's resolved value. As in the source, the register and the frame
   * offset are both present whatever the location kind; the generator reads
   * whichever it needs.
   */
  datatype Dyn = Dyn(loc: Loc, reg: Reg, addr: int, size: nat)

  /** One variant per node kind, each with the links the generator follows. */
  datatype Node =
    | IntLit(dyn: Dyn, integer: Int64)                          // TYPE_INT
    | StrLit(dyn: Dyn, bytes: seq<Byte>)                         // TYPE_STR
    | Rec(dyn: Dyn, fields: seq<Node>)                           // TYPE_REC
    | MapRef(dyn: Dyn, rec: Node)                                // TYPE_MAP; rec is the key record
    | Not(dyn: Dyn, expr: Node)                                  // TYPE_NOT
    | Binop(dyn: Dyn, left: Node, right: Node)                   // TYPE_BINOP
    | Return(dyn: Dyn)                                           // TYPE_RETURN
    | Assign(dyn: Dyn, op: AluOp, lval: Node, expr: Node)        // TYPE_ASSIGN
    | FnCall(dyn: Dyn, args: seq<Node>)                          // TYPE_CALL
    | Probe(dyn: Dyn, pred: Option<Node>, stmts: seq<Node>)      // TYPE_PROBE
    | Script(dyn: Dyn, probes: seq<Node>)                        // TYPE_SCRIPT
    | Untyped(dyn: Dyn)                                          // TYPE_NONE

  /** The signed 64-bit value stored in two 32-bit words, low word first. */
  function Int64Of(w: seq<Int32>): int
    requires |w| >= 2
  {
    w[1] * TWO32 + w[0] % TWO32
  }

  /** The words a little-endian host stores an int64 literal in; reading them back as an int64 gives the literal. */
  function IntWords(v: Int64): (w: seq<Int32>)
    ensures |w| == 2 && Int64Of(w) == v
  {
    [S32(v), v / TWO32]
  }

  /** The bytes of a string literal read as consecutive little-endian 32-bit words. */
  function PackWords(bytes: seq<Byte>): (w: seq<Int32>)
    ensures |w| == |bytes| / 4
    ensures forall k :: 0 <= k < |w| ==> LeBytes(w[k], 4) == bytes[4 * k .. 4 * k + 4]
  {
    var w := seq(|bytes| / 4, k requires 0 <= k < |bytes| / 4 => S32(LeValue(bytes[4 * k .. 4 * k + 4])));
    forall k | 0 <= k < |w|
      ensures LeBytes(w[k], 4) == bytes[4 * k .. 4 * k + 4]
    {
      var chunk := bytes[4 * k .. 4 * k + 4];
      assert Pow256(4) == TWO32;
      LeBytesMod(w[k], LeValue(chunk), 4);
      LeBytesOfValue(chunk);
    }
    w
  }

  /**
   * What the source needs of each node it compiles: a string literal
   * copied to the stack has a declared size that is a whole number of words
   * inside its bytes, one read into a register has at least eight bytes,
   * and an assignment's left side is a map reference.
   */
  predicate LocalOk(n: Node)
  {
    match n
    case StrLit(d, bytes) =>
      (d.loc == OnStack ==> d.size % 4 == 0 && d.size <= |bytes|) && (d.loc == InReg ==> |bytes| >= 8)
    case Assign(_, _, lval, _) => lval.MapRef?
    case _ => true
  }

  /** Every node of the tree satisfies LocalOk. */
  predicate WellFormed(n: Node)
    decreases n
  {
    LocalOk(n) &&
    match n
    case Rec(_, fields) => AllWellFormed(fields)
    case MapRef(_, rec) => WellFormed(rec)
    case Not(_, expr) => WellFormed(expr)
    case Binop(_, left, right) => WellFormed(left) && WellFormed(right)
    case Assign(_, _, lval, expr) => WellFormed(lval) && WellFormed(expr)
    case FnCall(_, args) => AllWellFormed(args)
    case Probe(_, pred, stmts) => (pred.Some? ==> WellFormed(pred.value)) && AllWellFormed(stmts)
    case Script(_, probes) => AllWellFormed(probes)
    case _ => true
  }

  predicate AllWellFormed(ns: seq<Node>)
    decreases ns
  {
    forall i :: 0 <= i < |ns| ==> WellFormed(ns[i])
  }

  /** The children of a node, in the order the walk visits them. */
  function Children(n: Node): (r: seq<Node>)
    ensures forall i :: 0 <= i < |r| ==> r[i] < n
  {
    match n
    case Rec(_, fields) => fields
    case MapRef(_, rec) => [rec]
    case Not(_, expr) => [expr]
    case Binop(_, left, right) => [left, right]
    case Assign(_, _, lval, expr) => [lval, expr]
    case FnCall(_, args) => args
    case Probe(_, pred, stmts) => (if pred.Some? then [pred.value] else []) + stmts
    case Script(_, probes) => probes
    case _ => []
  }

  /** The children of a well-formed node are well formed. */
  lemma ChildrenWellFormed(n: Node)
    requires WellFormed(n)
    ensures Siblings(Children(n), n)
  {
    if n.Probe? && n.pred.Some? {
      var r := Children(n);
      assert r == [n.pred.value] + n.stmts;
      forall i | 0 <= i < |r|
        ensures WellFormed(r[i])
      {
        if i > 0 {
          assert r[i] == n.stmts[i - 1];
        }
      }
    }
  }

  /** `ns` are well-formed children of `owner`. */
  ghost predicate Siblings(ns: seq<Node>, owner: Node)
  {
    AllWellFormed(ns) && forall i :: 0 <= i < |ns| ==> ns[i] < owner
  }

  /** Whether a node's children see a plain-overwrite assignment as their parent. */
  predicate UnderMov(n: Node)
  {
    n.Assign? && n.op == Mov
  }
}

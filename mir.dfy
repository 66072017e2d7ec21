/**
 * Generic machine IR as the pre-legalizer and the instruction-info queries see
 * it: instructions with an opcode and an ordered operand list, kept in an arena
 * and addressed by stable handles; basic blocks are ordered lists of handles.
 * The def/use queries of LLVM's MachineRegisterInfo are functions over the
 * live instructions (those that some block lists).
 */
module MIR {
  import opened Spirv

  type Handle = nat

  datatype Intrinsic =
    | spv_track_constant | spv_assign_type | spv_assign_name | spv_const_composite
    | spv_bitcast | OtherIntrinsic(id: nat)

  /** LLVM IR types, as far as the pass looks at them. */
  datatype IRType =
    | IntTy(width: nat)
    | FloatTy(width: nat)
    | VecTy(elem: IRType, count: nat)
    | PtrTy(addrSpace: nat)
    | OtherTy(id: nat)

  /** An IR constant named by a spv_track_constant intrinsic. */
  datatype Constant =
    | GlobalConst(gv: nat)              // a global value
    | IntConst(width: nat, value: nat)
    | FPConst(width: nat, bits: nat)
    | DataVector(elems: seq<Constant>)  // a ConstantDataVector
    | OtherConst(id: nat)

  datatype Metadata = ConstMD(c: Constant) | TypeMD(ty: IRType) | OtherMD

  datatype MachineOperand =
    | RegOp(reg: Reg, isDef: bool)
    | ImmOp(imm: int)
    | CImmOp(width: nat, value: nat)  // a ConstantInt of type iN
    | FPImmOp(width: nat)             // a ConstantFP; only its type is modelled
    | GlobalOp(gv: nat, ty: IRType)   // a global value and its type
    | IntrinsicOp(id: Intrinsic)
    | MetaOp(md: Metadata)
    | MbbOp(mbb: nat)
    | TypeIdOp(ty: IRType)            // the register that holds the id of SPIR-V type ty

  /** An instruction; its first numDefs operands are its explicit definitions. */
  datatype MachineInstr = MachineInstr(opcode: Opcode, ops: seq<MachineOperand>, numDefs: nat)

  /** Low-level types of virtual registers (MRI.getType). */
  datatype LLT =
    | InvalidLLT
    | Scalar(bits: nat)
    | Pointer(addrSpace: nat, bits: nat)
    | FixedVector(count: nat, elem: LLT)

  datatype RegClass =
    | IDRegClass | fIDRegClass | pIDRegClass | vIDRegClass | vfIDRegClass | TYPERegClass | ANYIDRegClass

  /** `MachineInstr::getIntrinsicID`: the intrinsic operand after the explicit defs. */
  function IntrinsicID(mi: MachineInstr): Option<Intrinsic> {
    if mi.numDefs < |mi.ops| && mi.ops[mi.numDefs].IntrinsicOp? then Some(mi.ops[mi.numDefs].id) else None
  }

  predicate Defines(mi: MachineInstr, r: Reg) {
    RegOp(r, true) in mi.ops
  }

  /** Number of use operands of r in one instruction. */
  function UsesIn(mi: MachineInstr, r: Reg): nat {
    multiset(mi.ops)[RegOp(r, false)]
  }

  function Flatten(bs: seq<seq<Handle>>): seq<Handle> {
    if bs == [] then [] else bs[0] + Flatten(bs[1..])
  }

  lemma {:induction false} InFlatten(bs: seq<seq<Handle>>, b: nat, i: nat)
    requires b < |bs| && i < |bs[b]|
    ensures bs[b][i] in Flatten(bs)
  {
    if b > 0 {
      InFlatten(bs[1..], b - 1, i);
    }
  }

  lemma {:induction false} FlattenIn(bs: seq<seq<Handle>>, h: Handle)
    requires h in Flatten(bs)
    ensures exists b, i :: 0 <= b < |bs| && 0 <= i < |bs[b]| && bs[b][i] == h
  {
    if h in bs[0] {
      var i :| 0 <= i < |bs[0]| && bs[0][i] == h;
    } else {
      FlattenIn(bs[1..], h);
      var b, i :| 0 <= b < |bs[1..]| && 0 <= i < |bs[1..][b]| && bs[1..][b][i] == h;
      assert bs[b + 1][i] == h;
    }
  }

  /** MRI.getVRegDef over the live handles hs: the first one that defines r. */
  function DefIn(arena: seq<MachineInstr>, hs: seq<Handle>, r: Reg): (d: Option<Handle>)
    ensures d.Some? ==> d.value in hs && d.value < |arena| && Defines(arena[d.value], r)
  {
    if hs == [] then None
    else if hs[0] < |arena| && Defines(arena[hs[0]], r) then Some(hs[0])
    else DefIn(arena, hs[1..], r)
  }

  /** Number of use operands of r over the live handles hs (MRI's use list). */
  function UseCount(arena: seq<MachineInstr>, hs: seq<Handle>, r: Reg): nat {
    if hs == [] then 0
    else (if hs[0] < |arena| then UsesIn(arena[hs[0]], r) else 0) + UseCount(arena, hs[1..], r)
  }

  /** The first live instruction that uses r (MRI.use_instr_begin when r has one use). */
  function UserIn(arena: seq<MachineInstr>, hs: seq<Handle>, r: Reg): (u: Option<Handle>)
    ensures u.Some? ==> u.value in hs && u.value < |arena| && UsesIn(arena[u.value], r) > 0
    ensures u.None? ==> UseCount(arena, hs, r) == 0
  {
    if hs == [] then None
    else if hs[0] < |arena| && UsesIn(arena[hs[0]], r) > 0 then Some(hs[0])
    else UserIn(arena, hs[1..], r)
  }

  function RenameOp(op: MachineOperand, from: Reg, to: Reg): MachineOperand {
    if op.RegOp? && op.reg == from then RegOp(to, op.isDef) else op
  }

  function RenameInstr(mi: MachineInstr, from: Reg, to: Reg): (r: MachineInstr)
    ensures r.opcode == mi.opcode && r.numDefs == mi.numDefs && |r.ops| == |mi.ops|
  {
    mi.(ops := seq(|mi.ops|, k requires 0 <= k < |mi.ops| => RenameOp(mi.ops[k], from, to)))
  }

  /** A block list with every occurrence of handle h removed. */
  function RemoveHandle(s: seq<Handle>, h: Handle): (r: seq<Handle>)
    ensures h !in r
    ensures forall x :: x in r <==> x in s && x != h
  {
    if s == [] then []
    else if s[0] == h then RemoveHandle(s[1..], h)
    else [s[0]] + RemoveHandle(s[1..], h)
  }

  /** Index of the block that lists h. */
  function BlockOf(bs: seq<seq<Handle>>, h: Handle): (b: nat)
    requires h in Flatten(bs)
    ensures b < |bs| && h in bs[b]
  {
    if h in bs[0] then 0 else 1 + BlockOf(bs[1..], h)
  }

  /** Position of the first occurrence of h in a block. */
  function IndexOf(s: seq<Handle>, h: Handle): (i: nat)
    requires h in s
    ensures i < |s| && s[i] == h
  {
    if s[0] == h then 0 else 1 + IndexOf(s[1..], h)
  }

  ghost predicate HandlesIn(bs: seq<seq<Handle>>, n: nat) {
    forall b, i :: 0 <= b < |bs| && 0 <= i < |bs[b]| ==> bs[b][i] < n
  }

  ghost predicate RegsBelow(arena: seq<MachineInstr>, n: nat) {
    forall h, k :: 0 <= h < |arena| && 0 <= k < |arena[h].ops| && arena[h].ops[k].RegOp? ==>
      arena[h].ops[k].reg < n
  }

  ghost predicate InstrRegsBelow(mi: MachineInstr, n: nat) {
    forall k :: 0 <= k < |mi.ops| && mi.ops[k].RegOp? ==> mi.ops[k].reg < n
  }

  lemma {:induction false} LiveBelow(bs: seq<seq<Handle>>, n: nat, h: Handle)
    requires HandlesIn(bs, n) && h in Flatten(bs)
    ensures h < n
  {
    FlattenIn(bs, h);
  }

  /**
   * One machine function: its instruction arena, its blocks, and the register
   * information LLVM keeps in MachineRegisterInfo (type, class, next number).
   */
  class MachineFunction {
    var arena: seq<MachineInstr>
    var blocks: seq<seq<Handle>>
    var regLLT: map<Reg, LLT>
    var regClass: map<Reg, RegClass>
    var nextReg: Reg

    ghost predicate Valid()
      reads this
    {
      HandlesIn(blocks, |arena|) && RegsBelow(arena, nextReg)
    }

    /** The live instructions, block by block, each in order. */
    function Live(): seq<Handle>
      reads this
    {
      Flatten(blocks)
    }

    /** `MachineRegisterInfo::replaceRegWith`: every operand naming `from` now names `to`. */
    method ReplaceRegWith(from: Reg, to: Reg)
      requires Valid() && to < nextReg
      modifies this
      ensures Valid()
      ensures |arena| == |old(arena)|
      ensures forall h :: 0 <= h < |arena| ==> arena[h] == RenameInstr(old(arena)[h], from, to)
      ensures blocks == old(blocks) && regLLT == old(regLLT) && regClass == old(regClass)
      ensures nextReg == old(nextReg)
    {
      var a := arena;
      arena := seq(|a|, h requires 0 <= h < |a| => RenameInstr(a[h], from, to));
      forall h, k | 0 <= h < |arena| && 0 <= k < |arena[h].ops| && arena[h].ops[k].RegOp?
        ensures arena[h].ops[k].reg < nextReg
      {
        assert arena[h].ops[k] == RenameOp(a[h].ops[k], from, to);
      }
    }

    /** `MachineInstr::eraseFromParent`: the handle leaves its block. */
    method EraseFromParent(h: Handle)
      requires Valid()
      modifies this
      ensures Valid()
      ensures |blocks| == |old(blocks)|
      ensures forall b :: 0 <= b < |blocks| ==> blocks[b] == RemoveHandle(old(blocks)[b], h)
      ensures arena == old(arena) && regLLT == old(regLLT) && regClass == old(regClass)
      ensures nextReg == old(nextReg)
    {
      var bs := blocks;
      blocks := seq(|bs|, b requires 0 <= b < |bs| => RemoveHandle(bs[b], h));
      forall b, i | 0 <= b < |blocks| && 0 <= i < |blocks[b]|
        ensures blocks[b][i] < |arena|
      {
        assert blocks[b][i] in bs[b];
      }
    }

    /** Rewrites instruction h in place (setReg, RemoveOperand, addOperand). */
    method SetInstr(h: Handle, mi: MachineInstr)
      requires Valid() && h < |arena| && InstrRegsBelow(mi, nextReg)
      modifies this
      ensures Valid()
      ensures arena == old(arena)[h := mi]
      ensures blocks == old(blocks) && regLLT == old(regLLT) && regClass == old(regClass)
      ensures nextReg == old(nextReg)
    {
      arena := arena[h := mi];
    }

    /** `MachineOperand::setReg` and the like: operand k of instruction h becomes op. */
    method SetOperand(h: Handle, k: nat, op: MachineOperand)
      requires Valid() && h < |arena| && k < |arena[h].ops| && (op.RegOp? ==> op.reg < nextReg)
      modifies this
      ensures Valid()
      ensures arena == old(arena)[h := old(arena)[h].(ops := old(arena)[h].ops[k := op])]
      ensures blocks == old(blocks) && regLLT == old(regLLT) && regClass == old(regClass)
      ensures nextReg == old(nextReg)
    {
      var mi := arena[h];
      arena := arena[h := mi.(ops := mi.ops[k := op])];
    }

    /** Builds mi into block b right after position pos; it gets the next free handle. */
    method InsertAfter(b: nat, pos: nat, mi: MachineInstr) returns (h: Handle)
      requires Valid() && b < |blocks| && pos < |blocks[b]| && InstrRegsBelow(mi, nextReg)
      modifies this
      ensures Valid()
      ensures h == |old(arena)| && arena == old(arena) + [mi]
      ensures blocks == old(blocks)[b := old(blocks)[b][..pos + 1] + [h] + old(blocks)[b][pos + 1..]]
      ensures regLLT == old(regLLT) && regClass == old(regClass) && nextReg == old(nextReg)
    {
      h := |arena|;
      var bs := blocks;
      arena := arena + [mi];
      blocks := bs[b := bs[b][..pos + 1] + [h] + bs[b][pos + 1..]];
      forall c, i | 0 <= c < |blocks| && 0 <= i < |blocks[c]|
        ensures blocks[c][i] < |arena|
      {
        if c == b {
          assert blocks[c][i] in bs[b] || blocks[c][i] == h by {
            assert bs[b] == bs[b][..pos + 1] + bs[b][pos + 1..];
          }
        }
      }
    }

    /** `MRI.createGenericVirtualRegister`: a register no instruction mentions yet. */
    method CreateGenericVirtualRegister(ty: LLT) returns (r: Reg)
      requires Valid()
      modifies this
      ensures Valid()
      ensures r == old(nextReg) && nextReg == r + 1
      ensures regLLT == old(regLLT)[r := ty]
      ensures arena == old(arena) && blocks == old(blocks) && regClass == old(regClass)
    {
      r := nextReg;
      nextReg := nextReg + 1;
      regLLT := regLLT[r := ty];
    }

    method SetRegClass(r: Reg, c: RegClass)
      modifies this
      ensures regClass == old(regClass)[r := c]
      ensures arena == old(arena) && blocks == old(blocks) && regLLT == old(regLLT)
      ensures nextReg == old(nextReg)
    {
      regClass := regClass[r := c];
    }
  }

  /** A MachineInstrBuilder: an instruction whose operands are appended one at a time. */
  class InstBuilder {
    var opcode: Opcode
    var ops: seq<MachineOperand>
    var numDefs: nat

    constructor (opc: Opcode)
      ensures opcode == opc && ops == [] && numDefs == 0
    {
      opcode, ops, numDefs := opc, [], 0;
    }

    method AddImm(v: int)
      modifies this
      ensures ops == old(ops) + [ImmOp(v)]
      ensures opcode == old(opcode) && numDefs == old(numDefs)
    {
      ops := ops + [ImmOp(v)];
    }

    method AddUse(r: Reg)
      modifies this
      ensures ops == old(ops) + [RegOp(r, false)]
      ensures opcode == old(opcode) && numDefs == old(numDefs)
    {
      ops := ops + [RegOp(r, false)];
    }

    function Instr(): MachineInstr
      reads this
    {
      MachineInstr(opcode, ops, numDefs)
    }
  }

  /** A MachineIRBuilder: the instructions it has built at its insertion point, in order. */
  class MIRBuilder {
    var built: seq<MachineInstr>

    constructor ()
      ensures built == []
    {
      built := [];
    }

    method Insert(mi: MachineInstr)
      modifies this
      ensures built == old(built) + [mi]
    {
      built := built + [mi];
    }
  }
}

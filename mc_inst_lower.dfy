/**
 * `SPIRVMCInstLower::Lower`: a machine instruction becomes an MC instruction
 * with the same opcode and one MC operand per machine operand, in order.
 * Registers go through the module's alias table, the immediate that names an
 * extended instruction set becomes that set's register, a function address
 * becomes the function's register and a basic block its (get-or-create)
 * label register.
 */
module MCInstLower {
  import opened Spirv
  import opened MIR

  /**
   * The parts of the module analysis the lowering reads, and the block label
   * registers it creates on demand.
   */
  class ModuleAnalysis {
    /** `getRegisterAlias(MF, r)` for the function being printed; a missing entry is the invalid register. */
    var regAlias: map<Reg, Reg>
    /** `getFuncReg` by global identifier. */
    var funcRegs: map<nat, Reg>
    /** `getExtInstSetReg` by set number. */
    var extInstSetRegs: map<int, Reg>
    /** The label register of each basic block numbered so far. */
    var mbbRegs: map<nat, Reg>
    /** `getNextID`: the next virtual register index to hand out. */
    var nextID: nat

    /** Block label registers are distinct virtual registers below the next one to hand out. */
    ghost predicate Valid()
      reads this
    {
      (forall b :: b in mbbRegs ==> VirtRegBase <= mbbRegs[b] < VirtRegBase + nextID) &&
      (forall b1, b2 :: b1 in mbbRegs && b2 in mbbRegs && b1 != b2 ==> mbbRegs[b1] != mbbRegs[b2])
    }

    constructor(regAlias: map<Reg, Reg>, funcRegs: map<nat, Reg>, extInstSetRegs: map<int, Reg>, nextID: nat)
      ensures Valid() && mbbRegs == map[]
      ensures this.regAlias == regAlias && this.funcRegs == funcRegs && this.extInstSetRegs == extInstSetRegs
      ensures this.nextID == nextID
    {
      this.regAlias := regAlias;
      this.funcRegs := funcRegs;
      this.extInstSetRegs := extInstSetRegs;
      this.mbbRegs := map[];
      this.nextID := nextID;
    }

    /**
     * `getOrCreateMBBRegister`: the block's label register, a new virtual
     * register the first time the block is asked for.
     */
    method GetOrCreateMBBRegister(mbb: nat) returns (r: Reg)
      requires Valid()
      modifies this
      ensures Valid() && mbb in mbbRegs && r == mbbRegs[mbb]
      ensures mbb in old(mbbRegs) ==> mbbRegs == old(mbbRegs) && nextID == old(nextID)
      ensures mbb !in old(mbbRegs) ==>
        r == VirtRegBase + old(nextID) && mbbRegs == old(mbbRegs)[mbb := r] && nextID == old(nextID) + 1
      ensures regAlias == old(regAlias) && funcRegs == old(funcRegs) && extInstSetRegs == old(extInstSetRegs)
    {
      if mbb in mbbRegs {
        return mbbRegs[mbb];
      }
      r := VirtRegBase + nextID;
      mbbRegs := mbbRegs[mbb := r];
      nextID := nextID + 1;
    }
  }

  /** Operand kinds the lowering handles; any other kind is unreachable there, and a function needs a register. */
  predicate Lowerable(mo: MachineOperand, funcRegs: map<nat, Reg>) {
    match mo
    case GlobalOp(gv, _) => gv in funcRegs && funcRegs[gv] != NoReg
    case MbbOp(_) => true
    case RegOp(_, _) => true
    case ImmOp(_) => true
    case FPImmOp(_) => true
    case _ => false
  }

  /** The register r stands for: its alias when a function is being printed and the alias is valid, else r itself. */
  function AliasOf(r: Reg, regAlias: map<Reg, Reg>, curMF: bool): Reg {
    var newReg := if r in regAlias then regAlias[r] else NoReg;
    if !curMF || newReg == NoReg then r else newReg
  }

  /**
   * The MC operand for operand i of an instruction with the given opcode,
   * given the block registers mbbRegs; None for an operand the lowering does
   * not handle or a block that has no register yet.
   */
  function LowerOperand(opcode: Opcode, i: nat, mo: MachineOperand, curMF: bool, regAlias: map<Reg, Reg>,
                        funcRegs: map<nat, Reg>, extInstSetRegs: map<int, Reg>, mbbRegs: map<nat, Reg>): Option<MCOperand>
  {
    match mo
    case GlobalOp(gv, _) => if gv in funcRegs && funcRegs[gv] != NoReg then Some(Reg(funcRegs[gv])) else None
    case MbbOp(b) => if b in mbbRegs then Some(Reg(mbbRegs[b])) else None
    case RegOp(r, _) => Some(Reg(AliasOf(r, regAlias, curMF)))
    case ImmOp(v) =>
      if opcode == OpExtInst && i == 2 then Some(Reg(if v in extInstSetRegs then extInstSetRegs[v] else NoReg))
      else Some(Imm(v))
    case FPImmOp(_) => Some(DFPImm)
    case _ => None
  }

  /** Once a block has a register, operands lowered later against a larger map still get the same MC operand. */
  lemma LowerOperandGrows(opcode: Opcode, i: nat, mo: MachineOperand, curMF: bool, regAlias: map<Reg, Reg>,
                          funcRegs: map<nat, Reg>, extInstSetRegs: map<int, Reg>, m1: map<nat, Reg>, m2: map<nat, Reg>)
    requires forall b :: b in m1 ==> b in m2 && m2[b] == m1[b]
    requires LowerOperand(opcode, i, mo, curMF, regAlias, funcRegs, extInstSetRegs, m1).Some?
    ensures LowerOperand(opcode, i, mo, curMF, regAlias, funcRegs, extInstSetRegs, m2) ==
            LowerOperand(opcode, i, mo, curMF, regAlias, funcRegs, extInstSetRegs, m1)
  {
  }

  /**
   * What each operand kind becomes: registers, functions, blocks and the
   * extended-instruction-set immediate become registers (a register its alias
   * only when one is recorded and a function is being printed); every other
   * immediate keeps its value.
   */
  lemma LowerOperandKinds(opcode: Opcode, i: nat, mo: MachineOperand, curMF: bool, regAlias: map<Reg, Reg>,
                          funcRegs: map<nat, Reg>, extInstSetRegs: map<int, Reg>, mbbRegs: map<nat, Reg>)
    ensures var r := LowerOperand(opcode, i, mo, curMF, regAlias, funcRegs, extInstSetRegs, mbbRegs);
      && (mo.RegOp? ==> r == Some(Reg(if curMF && mo.reg in regAlias && regAlias[mo.reg] != NoReg then regAlias[mo.reg] else mo.reg)))
      && (mo.ImmOp? && !(opcode == OpExtInst && i == 2) ==> r == Some(Imm(mo.imm)))
      && (mo.ImmOp? && opcode == OpExtInst && i == 2 ==> r.Some? && r.value.Reg?)
      && (mo.GlobalOp? ==> (r.Some? <==> mo.gv in funcRegs && funcRegs[mo.gv] != NoReg))
      && (mo.MbbOp? ==> (r.Some? <==> mo.mbb in mbbRegs))
      && (r.Some? <==> Lowerable(mo, funcRegs) && (mo.MbbOp? ==> mo.mbb in mbbRegs))
  {
  }

  /** The lowering of one operand (the body of Lower's loop). */
  method LowerOne(mai: ModuleAnalysis, opcode: Opcode, i: nat, mo: MachineOperand, curMF: bool) returns (ok: bool, mc: MCOperand)
    requires mai.Valid()
    modifies mai
    ensures mai.Valid() && ok == Lowerable(mo, mai.funcRegs)
    ensures mai.regAlias == old(mai.regAlias) && mai.funcRegs == old(mai.funcRegs) && mai.extInstSetRegs == old(mai.extInstSetRegs)
    ensures ok ==> LowerOperand(opcode, i, mo, curMF, mai.regAlias, mai.funcRegs, mai.extInstSetRegs, mai.mbbRegs) == Some(mc)
    ensures forall b :: b in old(mai.mbbRegs) ==> b in mai.mbbRegs && mai.mbbRegs[b] == old(mai.mbbRegs)[b]
    ensures forall b :: b in mai.mbbRegs && b !in old(mai.mbbRegs) ==> mo == MbbOp(b)
  {
    mc := Imm(0);
    ok := Lowerable(mo, mai.funcRegs);
    if !ok {
      return;
    }
    match mo {
      case GlobalOp(gv, _) =>
        mc := Reg(mai.funcRegs[gv]);
      case MbbOp(b) =>
        var r := mai.GetOrCreateMBBRegister(b);
        mc := Reg(r);
      case RegOp(r, _) =>
        mc := Reg(AliasOf(r, mai.regAlias, curMF));
      case ImmOp(v) =>
        if opcode == OpExtInst && i == 2 {
          mc := Reg(if v in mai.extInstSetRegs then mai.extInstSetRegs[v] else NoReg);
        } else {
          mc := Imm(v);
        }
      case FPImmOp(_) =>
        mc := DFPImm;
    }
  }

  /** The operands of mi that name a basic block. */
  ghost predicate BlockOperandOf(mi: MachineInstr, b: nat) {
    exists i :: 0 <= i < |mi.ops| && mi.ops[i] == MbbOp(b)
  }

  /**
   * `SPIRVMCInstLower::Lower`: on success the MC instruction keeps the opcode
   * and lowers every operand in place; the only state it changes is the block
   * register table, which gains registers for the blocks mi names and keeps
   * every register it had. It fails (an assertion or an unreachable case in the
   * source) exactly when some operand cannot be lowered.
   */
  method Lower(mai: ModuleAnalysis, mi: MachineInstr, curMF: bool) returns (ok: bool, out: MCInst)
    requires mai.Valid()
    modifies mai
    ensures mai.Valid()
    ensures ok <==> forall i :: 0 <= i < |mi.ops| ==> Lowerable(mi.ops[i], mai.funcRegs)
    ensures mai.regAlias == old(mai.regAlias) && mai.funcRegs == old(mai.funcRegs) && mai.extInstSetRegs == old(mai.extInstSetRegs)
    ensures ok ==> out.opcode == mi.opcode && |out.ops| == |mi.ops|
    ensures ok ==> forall i :: 0 <= i < |mi.ops| ==>
      LowerOperand(mi.opcode, i, mi.ops[i], curMF, mai.regAlias, mai.funcRegs, mai.extInstSetRegs, mai.mbbRegs) == Some(out.ops[i])
    ensures forall b :: b in old(mai.mbbRegs) ==> b in mai.mbbRegs && mai.mbbRegs[b] == old(mai.mbbRegs)[b]
    ensures forall b :: b in mai.mbbRegs && b !in old(mai.mbbRegs) ==> BlockOperandOf(mi, b)
  {
    out := MCInst(mi.opcode, []);
    var i := 0;
    while i < |mi.ops|
      invariant i <= |mi.ops| && mai.Valid() && out.opcode == mi.opcode && |out.ops| == i
      invariant mai.regAlias == old(mai.regAlias) && mai.funcRegs == old(mai.funcRegs) && mai.extInstSetRegs == old(mai.extInstSetRegs)
      invariant forall j :: 0 <= j < i ==> Lowerable(mi.ops[j], mai.funcRegs)
      invariant forall j :: 0 <= j < i ==>
        LowerOperand(mi.opcode, j, mi.ops[j], curMF, mai.regAlias, mai.funcRegs, mai.extInstSetRegs, mai.mbbRegs) == Some(out.ops[j])
      invariant forall b :: b in old(mai.mbbRegs) ==> b in mai.mbbRegs && mai.mbbRegs[b] == old(mai.mbbRegs)[b]
      invariant forall b :: b in mai.mbbRegs && b !in old(mai.mbbRegs) ==> BlockOperandOf(mi, b)
    {
      ghost var before := mai.mbbRegs;
      var opOk, mc := LowerOne(mai, mi.opcode, i, mi.ops[i], curMF);
      if !opOk {
        return false, out;
      }
      forall j | 0 <= j < i
        ensures LowerOperand(mi.opcode, j, mi.ops[j], curMF, mai.regAlias, mai.funcRegs, mai.extInstSetRegs, mai.mbbRegs) == Some(out.ops[j])
      {
        LowerOperandGrows(mi.opcode, j, mi.ops[j], curMF, mai.regAlias, mai.funcRegs, mai.extInstSetRegs, before, mai.mbbRegs);
      }
      out := out.(ops := out.ops + [mc]);
      i := i + 1;
    }
    ok := true;
  }

  /**
   * Lowering two instructions one after the other gives the same block the
   * same register: what the first lowering records is kept by the second.
   */
  method LowerTwo(mai: ModuleAnalysis, mi1: MachineInstr, mi2: MachineInstr, i1: nat, i2: nat, b: nat)
      returns (out1: MCInst, out2: MCInst)
    requires mai.Valid() && i1 < |mi1.ops| && i2 < |mi2.ops| && mi1.ops[i1] == MbbOp(b) && mi2.ops[i2] == MbbOp(b)
    modifies mai
    ensures |out1.ops| == |mi1.ops| && |out2.ops| == |mi2.ops| ==> out1.ops[i1] == out2.ops[i2]
  {
    var ok1, ok2;
    ok1, out1 := Lower(mai, mi1, true);
    ghost var m1 := mai.mbbRegs;
    ok2, out2 := Lower(mai, mi2, true);
    if !ok1 || !ok2 {
      out1, out2 := MCInst(mi1.opcode, []), MCInst(mi2.opcode, []);
    }
  }
}

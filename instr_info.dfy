/**
 * `SPIRVInstrInfo`: which instructions belong in the module header (types,
 * constants, decorations and the fixed header opcodes), what the branch at
 * the end of a block says about its successors, and how a COPY is removed by
 * renaming its destination register.
 */
module InstrInfo {
  import opened Spirv
  import opened MIR

  const ConstantOpcodes: set<Opcode> := {
    OpConstantTrue, OpConstantFalse, OpConstantI, OpConstantF, OpConstantComposite,
    OpConstantSampler, OpConstantNull, OpSpecConstantTrue, OpSpecConstantFalse,
    OpSpecConstant, OpSpecConstantComposite, OpSpecConstantOp, OpUndef}

  const DecorationOpcodes: set<Opcode> := {
    OpDecorate, OpDecorateId, OpDecorateString, OpMemberDecorate, OpMemberDecorateString}

  /** The opcodes that are header instructions whatever their operands. */
  const HeaderOpcodes: set<Opcode> := {
    OpCapability, OpExtension, OpExtInstImport, OpMemoryModel, OpEntryPoint,
    OpExecutionMode, OpExecutionModeId, OpString, OpSourceExtension, OpSource,
    OpSourceContinued, OpName, OpMemberName, OpModuleProcessed}

  /** `isConstantInstr`: one of the thirteen constant opcodes. */
  predicate IsConstantInstr(mi: MachineInstr) {
    mi.opcode in ConstantOpcodes
  }

  /** `isDecorationInstr`: one of the five decoration opcodes. */
  predicate IsDecorationInstr(mi: MachineInstr) {
    mi.opcode in DecorationOpcodes
  }

  /** `isTypeDeclInstr`: the instruction defines a register whose class is TYPE. */
  predicate IsTypeDeclInstr(mi: MachineInstr, regClass: map<Reg, RegClass>) {
    if mi.numDefs >= 1 && |mi.ops| > 0 && mi.ops[0].RegOp? then
      mi.ops[0].reg in regClass && regClass[mi.ops[0].reg] == TYPERegClass
    else
      false
  }

  /**
   * `isHeaderInstr`: one of the fourteen header opcodes, or a type
   * declaration, a constant or a decoration.
   */
  predicate IsHeaderInstr(mi: MachineInstr, regClass: map<Reg, RegClass>) {
    mi.opcode in HeaderOpcodes || IsTypeDeclInstr(mi, regClass) || IsConstantInstr(mi) || IsDecorationInstr(mi)
  }

  /**
   * The three opcode sets are consecutive, non-overlapping ranges: 14 header
   * opcodes, then 5 decorations, then 13 constants.
   */
  lemma OpcodeRanges(op: Opcode)
    ensures op in HeaderOpcodes <==> op < 14
    ensures op in DecorationOpcodes <==> 14 <= op < 19
    ensures op in ConstantOpcodes <==> 19 <= op < 32
  {
  }

  /** No opcode is in two of the three opcode sets. */
  lemma OpcodeSetsDisjoint(op: Opcode)
    ensures !(op in HeaderOpcodes && op in DecorationOpcodes)
    ensures !(op in HeaderOpcodes && op in ConstantOpcodes)
    ensures !(op in DecorationOpcodes && op in ConstantOpcodes)
  {
    OpcodeRanges(op);
  }

  /** A type declaration is a header instruction whatever its opcode, and only a defining instruction can be one. */
  lemma TypeDeclIsHeader(mi: MachineInstr, regClass: map<Reg, RegClass>)
    requires IsTypeDeclInstr(mi, regClass)
    ensures IsHeaderInstr(mi, regClass)
    ensures mi.numDefs >= 1 && mi.ops[0].RegOp? && regClass[mi.ops[0].reg] == TYPERegClass
  {
  }

  /** A branch is never a header instruction unless its first operand is a TYPE register it defines. */
  lemma BranchNotHeader(mi: MachineInstr, regClass: map<Reg, RegClass>)
    requires mi.opcode == OpBranch || mi.opcode == OpBranchConditional
    ensures IsHeaderInstr(mi, regClass) <==> IsTypeDeclInstr(mi, regClass)
  {
  }

  /**
   * What `getMBB` needs of a block's last instruction when it is a branch:
   * OpBranch names its target first; OpBranchConditional has a condition and
   * a true target, and a false target when it has a third operand.
   */
  predicate BranchOperandsWellFormed(mi: MachineInstr) {
    (mi.opcode == OpBranch ==> |mi.ops| >= 1 && mi.ops[0].MbbOp?) &&
    (mi.opcode == OpBranchConditional ==>
      |mi.ops| >= 2 && mi.ops[1].MbbOp? && (|mi.ops| == 3 ==> mi.ops[2].MbbOp?))
  }

  /** The blocks an instruction names. */
  predicate Targets(mi: MachineInstr, mbb: nat) {
    MbbOp(mbb) in mi.ops
  }

  /**
   * `analyzeBranch` on block b: the true and false destinations and the
   * condition operands appended to `cond`. It gives up (unknown) exactly when
   * the block ends in something other than a branch; an empty block falls
   * through. Every destination it reports is a block the terminator names,
   * and a false destination comes only with a true one.
   */
  method AnalyzeBranch(mf: MachineFunction, b: nat, cond: seq<MachineOperand>)
      returns (unknown: bool, tbb: Option<nat>, fbb: Option<nat>, condOut: seq<MachineOperand>)
    requires mf.Valid() && b < |mf.blocks|
    requires |mf.blocks[b]| > 0 ==> BranchOperandsWellFormed(mf.arena[mf.blocks[b][|mf.blocks[b]| - 1]])
    ensures |mf.blocks[b]| == 0 ==> !unknown && tbb == None && fbb == None && condOut == cond
    ensures |mf.blocks[b]| > 0 ==>
      var last := mf.arena[mf.blocks[b][|mf.blocks[b]| - 1]];
      && (unknown <==> last.opcode != OpBranch && last.opcode != OpBranchConditional)
      && (unknown ==> tbb == None && fbb == None && condOut == cond)
      && (last.opcode == OpBranch ==> tbb == Some(last.ops[0].mbb) && fbb == None && condOut == cond)
      && (last.opcode == OpBranchConditional ==>
            && tbb == Some(last.ops[1].mbb)
            && fbb == (if |last.ops| == 3 then Some(last.ops[2].mbb) else None)
            && condOut == cond + [last.ops[0]])
      && (tbb.Some? ==> Targets(last, tbb.value))
      && (fbb.Some? ==> tbb.Some? && Targets(last, fbb.value))
  {
    tbb, fbb, condOut := None, None, cond;
    var block := mf.blocks[b];
    if |block| == 0 {
      return false, tbb, fbb, condOut;
    }
    var mi := mf.arena[block[|block| - 1]];
    if mi.opcode == OpBranch {
      tbb := Some(mi.ops[0].mbb);
      assert mi.ops[0] == MbbOp(mi.ops[0].mbb);
      unknown := false;
    } else if mi.opcode == OpBranchConditional {
      condOut := condOut + [mi.ops[0]];
      tbb := Some(mi.ops[1].mbb);
      assert mi.ops[1] == MbbOp(mi.ops[1].mbb);
      if |mi.ops| == 3 {
        fbb := Some(mi.ops[2].mbb);
        assert mi.ops[2] == MbbOp(mi.ops[2].mbb);
      }
      unknown := false;
    } else {
      unknown := true;
    }
  }

  /** Number of occurrences of operand op in ops. */
  function Count(ops: seq<MachineOperand>, op: MachineOperand): (n: nat)
    ensures n == multiset(ops)[op]
  {
    if ops == [] then 0
    else
      assert ops == [ops[0]] + ops[1..];
      (if ops[0] == op then 1 else 0) + Count(ops[1..], op)
  }

  function RenameOps(ops: seq<MachineOperand>, from: Reg, to: Reg): (r: seq<MachineOperand>)
    ensures |r| == |ops| && forall k :: 0 <= k < |ops| ==> r[k] == RenameOp(ops[k], from, to)
  {
    seq(|ops|, k requires 0 <= k < |ops| => RenameOp(ops[k], from, to))
  }

  /**
   * After renaming `from` to a different register `to`, no operand names
   * `from`, and `to` appears (as a def or a use) exactly as often as `from`
   * and `to` did together: every occurrence moves, none is lost or invented.
   */
  lemma {:induction false} RenameMovesOccurrences(ops: seq<MachineOperand>, from: Reg, to: Reg, isDef: bool)
    requires from != to
    ensures Count(RenameOps(ops, from, to), RegOp(from, isDef)) == 0
    ensures Count(RenameOps(ops, from, to), RegOp(to, isDef)) ==
            Count(ops, RegOp(to, isDef)) + Count(ops, RegOp(from, isDef))
  {
    if ops != [] {
      var r := RenameOps(ops, from, to);
      assert r[1..] == RenameOps(ops[1..], from, to);
      RenameMovesOccurrences(ops[1..], from, to, isDef);
    }
  }

  /** The per-instruction use counts of a COPY's registers after the rename. */
  lemma RenameInstrUses(mi: MachineInstr, from: Reg, to: Reg)
    requires from != to
    ensures UsesIn(RenameInstr(mi, from, to), from) == 0
    ensures UsesIn(RenameInstr(mi, from, to), to) == UsesIn(mi, to) + UsesIn(mi, from)
  {
    assert RenameInstr(mi, from, to).ops == RenameOps(mi.ops, from, to);
    RenameMovesOccurrences(mi.ops, from, to, false);
  }

  /**
   * `copyPhysReg` on the COPY at handle h: every operand of the function that
   * names the COPY's destination now names its source. It fails, changing
   * nothing, when h is not a COPY of one register into another, or when both
   * are the same register (`replaceRegWith` asserts they differ).
   */
  method CopyPhysReg(mf: MachineFunction, h: Handle) returns (ok: bool)
    requires mf.Valid() && h < |mf.arena|
    modifies mf
    ensures mf.Valid()
    ensures ok <==> var mi := old(mf.arena)[h];
      mi.opcode == COPY && |mi.ops| >= 2 && mi.ops[0].RegOp? && mi.ops[1].RegOp? && mi.ops[0].reg != mi.ops[1].reg
    ensures !ok ==> mf.arena == old(mf.arena)
    ensures ok ==> var mi := old(mf.arena)[h];
      |mf.arena| == |old(mf.arena)| &&
      forall x :: 0 <= x < |mf.arena| ==> mf.arena[x] == RenameInstr(old(mf.arena)[x], mi.ops[0].reg, mi.ops[1].reg)
    ensures ok ==>
      var dst, src := old(mf.arena)[h].ops[0].reg, old(mf.arena)[h].ops[1].reg;
      forall x :: 0 <= x < |mf.arena| ==>
        UsesIn(mf.arena[x], dst) == 0 && UsesIn(mf.arena[x], src) == UsesIn(old(mf.arena)[x], src) + UsesIn(old(mf.arena)[x], dst)
    ensures mf.blocks == old(mf.blocks) && mf.regLLT == old(mf.regLLT) && mf.regClass == old(mf.regClass)
    ensures mf.nextReg == old(mf.nextReg)
  {
    var mi := mf.arena[h];
    if !(mi.opcode == COPY && |mi.ops| >= 2 && mi.ops[0].RegOp? && mi.ops[1].RegOp?) {
      return false;
    }
    var dst, src := mi.ops[0].reg, mi.ops[1].reg;
    if dst == src {
      return false;
    }
    ghost var a := mf.arena;
    mf.ReplaceRegWith(dst, src);
    forall x | 0 <= x < |mf.arena|
      ensures UsesIn(mf.arena[x], dst) == 0 && UsesIn(mf.arena[x], src) == UsesIn(a[x], src) + UsesIn(a[x], dst)
    {
      RenameInstrUses(a[x], dst, src);
    }
    ok := true;
  }
}

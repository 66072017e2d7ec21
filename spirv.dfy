/**
 * Vocabulary shared by every part of the backend model: opcodes, registers,
 * enumerant values of the SPIR-V specification and the MC-layer instruction
 * that the lowering produces and the printer reads.
 */
module Spirv {

  datatype Option<T> = None | Some(value: T)

  /** One byte of a literal string. */
  type Byte = b: int | 0 <= b < 256

  /** One 32-bit word of an instruction's operand stream. */
  type Word = w: int | 0 <= w < 0x1_0000_0000

  const WordBase: nat := 0x1_0000_0000

  /**
   * A register number as LLVM's `Register` holds it: 0 is the invalid
   * register, and virtual registers have the top bit of 32 set.
   */
  type Reg = nat

  const NoReg: Reg := 0
  const VirtRegBase: nat := 0x8000_0000

  predicate IsVirtual(r: Reg) {
    r >= VirtRegBase
  }

  /** `Register::virtReg2Index`: the 0-based number of a virtual register. */
  function VirtIndex(r: Reg): nat
    requires IsVirtual(r)
  {
    r - VirtRegBase
  }

  /**
   * An opcode of the backend's instruction table (the SPIR-V instructions and
   * the target-independent generic ones share one numbering). The opcodes the
   * core inspects by name are the constants below; every other number is some
   * other opcode.
   */
  type Opcode = nat

  // module header
  const OpCapability: Opcode := 0
  const OpExtension: Opcode := 1
  const OpExtInstImport: Opcode := 2
  const OpMemoryModel: Opcode := 3
  const OpEntryPoint: Opcode := 4
  const OpExecutionMode: Opcode := 5
  const OpExecutionModeId: Opcode := 6
  const OpString: Opcode := 7
  const OpSourceExtension: Opcode := 8
  const OpSource: Opcode := 9
  const OpSourceContinued: Opcode := 10
  const OpName: Opcode := 11
  const OpMemberName: Opcode := 12
  const OpModuleProcessed: Opcode := 13
  // decorations
  const OpDecorate: Opcode := 14
  const OpDecorateId: Opcode := 15
  const OpDecorateString: Opcode := 16
  const OpMemberDecorate: Opcode := 17
  const OpMemberDecorateString: Opcode := 18
  // constants
  const OpConstantTrue: Opcode := 19
  const OpConstantFalse: Opcode := 20
  const OpConstantI: Opcode := 21
  const OpConstantF: Opcode := 22
  const OpConstantComposite: Opcode := 23
  const OpConstantSampler: Opcode := 24
  const OpConstantNull: Opcode := 25
  const OpSpecConstantTrue: Opcode := 26
  const OpSpecConstantFalse: Opcode := 27
  const OpSpecConstant: Opcode := 28
  const OpSpecConstantComposite: Opcode := 29
  const OpSpecConstantOp: Opcode := 30
  const OpUndef: Opcode := 31
  // instructions with custom operand grammars
  const OpExtInst: Opcode := 32
  const OpTypeImage: Opcode := 33
  const OpVariable: Opcode := 34
  const OpLoopMerge: Opcode := 35
  const OpLoad: Opcode := 36
  const OpStore: Opcode := 37
  const OpCopyMemory: Opcode := 38
  const OpCopyMemorySized: Opcode := 39
  const OpImageSampleImplicitLod: Opcode := 40
  const OpImageSampleDrefImplicitLod: Opcode := 41
  const OpImageSampleProjImplicitLod: Opcode := 42
  const OpImageSampleProjDrefImplicitLod: Opcode := 43
  const OpImageFetch: Opcode := 44
  const OpImageGather: Opcode := 45
  const OpImageDrefGather: Opcode := 46
  const OpImageRead: Opcode := 47
  const OpImageWrite: Opcode := 48
  const OpImageSparseSampleImplicitLod: Opcode := 49
  const OpImageSparseSampleDrefImplicitLod: Opcode := 50
  const OpImageSparseSampleProjImplicitLod: Opcode := 51
  const OpImageSparseSampleProjDrefImplicitLod: Opcode := 52
  const OpImageSparseFetch: Opcode := 53
  const OpImageSparseGather: Opcode := 54
  const OpImageSparseDrefGather: Opcode := 55
  const OpImageSparseRead: Opcode := 56
  const OpImageSampleFootprintNV: Opcode := 57
  // control flow
  const OpBranch: Opcode := 58
  const OpBranchConditional: Opcode := 59
  // generic machine opcodes and target pseudo instructions
  const G_INTRINSIC_W_SIDE_EFFECTS: Opcode := 60
  const G_CONSTANT: Opcode := 61
  const G_FCONSTANT: Opcode := 62
  const G_BUILD_VECTOR: Opcode := 63
  const G_GLOBAL_VALUE: Opcode := 64
  const G_TRUNC: Opcode := 65
  const G_ADDRSPACE_CAST: Opcode := 66
  const COPY: Opcode := 67
  const DBG_VALUE: Opcode := 68
  const ASSIGN_TYPE: Opcode := 69
  const GET_ID: Opcode := 70
  const GET_fID: Opcode := 71
  const GET_pID: Opcode := 72
  const GET_vID: Opcode := 73
  const GET_vfID: Opcode := 74

  /** Decoration enumerants (section 3.20 of the SPIR-V specification). */
  const BuiltIn: int := 11
  const UniformId: int := 27
  const FuncParamAttr: int := 38
  const FPRoundingMode: int := 39
  const FPFastMathMode: int := 40
  const LinkageAttributes: int := 41

  /** Memory Operands bit Aligned (section 3.26 of the SPIR-V specification). */
  const MemoryOperandAligned: nat := 0x2

  /** Instructions of the OpenCL.std extended instruction set that end in a rounding mode. */
  const vstore_half_r: int := 176
  const vstore_halfn_r: int := 178
  const vstorea_halfn_r: int := 181

  /** Extended instruction sets the backend knows by name. */
  datatype ExtInstSet = OpenCL_std | GLSL_std_450 | SPV_AMD_shader_trinary_minmax

  /** Storage classes (section 3.7 of the SPIR-V specification). */
  datatype StorageClass =
    | UniformConstant | Input | Uniform | Output | Workgroup | CrossWorkgroup
    | Private | Function | Generic | PushConstant | AtomicCounter | Image
    | StorageBuffer | OtherStorageClass(code: nat)

  /** An MC-layer operand: what the lowering emits and the printer reads. */
  datatype MCOperand =
    | Reg(reg: Reg)
    | Imm(imm: int)     // an int64 immediate
    | DFPImm            // a floating-point immediate; its value is not modelled
    | Expr              // a symbolic expression

  datatype MCInst = MCInst(opcode: Opcode, ops: seq<MCOperand>)
}

/**
 * The SPIR-V instruction printer: after the generated printer has written an
 * instruction's mnemonic and fixed operands, the hand-written part decides how
 * the variable operands that follow are rendered — a plain list, a 64-bit
 * literal re-assembled from two words, memory-operand masks with their
 * alignment, quoted strings, decoration and extended-instruction sub-grammars.
 *
 * The output stream is a sequence of tokens: a separating space, an operand
 * (`%n`, an immediate, a float, an expression), one character of a quoted
 * string, or the symbolic name of an enumerant.
 */
module Printer {
  import opened Bits
  import opened Spirv
  import opened Utils

  /** Enumerations whose operands print as symbolic names. */
  datatype EnumKind =
    | AccessQualifierKind | MemoryOperandKind | ImageOperandKind | FPRoundingModeKind
    | LinkageTypeKind | BuiltInKind | ScopeKind | FunctionParameterAttributeKind
    | FPFastMathModeKind

  datatype Token =
    | Space
    | RegTok(id: nat)                  // "%" followed by a 1-based id
    | ImmTok(v: int)                   // a signed 64-bit immediate
    | U64Tok(u: nat)                   // an unsigned 64-bit value
    | FPTok                            // a floating-point immediate
    | ExprTok                          // a symbolic expression
    | Chr(c: Byte)                     // one character of a quoted string
    | EnumTok(kind: EnumKind, v: int)  // the name of enumerant v

  /**
   * What the generated instruction table says about an opcode: its number of
   * fixed operands, whether variable operands may follow, and whether the last
   * fixed operand has a custom (neither register nor immediate) type.
   */
  datatype InstrDesc = InstrDesc(numOperands: nat, isVariadic: bool, lastFixedUnknown: bool)

  const Quote: Byte := 34
  const Backslash: Byte := 92
  const U64Base: nat := WordBase * WordBase

  /** Register operands must be virtual: their index is what the printer shows. */
  predicate RegsVirtual(mi: MCInst) {
    forall i :: 0 <= i < |mi.ops| && mi.ops[i].Reg? ==> IsVirtual(mi.ops[i].reg)
  }

  // ---------------------------------------------------------------------
  // Single operands
  // ---------------------------------------------------------------------

  /** How printOperand shows operand i. */
  function OperandTok(mi: MCInst, i: nat): (t: Token)
    requires RegsVirtual(mi) && i < |mi.ops|
    ensures t != Space
  {
    match mi.ops[i]
    case Reg(r) => RegTok(VirtIndex(r) + 1)
    case Imm(v) => ImmTok(v)
    case DFPImm => FPTok
    case Expr => ExprTok
  }

  /** `printOperand`: one token for an operand that exists, nothing past the end. */
  function OperandToks(mi: MCInst, i: nat): seq<Token>
    requires RegsVirtual(mi)
  {
    if i < |mi.ops| then [OperandTok(mi, i)] else []
  }

  /**
   * The generated enumerant printers: the name of an immediate operand. They
   * read the operand with getImm(), which asserts that it is an immediate; a
   * register or a missing operand prints nothing here.
   */
  function EnumToks(mi: MCInst, i: nat, kind: EnumKind): seq<Token> {
    if i < |mi.ops| && mi.ops[i].Imm? then [EnumTok(kind, mi.ops[i].imm)] else []
  }

  /** The operand a plain operand token stands for; separators and names stand for none. */
  function UnprintOne(t: Token): seq<MCOperand> {
    match t
    case RegTok(n) => if n == 0 then [] else [Reg(VirtRegBase + n - 1)]
    case ImmTok(v) => [Imm(v)]
    case FPTok => [DFPImm]
    case ExprTok => [Expr]
    case _ => []
  }

  /** Reading a plain operand list back from its tokens. */
  function Unprint(ts: seq<Token>): seq<MCOperand> {
    if ts == [] then [] else UnprintOne(ts[0]) + Unprint(ts[1..])
  }

  lemma {:induction false} UnprintAppend(a: seq<Token>, b: seq<Token>)
    ensures Unprint(a + b) == Unprint(a) + Unprint(b)
    decreases |a|
  {
    if a != [] {
      assert (a + b)[1..] == a[1..] + b;
      UnprintAppend(a[1..], b);
    } else {
      assert a + b == b;
    }
  }

  /** A separator reads back as no operand. */
  lemma UnprintSpace(ts: seq<Token>)
    ensures Unprint([Space] + ts) == Unprint(ts)
  {
    UnprintAppend([Space], ts);
    assert Unprint([Space]) == Unprint([]) + UnprintOne(Space);
  }

  /** Each operand is read back from what printOperand shows for it. */
  lemma OperandRoundTrip(mi: MCInst, i: nat)
    requires RegsVirtual(mi) && i < |mi.ops|
    ensures Unprint(OperandToks(mi, i)) == [mi.ops[i]]
    ensures Unprint([Space] + OperandToks(mi, i)) == [mi.ops[i]]
  {
    var t := OperandTok(mi, i);
    assert Unprint([t]) == Unprint([]) + UnprintOne(t);
    assert ([Space] + [t])[..1] == [Space];
    assert Unprint([Space]) == Unprint([]) + UnprintOne(Space);
  }

  // ---------------------------------------------------------------------
  // printRemainingVariableOps
  // ---------------------------------------------------------------------

  /** What the loop prints for operand i: a space first when `spaced`, nothing for a skipped immediate. */
  function VarOp(mi: MCInst, i: nat, spaced: bool, skipImmediates: bool): seq<Token>
    requires RegsVirtual(mi) && i < |mi.ops|
  {
    if skipImmediates && mi.ops[i].Imm? then []
    else (if spaced then [Space] else []) + OperandToks(mi, i)
  }

  /**
   * What printRemainingVariableOps prints for operands start .. end-1: only
   * operand start itself may go without its leading space.
   */
  function VarOps(mi: MCInst, start: nat, end: nat, skipFirstSpace: bool, skipImmediates: bool): seq<Token>
    requires RegsVirtual(mi) && end <= |mi.ops|
    decreases end - start
  {
    if end <= start then []
    else VarOp(mi, start, !skipFirstSpace, skipImmediates) + VarOps(mi, start + 1, end, false, skipImmediates)
  }

  /** What one operand contributes to a plain list when immediates may be skipped. */
  function ShownOne(x: MCOperand, skipImmediates: bool): seq<MCOperand> {
    if skipImmediates && x.Imm? then [] else [x]
  }

  /** The operands other than immediates, in order. */
  function NonImm(xs: seq<MCOperand>): seq<MCOperand> {
    if xs == [] then [] else ShownOne(xs[0], true) + NonImm(xs[1..])
  }

  /** The operands a plain list shows: all of them, or those that are not immediates. */
  function Shown(xs: seq<MCOperand>, skipImmediates: bool): seq<MCOperand> {
    if skipImmediates then NonImm(xs) else xs
  }

  lemma ShownCons(x: MCOperand, xs: seq<MCOperand>, skipImmediates: bool)
    ensures Shown([x] + xs, skipImmediates) == ShownOne(x, skipImmediates) + Shown(xs, skipImmediates)
  {
    assert ([x] + xs)[1..] == xs;
    if !skipImmediates {
      assert ShownOne(x, false) == [x];
    }
  }

  lemma VarOpOperand(mi: MCInst, i: nat, spaced: bool, skipImmediates: bool)
    requires RegsVirtual(mi) && i < |mi.ops|
    ensures Unprint(VarOp(mi, i, spaced, skipImmediates)) == ShownOne(mi.ops[i], skipImmediates)
  {
    OperandRoundTrip(mi, i);
  }

  /**
   * The operands printed are exactly operands start .. end-1, in order, or
   * exactly those of them that are not immediates when immediates are skipped.
   */
  lemma {:induction false} VarOpsOperands(mi: MCInst, start: nat, end: nat, skipFirstSpace: bool, skipImmediates: bool)
    requires RegsVirtual(mi) && start <= end <= |mi.ops|
    ensures Unprint(VarOps(mi, start, end, skipFirstSpace, skipImmediates))
      == Shown(mi.ops[start..end], skipImmediates)
    decreases end - start
  {
    if end > start {
      var next := start + 1;
      VarOpsOperands(mi, next, end, false, skipImmediates);
      VarOpsUnprintCons(mi, start, end, skipFirstSpace, skipImmediates);
      SliceCons(mi.ops, start, end);
      ShownCons(mi.ops[start], mi.ops[next..end], skipImmediates);
    } else {
      assert mi.ops[start..end] == [];
    }
  }

  lemma VarOpsUnprintCons(mi: MCInst, start: nat, end: nat, skipFirstSpace: bool, skipImmediates: bool)
    requires RegsVirtual(mi) && start < end <= |mi.ops|
    ensures Unprint(VarOps(mi, start, end, skipFirstSpace, skipImmediates))
      == ShownOne(mi.ops[start], skipImmediates) + Unprint(VarOps(mi, start + 1, end, false, skipImmediates))
  {
    var head := VarOp(mi, start, !skipFirstSpace, skipImmediates);
    var rest := VarOps(mi, start + 1, end, false, skipImmediates);
    UnprintAppend(head, rest);
    VarOpOperand(mi, start, !skipFirstSpace, skipImmediates);
  }

  lemma SliceCons<X>(xs: seq<X>, s: nat, e: nat)
    requires s < e <= |xs|
    ensures xs[s..e] == [xs[s]] + xs[s + 1..e]
  {
  }

  lemma AppendAssoc<X>(a: seq<X>, b: seq<X>, c: seq<X>)
    ensures (a + b) + c == a + (b + c)
  {
  }

  lemma SliceSnoc<X>(xs: seq<X>, s: nat, e: nat)
    requires s <= e < |xs|
    ensures xs[s..e + 1] == xs[s..e] + [xs[e]]
  {
  }

  /** A token list of the form " x y z": each item preceded by exactly one space. */
  predicate Spaced(ts: seq<Token>) {
    if ts == [] then true
    else |ts| >= 2 && ts[0] == Space && ts[1] != Space && Spaced(ts[2..])
  }

  lemma SpacedCons(t: Token, ts: seq<Token>)
    requires Spaced(ts) && t != Space
    ensures Spaced([Space, t] + ts)
  {
    assert ([Space, t] + ts)[2..] == ts;
  }

  /** Without SkipFirstSpace every printed operand is preceded by one space. */
  lemma {:induction false} VarOpsSpaced(mi: MCInst, start: nat, end: nat, skipImmediates: bool)
    requires RegsVirtual(mi) && end <= |mi.ops|
    ensures Spaced(VarOps(mi, start, end, false, skipImmediates))
    decreases end - start
  {
    if end > start {
      var rest := VarOps(mi, start + 1, end, false, skipImmediates);
      VarOpsSpaced(mi, start + 1, end, skipImmediates);
      if skipImmediates && mi.ops[start].Imm? {
        assert VarOps(mi, start, end, false, skipImmediates) == rest by {
          assert VarOp(mi, start, true, skipImmediates) == [];
          assert [] + rest == rest;
        }
      } else {
        var t := OperandTok(mi, start);
        assert VarOp(mi, start, true, skipImmediates) == [Space, t] by {
          assert OperandToks(mi, start) == [t];
        }
        SpacedCons(t, rest);
      }
    }
  }

  /**
   * SkipFirstSpace drops exactly one token: the space before operand start,
   * when that operand is printed at all.
   */
  lemma VarOpsSkipFirstSpace(mi: MCInst, start: nat, end: nat, skipImmediates: bool)
    requires RegsVirtual(mi) && end <= |mi.ops|
    ensures start < end && !(skipImmediates && mi.ops[start].Imm?) ==>
      VarOps(mi, start, end, false, skipImmediates) == [Space] + VarOps(mi, start, end, true, skipImmediates)
    ensures !(start < end && !(skipImmediates && mi.ops[start].Imm?)) ==>
      VarOps(mi, start, end, false, skipImmediates) == VarOps(mi, start, end, true, skipImmediates)
  {
    if start < end {
      var rest := VarOps(mi, start + 1, end, false, skipImmediates);
      AppendAssoc([Space], VarOp(mi, start, false, skipImmediates), rest);
    }
  }

  // ---------------------------------------------------------------------
  // printOpConstantVarOps
  // ---------------------------------------------------------------------

  /**
   * `Imm | (Hi << 32)` on 64-bit operands: both immediates are int64, the
   * shift wraps at 64 bits and the result is read as uint64.
   */
  function Combine64(lo: int, hi: int): nat {
    BitOr(lo % U64Base, (hi * WordBase) % U64Base)
  }

  predicate ConstReady(mi: MCInst, start: nat) {
    |mi.ops| == start + 2 ==> mi.ops[start].Imm? && mi.ops[start + 1].Imm?
  }

  /** What printOpConstantVarOps prints. */
  function ConstantVarOps(mi: MCInst, start: nat): seq<Token>
    requires RegsVirtual(mi) && ConstReady(mi, start)
  {
    [Space] + (
      if |mi.ops| == start + 2 then [U64Tok(Combine64(mi.ops[start].imm, mi.ops[start + 1].imm))]
      else VarOps(mi, start, |mi.ops|, true, false))
  }

  /** Immediate MC operands holding the given words. */
  function McWords(ws: seq<int>): (r: seq<MCOperand>)
    ensures |r| == |ws|
  {
    seq(|ws|, k requires 0 <= k < |ws| => Imm(ws[k]))
  }

  /**
   * A 64-bit constant emitted as its low and high word prints as the original
   * value: the printer undoes the split of addNumImm.
   */
  lemma ConstantRoundTrip(mi: MCInst, start: nat, value: nat)
    requires RegsVirtual(mi) && value < U64Base
    requires start <= |mi.ops| && mi.ops[start..] == McWords(SplitWords(value))
    ensures ConstReady(mi, start)
    ensures ConstantVarOps(mi, start) == [Space, U64Tok(value)]
  {
    var ws := SplitWords(value);
    assert mi.ops[start] == Imm(ws[0]) && mi.ops[start + 1] == Imm(ws[1]);
    var lo, hi := ws[0], ws[1] * WordBase;
    assert lo % U64Base == lo by {
      DivModUnique(lo, U64Base, 0, lo);
    }
    assert hi % U64Base == hi by {
      MulAtMost(WordBase, ws[1], WordBase - 1);
      DivModUnique(hi, U64Base, 0, hi);
    }
    assert hi == ws[1] * Pow2(32) by {
      Pow2Bytes();
    }
    assert Combine64(ws[0], ws[1]) == value;
  }

  // ---------------------------------------------------------------------
  // Memory operands of OpCopyMemory and OpCopyMemorySized
  // ---------------------------------------------------------------------

  /** `Mask & MemoryOperand::Aligned` on the mask's two's-complement bits. */
  predicate HasAligned(mask: int) {
    (mask / MemoryOperandAligned) % 2 == 1
  }

  /**
   * From i on, the operands are memory-operand masks, each immediately
   * followed by its alignment when it has the Aligned bit.
   */
  predicate MemGroupsOK(ops: seq<MCOperand>, i: nat)
    decreases |ops| - i
  {
    i >= |ops| ||
    (ops[i].Imm? &&
     if HasAligned(ops[i].imm) then i + 1 < |ops| && MemGroupsOK(ops, i + 2)
     else MemGroupsOK(ops, i + 1))
  }

  /** Where the next mask is: past the alignment when the mask at i has the Aligned bit. */
  function NextMemGroup(mi: MCInst, i: nat): nat
    requires i < |mi.ops| && mi.ops[i].Imm?
  {
    if HasAligned(mi.ops[i].imm) then i + 2 else i + 1
  }

  /** What one iteration of the OpCopyMemory loop prints: the mask, then its alignment if any. */
  function MemGroupToks(mi: MCInst, i: nat): seq<Token>
    requires RegsVirtual(mi) && i < |mi.ops| && mi.ops[i].Imm?
  {
    [Space] + EnumToks(mi, i, MemoryOperandKind) +
    if HasAligned(mi.ops[i].imm) then [Space] + OperandToks(mi, i + 1) else []
  }

  /** What the OpCopyMemory loop prints from operand i on. */
  function CopyMemoryToks(mi: MCInst, i: nat): seq<Token>
    requires RegsVirtual(mi) && MemGroupsOK(mi.ops, i)
    decreases |mi.ops| - i
  {
    if i >= |mi.ops| then []
    else MemGroupToks(mi, i) + CopyMemoryToks(mi, NextMemGroup(mi, i))
  }

  /** One memory access: a mask and, exactly when the mask says Aligned, an alignment. */
  datatype MemAccess = MemAccess(mask: int, alignment: Option<int>)

  predicate Consistent(g: MemAccess) {
    HasAligned(g.mask) <==> g.alignment.Some?
  }

  /** The operands that encode memory accesses. */
  function EncodeAccesses(gs: seq<MemAccess>): seq<MCOperand> {
    if gs == [] then []
    else
      [Imm(gs[0].mask)] + (if gs[0].alignment.Some? then [Imm(gs[0].alignment.value)] else [])
      + EncodeAccesses(gs[1..])
  }

  /** How the accesses read when printed: mask name, then alignment when present. */
  function AccessToks(gs: seq<MemAccess>): seq<Token> {
    if gs == [] then []
    else
      [Space, EnumTok(MemoryOperandKind, gs[0].mask)]
      + (if gs[0].alignment.Some? then [Space, ImmTok(gs[0].alignment.value)] else [])
      + AccessToks(gs[1..])
  }

  /**
   * Encoding accesses and printing them agree group by group: the Aligned bit
   * consumes exactly the alignment that follows its mask.
   */
  lemma {:induction false} CopyMemoryRoundTrip(mi: MCInst, i: nat, gs: seq<MemAccess>)
    requires RegsVirtual(mi) && i <= |mi.ops|
    requires mi.ops[i..] == EncodeAccesses(gs)
    requires forall k :: 0 <= k < |gs| ==> Consistent(gs[k])
    ensures MemGroupsOK(mi.ops, i)
    ensures CopyMemoryToks(mi, i) == AccessToks(gs)
    decreases gs
  {
    if gs != [] {
      var g := gs[0];
      assert Consistent(g);
      assert mi.ops[i] == Imm(g.mask);
      var next := NextMemGroup(mi, i);
      var head := [Space, EnumTok(MemoryOperandKind, g.mask)]
        + (if g.alignment.Some? then [Space, ImmTok(g.alignment.value)] else []);
      if g.alignment.Some? {
        assert mi.ops[i + 1] == Imm(g.alignment.value);
        assert mi.ops[i + 2..] == EncodeAccesses(gs[1..]);
        assert MemGroupToks(mi, i) == head;
      } else {
        assert mi.ops[i + 1..] == EncodeAccesses(gs[1..]);
        assert MemGroupToks(mi, i) == head;
      }
      CopyMemoryRoundTrip(mi, next, gs[1..]);
      assert AccessToks(gs) == head + AccessToks(gs[1..]);
    }
  }

  // ---------------------------------------------------------------------
  // Quoted strings
  // ---------------------------------------------------------------------

  /** The run of immediates starting at operand i, as the string reader sees it. */
  function ImmRun(ops: seq<MCOperand>, i: nat): seq<int>
    decreases |ops| - i
  {
    if i < |ops| && ops[i].Imm? then [ops[i].imm] + ImmRun(ops, i + 1) else []
  }

  /** The string literal held by the operands from i on. */
  function StringOperand(mi: MCInst, i: nat): seq<Byte> {
    ReadString(ImmRun(mi.ops, i))
  }

  lemma {:induction false} ImmRunWords(ops: seq<MCOperand>, i: nat, ws: seq<int>)
    requires i + |ws| <= |ops| && ops[i..i + |ws|] == McWords(ws)
    ensures ImmRun(ops, i) == ws + ImmRun(ops, i + |ws|)
    decreases |ws|
  {
    if ws != [] {
      assert ops[i] == Imm(ws[0]);
      assert ops[i + 1..i + |ws|] == McWords(ws[1..]);
      ImmRunWords(ops, i + 1, ws[1..]);
    }
  }

  /** A string stored as its words is read back by the string reader. */
  lemma StringOperandOf(mi: MCInst, i: nat, s: seq<Byte>)
    requires NulFree(s)
    requires i + |StringWords(s)| <= |mi.ops|
    requires mi.ops[i..i + |StringWords(s)|] == McWords(StringWords(s))
    ensures StringOperand(mi, i) == s
  {
    ImmRunWords(mi.ops, i, StringWords(s));
    StringRoundTrip(s, ImmRun(mi.ops, i + |StringWords(s)|));
  }

  /** A backslash goes before every double quote; nothing else changes. */
  function Escape(s: seq<Byte>): seq<Byte> {
    if s == [] then []
    else EscapeByte(s[0]) + Escape(s[1..])
  }

  function EscapeByte(c: Byte): seq<Byte> {
    if c == Quote then [Backslash, Quote] else [c]
  }

  lemma {:induction false} EscapeSnoc(s: seq<Byte>, c: Byte)
    ensures Escape(s + [c]) == Escape(s) + EscapeByte(c)
  {
    if s != [] {
      assert (s + [c])[1..] == s[1..] + [c];
      EscapeSnoc(s[1..], c);
    } else {
      assert [c][1..] == [];
    }
  }

  /** The reader's side: a backslash-quote pair stands for one quote. */
  function Unescape(e: seq<Byte>): seq<Byte> {
    if e == [] then []
    else if |e| >= 2 && e[0] == Backslash && e[1] == Quote then [Quote] + Unescape(e[2..])
    else [e[0]] + Unescape(e[1..])
  }

  lemma {:induction false} EscapeHead(s: seq<Byte>)
    ensures Escape(s) == [] || Escape(s)[0] != Quote
  {
  }

  /** Escaping loses nothing: the escaped text determines the string. */
  lemma {:induction false} UnescapeEscape(s: seq<Byte>)
    ensures Unescape(Escape(s)) == s
  {
    if s != [] {
      var rest := Escape(s[1..]);
      UnescapeEscape(s[1..]);
      if s[0] == Quote {
        assert ([Backslash, Quote] + rest)[2..] == rest;
      } else {
        EscapeHead(s[1..]);
        assert ([s[0]] + rest)[1..] == rest;
      }
    }
  }

  /** The characters of bs, one token each. */
  function Chrs(bs: seq<Byte>): seq<Token> {
    if bs == [] then [] else [Chr(bs[0])] + Chrs(bs[1..])
  }

  lemma {:induction false} ChrsAppend(a: seq<Byte>, b: seq<Byte>)
    ensures Chrs(a + b) == Chrs(a) + Chrs(b)
    decreases |a|
  {
    if a == [] {
      assert a + b == b;
    } else {
      assert (a + b)[1..] == a[1..] + b;
      ChrsAppend(a[1..], b);
    }
  }

  lemma EscapedPrefixStep(str: seq<Byte>, k: nat)
    requires k < |str|
    ensures Chrs(Escape(str[..k + 1])) == Chrs(Escape(str[..k])) + Chrs(EscapeByte(str[k]))
  {
    assert str[..k + 1] == str[..k] + [str[k]];
    EscapeSnoc(str[..k], str[k]);
    ChrsAppend(Escape(str[..k]), EscapeByte(str[k]));
  }

  /** A string in double quotes, escaped. */
  function Quoted(s: seq<Byte>): seq<Token> {
    [Chr(Quote)] + Chrs(Escape(s)) + [Chr(Quote)]
  }

  /** Operand 1 of an OpDecorate is the decoration the string check reads. */
  predicate StringImmReady(mi: MCInst) {
    mi.opcode == OpDecorate ==> |mi.ops| >= 2 && mi.ops[1].Imm?
  }

  predicate IsLinkageDecorate(mi: MCInst)
    requires StringImmReady(mi)
  {
    mi.opcode == OpDecorate && mi.ops[1].imm == LinkageAttributes
  }

  /** The operands the printer steps over for a string: `Str.size() / 4 + 1`. */
  function WordsSpanned(str: seq<Byte>): nat {
    |str| / 4 + 1
  }

  /**
   * printStringImm as written, from cursor idx on, str being the string it
   * decodes: every iteration decodes at opNo, so every string printed is the
   * same one, and the cursor advances by that string's word count.
   */
  function StringImmLoop(mi: MCInst, str: seq<Byte>, opNo: nat, idx: nat): seq<Token>
    requires StringImmReady(mi)
    decreases |mi.ops| - idx
  {
    if idx >= |mi.ops| || mi.ops[idx].Reg? then []
    else
      var next := idx + WordsSpanned(str);
      (Sep(idx == opNo) + Quoted(str)) +
      if IsLinkageDecorate(mi) then [Space] + EnumToks(mi, next, LinkageTypeKind)
      else StringImmLoop(mi, str, opNo, next)
  }

  /** What printStringImm as written prints for the operands from opNo on. */
  function StringImmAsWritten(mi: MCInst, opNo: nat): seq<Token>
    requires StringImmReady(mi)
  {
    StringImmLoop(mi, StringOperand(mi, opNo), opNo, opNo)
  }

  /**
   * As written, two strings of equal word count in a row print as the first
   * one twice: the loop decodes at opNo on every iteration.
   */
  lemma StringImmRepeatsFirst(mi: MCInst, opNo: nat, s1: seq<Byte>, s2: seq<Byte>)
    requires StringImmReady(mi) && !IsLinkageDecorate(mi)
    requires NulFree(s1) && |StringWords(s2)| == |StringWords(s1)|
    requires opNo <= |mi.ops| && mi.ops[opNo..] == McWords(StringWords(s1)) + McWords(StringWords(s2))
    ensures StringImmAsWritten(mi, opNo) == Quoted(s1) + [Space] + Quoted(s1)
  {
    var w1, w2 := McWords(StringWords(s1)), McWords(StringWords(s2));
    var second := opNo + |w1|;
    SuffixSplit(mi.ops, opNo, w1, w2);
    StringsHeadFacts(mi, opNo, s1);
    StringWordCount(s1);
    assert mi.ops[second] == w2[0];
    var tail := StringImmLoop(mi, s1, opNo, second + |w2|);
    assert tail == [];
    StringImmLoopStep(mi, s1, opNo, second);
    StringImmLoopStep(mi, s1, opNo, opNo);
    assert Sep(true) + Quoted(s1) == Quoted(s1) && (Sep(false) + Quoted(s1)) + tail == [Space] + Quoted(s1);
  }

  /** One iteration of printStringImm as written. */
  lemma StringImmLoopStep(mi: MCInst, str: seq<Byte>, opNo: nat, idx: nat)
    requires StringImmReady(mi) && idx < |mi.ops| && !mi.ops[idx].Reg?
    ensures StringImmLoop(mi, str, opNo, idx) ==
      if IsLinkageDecorate(mi) then
        (Sep(idx == opNo) + Quoted(str)) + ([Space] + EnumToks(mi, idx + WordsSpanned(str), LinkageTypeKind))
      else (Sep(idx == opNo) + Quoted(str)) + StringImmLoop(mi, str, opNo, idx + WordsSpanned(str))
  {
  }

  /** One iteration of the loop, outside a LinkageAttributes decoration, prints one more string. */
  lemma StringLoopAdvance(total: seq<Token>, before: seq<Token>, mi: MCInst, str: seq<Byte>, opNo: nat, idx: nat)
    requires StringImmReady(mi) && idx < |mi.ops| && !mi.ops[idx].Reg? && !IsLinkageDecorate(mi)
    requires total == before + StringImmLoop(mi, str, opNo, idx)
    ensures total == (before + (Sep(idx == opNo) + Quoted(str))) + StringImmLoop(mi, str, opNo, idx + WordsSpanned(str))
  {
    StringImmLoopStep(mi, str, opNo, idx);
    AppendAssoc(before, Sep(idx == opNo) + Quoted(str), StringImmLoop(mi, str, opNo, idx + WordsSpanned(str)));
  }

  /**
   * For a LinkageAttributes decoration the loop stops after one string, so
   * the code as written prints what the corrected loop prints.
   */
  lemma StringImmLinkageAgrees(mi: MCInst, opNo: nat)
    requires StringImmReady(mi) && IsLinkageDecorate(mi)
    ensures StringImmAsWritten(mi, opNo) == StringsFrom(mi, opNo, opNo)
  {
    if opNo < |mi.ops| && !mi.ops[opNo].Reg? {
      StringImmLoopStep(mi, StringOperand(mi, opNo), opNo, opNo);
      StringsStep(mi, opNo, opNo);
    }
  }

  /** The separator before an item: none before the first, one space otherwise. */
  function Sep(first: bool): seq<Token> {
    if first then [] else [Space]
  }

  /** Where the corrected loop's cursor goes after the string at idx. */
  function NextString(mi: MCInst, idx: nat): nat {
    idx + WordsSpanned(StringOperand(mi, idx))
  }

  /** What the corrected loop prints for the string at idx. */
  function StringHead(mi: MCInst, opNo: nat, idx: nat): seq<Token> {
    Sep(idx == opNo) + Quoted(StringOperand(mi, idx))
  }

  /**
   * printStringImm with each string decoded at the cursor: what it prints
   * from cursor idx on.
   */
  function StringsFrom(mi: MCInst, opNo: nat, idx: nat): seq<Token>
    requires StringImmReady(mi)
    decreases |mi.ops| - idx
  {
    if idx >= |mi.ops| || mi.ops[idx].Reg? then []
    else
      StringHead(mi, opNo, idx) +
      if IsLinkageDecorate(mi) then [Space] + EnumToks(mi, NextString(mi, idx), LinkageTypeKind)
      else StringsFrom(mi, opNo, NextString(mi, idx))
  }

  /** The words of several strings, one after the other. */
  function EncodeStrings(ss: seq<seq<Byte>>): seq<int> {
    if ss == [] then [] else StringWords(ss[0]) + EncodeStrings(ss[1..])
  }

  /** Strings printed in quotes, separated by one space. */
  function QuotedList(ss: seq<seq<Byte>>, first: bool): seq<Token> {
    if ss == [] then []
    else (Sep(first) + Quoted(ss[0])) + QuotedList(ss[1..], false)
  }

  lemma McWordsAppend(a: seq<int>, b: seq<int>)
    ensures McWords(a + b) == McWords(a) + McWords(b)
  {
  }

  predicate AllNulFree(ss: seq<seq<Byte>>) {
    forall k :: 0 <= k < |ss| ==> NulFree(ss[k])
  }

  /** The words of ss sit from operand idx on, followed by a register or the end. */
  predicate StringsStored(mi: MCInst, idx: nat, ss: seq<seq<Byte>>) {
    var end := idx + |EncodeStrings(ss)|;
    end <= |mi.ops| && mi.ops[idx..end] == McWords(EncodeStrings(ss)) &&
    (end < |mi.ops| ==> mi.ops[end].Reg?)
  }

  /**
   * Strings stored one after another, up to a register or the end, print in
   * order, each in quotes: the corrected loop reads every string back.
   */
  lemma {:induction false} StringsRoundTrip(mi: MCInst, opNo: nat, idx: nat, ss: seq<seq<Byte>>, first: bool)
    requires StringImmReady(mi) && !IsLinkageDecorate(mi)
    requires AllNulFree(ss) && StringsStored(mi, idx, ss)
    requires opNo <= idx && (first <==> idx == opNo)
    ensures StringsFrom(mi, opNo, idx) == QuotedList(ss, first)
    decreases |ss|
  {
    if ss != [] {
      var next := StringsStoredTail(mi, idx, ss);
      var tail := QuotedList(ss[1..], false);
      StringsRoundTrip(mi, opNo, next, ss[1..], false);
      StringsStepAt(mi, opNo, idx, next, tail);
      assert Sep(first) == Sep(idx == opNo);
    } else {
      StringsStoredEmpty(mi, opNo, idx);
    }
  }

  lemma StringsStoredEmpty(mi: MCInst, opNo: nat, idx: nat)
    requires StringImmReady(mi) && StringsStored(mi, idx, [])
    ensures StringsFrom(mi, opNo, idx) == []
  {
    assert EncodeStrings([]) == [];
  }

  /** The first of the stored strings is read at idx; the others are stored right after it. */
  lemma StringsStoredTail(mi: MCInst, idx: nat, ss: seq<seq<Byte>>) returns (next: nat)
    requires ss != [] && AllNulFree(ss) && StringsStored(mi, idx, ss)
    ensures idx < |mi.ops| && StringOperand(mi, idx) == ss[0] && !mi.ops[idx].Reg?
    ensures next == NextString(mi, idx)
    ensures AllNulFree(ss[1..]) && StringsStored(mi, next, ss[1..])
  {
    var s0 := ss[0];
    var w := StringWords(s0);
    var rest := EncodeStrings(ss[1..]);
    assert EncodeStrings(ss) == w + rest;
    next := idx + |w|;
    assert idx + |EncodeStrings(ss)| == next + |rest|;
    WordsSlices(mi.ops, idx, w, rest);
    AllNulFreeTail(ss);
    StringsHeadFacts(mi, idx, s0);
  }

  lemma AllNulFreeTail(ss: seq<seq<Byte>>)
    requires ss != [] && AllNulFree(ss)
    ensures NulFree(ss[0]) && AllNulFree(ss[1..])
  {
    forall k | 0 <= k < |ss[1..]|
      ensures NulFree(ss[1..][k])
    {
      assert ss[1..][k] == ss[k + 1];
    }
  }

  /** A string stored at idx is read there, and the cursor steps over exactly its words. */
  lemma StringsHeadFacts(mi: MCInst, idx: nat, s: seq<Byte>)
    requires NulFree(s) && idx + |StringWords(s)| <= |mi.ops|
    requires mi.ops[idx..idx + |StringWords(s)|] == McWords(StringWords(s))
    ensures idx < |mi.ops| && StringOperand(mi, idx) == s && !mi.ops[idx].Reg?
    ensures NextString(mi, idx) == idx + |StringWords(s)|
  {
    var n := |StringWords(s)|;
    assert n > 0 by {
      StringWordCount(s);
    }
    assert mi.ops[idx].Imm? by {
      assert mi.ops[idx] == mi.ops[idx..idx + n][0];
      assert McWords(StringWords(s))[0].Imm?;
    }
    assert StringOperand(mi, idx) == s by {
      StringOperandOf(mi, idx, s);
    }
    assert NextString(mi, idx) == idx + n by {
      StringWordCount(s);
    }
  }

  /** The corrected loop's step, with the cursor's next position named. */
  lemma StringsStepAt(mi: MCInst, opNo: nat, idx: nat, next: nat, rest: seq<Token>)
    requires StringImmReady(mi) && !IsLinkageDecorate(mi)
    requires idx < |mi.ops| && !mi.ops[idx].Reg? && NextString(mi, idx) == next
    requires StringsFrom(mi, opNo, next) == rest
    ensures StringsFrom(mi, opNo, idx) == StringHead(mi, opNo, idx) + rest
  {
    StringsStep(mi, opNo, idx);
  }

  /** Operands holding the words w + rest hold w, then rest. */
  lemma WordsSlices(ops: seq<MCOperand>, idx: nat, w: seq<int>, rest: seq<int>)
    requires idx + |w + rest| <= |ops| && ops[idx..idx + |w + rest|] == McWords(w + rest)
    ensures ops[idx..idx + |w|] == McWords(w)
    ensures ops[idx + |w|..idx + |w| + |rest|] == McWords(rest)
  {
    McWordsAppend(w, rest);
    SliceSplit(ops, idx, McWords(w), McWords(rest));
  }

  lemma SliceSplit<X>(xs: seq<X>, i: nat, a: seq<X>, b: seq<X>)
    requires i + |a| + |b| <= |xs| && xs[i..i + |a| + |b|] == a + b
    ensures xs[i..i + |a|] == a && xs[i + |a|..i + |a| + |b|] == b
  {
    assert xs[i..i + |a|] == (a + b)[..|a|];
    assert xs[i + |a|..i + |a| + |b|] == (a + b)[|a|..];
  }

  /** One step of the corrected loop: the string at the cursor, then the rest. */
  lemma StringsStep(mi: MCInst, opNo: nat, idx: nat)
    requires StringImmReady(mi) && idx < |mi.ops| && !mi.ops[idx].Reg?
    ensures StringsFrom(mi, opNo, idx) ==
      if IsLinkageDecorate(mi) then StringHead(mi, opNo, idx) + ([Space] + EnumToks(mi, NextString(mi, idx), LinkageTypeKind))
      else StringHead(mi, opNo, idx) + StringsFrom(mi, opNo, NextString(mi, idx))
  {
  }

  /**
   * `OpDecorate %x LinkageAttributes "name" type`: the name, quoted, then
   * exactly one linkage type, and the printer stops there.
   */
  lemma StringsLinkage(mi: MCInst, opNo: nat, s: seq<Byte>, linkage: int)
    requires mi.opcode == OpDecorate && |mi.ops| >= 2 && mi.ops[1] == Imm(LinkageAttributes)
    requires NulFree(s)
    requires opNo <= |mi.ops| && mi.ops[opNo..] == McWords(StringWords(s)) + [Imm(linkage)]
    ensures StringImmReady(mi)
    ensures StringsFrom(mi, opNo, opNo) == Quoted(s) + [Space, EnumTok(LinkageTypeKind, linkage)]
  {
    var words := McWords(StringWords(s));
    var next := opNo + |words|;
    SuffixSplit(mi.ops, opNo, words, [Imm(linkage)]);
    StringsHeadFacts(mi, opNo, s);
    StringsStep(mi, opNo, opNo);
    assert StringHead(mi, opNo, opNo) == Quoted(s);
    assert EnumToks(mi, next, LinkageTypeKind) == [EnumTok(LinkageTypeKind, linkage)];
  }

  /** Operands from i on holding a + b hold a from i on, then b up to the end. */
  lemma SuffixSplit<X>(xs: seq<X>, i: nat, a: seq<X>, b: seq<X>)
    requires i <= |xs| && xs[i..] == a + b
    ensures i + |a| + |b| == |xs|
    ensures xs[i..i + |a|] == a && xs[i + |a|..] == b
  {
    assert xs[i..i + |a|] == (a + b)[..|a|];
    assert xs[i + |a|..] == (a + b)[|a|..];
  }

  // ---------------------------------------------------------------------
  // printOpDecorate
  // ---------------------------------------------------------------------

  predicate DecorateReady(mi: MCInst, numFixed: nat) {
    numFixed <= |mi.ops| &&
    (numFixed != |mi.ops| ==>
      numFixed >= 1 && mi.ops[numFixed - 1].Imm? &&
      (mi.ops[numFixed - 1].imm == LinkageAttributes ==> StringImmReady(mi)))
  }

  /** The enumeration of the single operand that some decorations take. */
  function DecorationArgKind(dec: int): Option<EnumKind> {
    if dec == BuiltIn then Some(BuiltInKind)
    else if dec == UniformId then Some(ScopeKind)
    else if dec == FuncParamAttr then Some(FunctionParameterAttributeKind)
    else if dec == FPRoundingMode then Some(FPRoundingModeKind)
    else if dec == FPFastMathMode then Some(FPFastMathModeKind)
    else None
  }

  /** What printOpDecorate prints after the space that follows the fixed operands. */
  function DecorateArgToks(mi: MCInst, numFixed: nat): seq<Token>
    requires RegsVirtual(mi) && DecorateReady(mi, numFixed) && numFixed < |mi.ops|
  {
    var dec := mi.ops[numFixed - 1].imm;
    match DecorationArgKind(dec)
    case Some(kind) => EnumToks(mi, numFixed, kind)
    case None =>
      if dec == LinkageAttributes then StringImmAsWritten(mi, numFixed)
      else VarOps(mi, numFixed, |mi.ops|, true, false)
  }

  /** What printOpDecorate prints after the fixed operands. */
  function DecorateToks(mi: MCInst, numFixed: nat): seq<Token>
    requires RegsVirtual(mi) && DecorateReady(mi, numFixed)
  {
    if numFixed == |mi.ops| then [] else [Space] + DecorateArgToks(mi, numFixed)
  }

  /**
   * Decorations with one enumerated argument print exactly that argument's
   * name; any operand after it is dropped.
   */
  lemma DecorateEnumArg(mi: MCInst, kind: EnumKind, arg: int)
    requires RegsVirtual(mi) && |mi.ops| > 2 && mi.ops[2] == Imm(arg)
    requires mi.ops[1].Imm? && DecorationArgKind(mi.ops[1].imm) == Some(kind)
    ensures DecorateReady(mi, 2)
    ensures DecorateToks(mi, 2) == [Space, EnumTok(kind, arg)]
  {
  }

  /** A LinkageAttributes decoration prints its name and its linkage type. */
  lemma DecorateLinkage(mi: MCInst, s: seq<Byte>, linkage: int)
    requires RegsVirtual(mi) && mi.opcode == OpDecorate && NulFree(s)
    requires |mi.ops| >= 2 && mi.ops[1] == Imm(LinkageAttributes)
    requires mi.ops[2..] == McWords(StringWords(s)) + [Imm(linkage)]
    ensures DecorateReady(mi, 2)
    ensures DecorateToks(mi, 2) == [Space] + Quoted(s) + [Space, EnumTok(LinkageTypeKind, linkage)]
  {
    StringsLinkage(mi, 2, s, linkage);
    assert DecorationArgKind(LinkageAttributes) == None;
    assert |mi.ops| > 2 by {
      assert |mi.ops[2..]| > 0;
    }
    assert DecorateArgToks(mi, 2) == StringImmAsWritten(mi, 2);
    StringImmLinkageAgrees(mi, 2);
    AppendAssoc([Space], Quoted(s), [Space, EnumTok(LinkageTypeKind, linkage)]);
  }

  /** Any other decoration prints its literal arguments as a plain list. */
  lemma DecorateOther(mi: MCInst)
    requires RegsVirtual(mi) && |mi.ops| > 2 && mi.ops[1].Imm?
    requires DecorationArgKind(mi.ops[1].imm) == None && mi.ops[1].imm != LinkageAttributes
    ensures DecorateReady(mi, 2)
    ensures Unprint(DecorateToks(mi, 2)) == mi.ops[2..]
  {
    var args := VarOps(mi, 2, |mi.ops|, true, false);
    assert DecorateToks(mi, 2) == [Space] + args;
    VarOpsOperands(mi, 2, |mi.ops|, true, false);
    UnprintSpace(args);
    assert mi.ops[2..|mi.ops|] == mi.ops[2..];
  }

  // ---------------------------------------------------------------------
  // Extended instructions
  // ---------------------------------------------------------------------

  /** The set recorded for a result register; a missing entry reads as the default set. */
  function SetFor(m: map<Reg, ExtInstSet>, r: Reg): ExtInstSet {
    if r in m then m[r] else OpenCL_std
  }

  /** `ExtInstSetIDs[r]` leaves the map holding an entry for r, existing entries kept. */
  function Touch(m: map<Reg, ExtInstSet>, r: Reg): (m': map<Reg, ExtInstSet>)
    ensures m'.Keys == m.Keys + {r}
    ensures m'[r] == SetFor(m, r)
    ensures forall k :: k in m ==> m'[k] == m[k]
  {
    if r in m then m else m[r := OpenCL_std]
  }

  /** `ExtInstSetIDs.insert({r, set})`: an existing entry is never overwritten. */
  function RecordImport(m: map<Reg, ExtInstSet>, r: Reg, extSet: ExtInstSet): (m': map<Reg, ExtInstSet>)
    ensures m'.Keys == m.Keys + {r}
    ensures m'[r] == if r in m then m[r] else extSet
    ensures forall k :: k in m ==> m'[k] == m[k]
  {
    if r in m then m else m[r := extSet]
  }

  /**
   * An extended instruction printed before the import of its set pins the
   * default set: a later import of another set for that register is ignored.
   */
  lemma UseBeforeImportPinsDefault(m: map<Reg, ExtInstSet>, r: Reg, extSet: ExtInstSet)
    requires r !in m
    ensures SetFor(RecordImport(Touch(m, r), r, extSet), r) == OpenCL_std
  {
  }

  function Bytes(s: string): (r: seq<Byte>)
    requires forall i :: 0 <= i < |s| ==> s[i] as int < 256
    ensures |r| == |s|
  {
    seq(|s|, i requires 0 <= i < |s| => s[i] as int)
  }

  /** The extended-instruction set an OpExtInstImport names. */
  function ExtInstSetFromName(name: seq<Byte>): Option<ExtInstSet> {
    if name == Bytes("OpenCL.std") then Some(OpenCL_std)
    else if name == Bytes("GLSL.std.450") then Some(GLSL_std_450)
    else if name == Bytes("SPV_AMD_shader_trinary_minmax") then Some(SPV_AMD_shader_trinary_minmax)
    else None
  }

  predicate ImportReady(mi: MCInst) {
    |mi.ops| >= 1 && mi.ops[0].Reg? && ExtInstSetFromName(StringOperand(mi, 1)).Some?
  }

  predicate IsRoundingStore(inst: int) {
    inst == vstore_half_r || inst == vstore_halfn_r || inst == vstorea_halfn_r
  }

  predicate ExtInstReady(mi: MCInst, numFixed: nat, m: map<Reg, ExtInstSet>) {
    numFixed <= |mi.ops| &&
    (numFixed != |mi.ops| ==>
      |mi.ops| > 2 && mi.ops[2].Reg? &&
      (SetFor(m, mi.ops[2].reg) == OpenCL_std ==> |mi.ops| > 3 && mi.ops[3].Imm?))
  }

  /** Operands start .. end-1, each followed by a space. */
  function LeadingArgs(mi: MCInst, start: nat, end: nat): seq<Token>
    requires RegsVirtual(mi) && end <= |mi.ops|
    decreases end - start
  {
    if end <= start then [] else (OperandToks(mi, start) + [Space]) + LeadingArgs(mi, start + 1, end)
  }

  lemma {:induction false} LeadingArgsOperands(mi: MCInst, start: nat, end: nat)
    requires RegsVirtual(mi) && start <= end <= |mi.ops|
    ensures Unprint(LeadingArgs(mi, start, end)) == mi.ops[start..end]
    decreases end - start
  {
    if end > start {
      var next := start + 1;
      var head := OperandToks(mi, start) + [Space];
      var rest := LeadingArgs(mi, next, end);
      LeadingArgsOperands(mi, next, end);
      UnprintAppend(head, rest);
      assert Unprint(head) == [mi.ops[start]] by {
        UnprintAppend(OperandToks(mi, start), [Space]);
        assert Unprint([Space]) == [];
        OperandRoundTrip(mi, start);
      }
      SliceCons(mi.ops, start, end);
    } else {
      assert mi.ops[start..end] == [];
    }
  }

  /** The arguments printOpExtInst prints once the set of the instruction is known. */
  function ExtInstArgToks(mi: MCInst, numFixed: nat, extSet: ExtInstSet): seq<Token>
    requires RegsVirtual(mi) && numFixed < |mi.ops|
    requires extSet == OpenCL_std ==> |mi.ops| > 3 && mi.ops[3].Imm?
  {
    if extSet == OpenCL_std && IsRoundingStore(mi.ops[3].imm) then
      LeadingArgs(mi, numFixed, |mi.ops| - 1) + EnumToks(mi, |mi.ops| - 1, FPRoundingModeKind)
    else VarOps(mi, numFixed, |mi.ops|, true, false)
  }

  /** What printOpExtInst prints once the set of the instruction is known. */
  function ExtInstToks(mi: MCInst, numFixed: nat, extSet: ExtInstSet): seq<Token>
    requires RegsVirtual(mi) && numFixed < |mi.ops|
    requires extSet == OpenCL_std ==> |mi.ops| > 3 && mi.ops[3].Imm?
  {
    [Space] + ExtInstArgToks(mi, numFixed, extSet)
  }

  /**
   * The OpenCL.std stores with a rounding mode print their arguments in order
   * and then the last operand as a rounding mode.
   */
  lemma ExtInstRoundingStore(mi: MCInst, numFixed: nat, mode: int)
    requires RegsVirtual(mi) && 3 < numFixed < |mi.ops|
    requires mi.ops[3].Imm? && IsRoundingStore(mi.ops[3].imm) && mi.ops[|mi.ops| - 1] == Imm(mode)
    ensures var ts := ExtInstToks(mi, numFixed, OpenCL_std);
      ts[|ts| - 1] == EnumTok(FPRoundingModeKind, mode) &&
      Unprint(ts[..|ts| - 1]) == mi.ops[numFixed..|mi.ops| - 1]
  {
    var args := LeadingArgs(mi, numFixed, |mi.ops| - 1);
    var ts := ExtInstToks(mi, numFixed, OpenCL_std);
    assert ts == ([Space] + args) + [EnumTok(FPRoundingModeKind, mode)] by {
      assert ExtInstArgToks(mi, numFixed, OpenCL_std) == args + [EnumTok(FPRoundingModeKind, mode)];
      AppendAssoc([Space], args, [EnumTok(FPRoundingModeKind, mode)]);
    }
    assert ts[..|ts| - 1] == [Space] + args;
    LeadingArgsOperands(mi, numFixed, |mi.ops| - 1);
    UnprintSpace(args);
  }

  // ---------------------------------------------------------------------
  // The tail of printInst
  // ---------------------------------------------------------------------

  predicate IsImageOp(opc: Opcode) {
    opc == OpImageSampleImplicitLod || opc == OpImageSampleDrefImplicitLod ||
    opc == OpImageSampleProjImplicitLod || opc == OpImageSampleProjDrefImplicitLod ||
    opc == OpImageFetch || opc == OpImageGather || opc == OpImageDrefGather ||
    opc == OpImageRead || opc == OpImageWrite || opc == OpImageSparseSampleImplicitLod ||
    opc == OpImageSparseSampleDrefImplicitLod || opc == OpImageSparseSampleProjImplicitLod ||
    opc == OpImageSparseSampleProjDrefImplicitLod || opc == OpImageSparseFetch ||
    opc == OpImageSparseGather || opc == OpImageSparseDrefGather || opc == OpImageSparseRead ||
    opc == OpImageSampleFootprintNV
  }

  predicate CustomLastFixed(desc: InstrDesc) {
    desc.numOperands > 0 && desc.lastFixedUnknown
  }

  predicate PlainTailReady(mi: MCInst, first: nat) {
    ((mi.opcode == OpCopyMemory || mi.opcode == OpCopyMemorySized) ==> MemGroupsOK(mi.ops, first)) &&
    ((mi.opcode == OpConstantI || mi.opcode == OpConstantF) ==> ConstReady(mi, first))
  }

  predicate TailReady(mi: MCInst, desc: InstrDesc) {
    !CustomLastFixed(desc) ==> PlainTailReady(mi, desc.numOperands)
  }

  /** The variable operands after a last fixed operand of custom type. */
  function CustomTailToks(mi: MCInst, first: nat): seq<Token>
    requires RegsVirtual(mi) && first <= |mi.ops|
  {
    var n := |mi.ops|;
    if mi.opcode == OpTypeImage then [Space] + EnumToks(mi, first, AccessQualifierKind)
    else if mi.opcode == OpVariable then [Space] + OperandToks(mi, first)
    else if mi.opcode == OpEntryPoint then VarOps(mi, first, n, false, true)
    else if (mi.opcode == OpExecutionMode || mi.opcode == OpExecutionModeId || mi.opcode == OpLoopMerge) then VarOps(mi, first, n, false, false)
    else []
  }

  /** An operand mask named by its enumeration, then the operands after it as a plain list. */
  function MaskedTailToks(mi: MCInst, first: nat, kind: EnumKind): seq<Token>
    requires RegsVirtual(mi) && first <= |mi.ops|
  {
    [Space] + EnumToks(mi, first, kind) + VarOps(mi, first + 1, |mi.ops|, false, false)
  }

  /** The variable operands of any other variadic instruction. */
  function PlainTailToks(mi: MCInst, first: nat): seq<Token>
    requires RegsVirtual(mi) && first <= |mi.ops| && PlainTailReady(mi, first)
  {
    var n := |mi.ops|;
    if (mi.opcode == OpLoad || mi.opcode == OpStore) then MaskedTailToks(mi, first, MemoryOperandKind)
    else if IsImageOp(mi.opcode) then MaskedTailToks(mi, first, ImageOperandKind)
    else if (mi.opcode == OpCopyMemory || mi.opcode == OpCopyMemorySized) then CopyMemoryToks(mi, first)
    else if (mi.opcode == OpConstantI || mi.opcode == OpConstantF) then ConstantVarOps(mi, first)
    else VarOps(mi, first, n, false, false)
  }

  /** What printInst prints for the variable operands of any other opcode. */
  function TailToks(mi: MCInst, desc: InstrDesc): seq<Token>
    requires RegsVirtual(mi) && desc.numOperands <= |mi.ops| && TailReady(mi, desc)
  {
    if !desc.isVariadic then []
    else if CustomLastFixed(desc) then CustomTailToks(mi, desc.numOperands)
    else PlainTailToks(mi, desc.numOperands)
  }

  /** OpEntryPoint prints its interface ids and skips the words of its name. */
  lemma EntryPointInterface(mi: MCInst, desc: InstrDesc)
    requires RegsVirtual(mi) && mi.opcode == OpEntryPoint && desc.isVariadic && CustomLastFixed(desc)
    requires desc.numOperands <= |mi.ops|
    ensures TailReady(mi, desc)
    ensures Unprint(TailToks(mi, desc)) == NonImm(mi.ops[desc.numOperands..])
    ensures Spaced(TailToks(mi, desc))
  {
    var first := desc.numOperands;
    assert TailToks(mi, desc) == VarOps(mi, first, |mi.ops|, false, true) by {
      assert CustomTailToks(mi, first) == VarOps(mi, first, |mi.ops|, false, true);
    }
    VarOpsOperands(mi, first, |mi.ops|, false, true);
    VarOpsSpaced(mi, first, |mi.ops|, true);
    assert mi.ops[first..|mi.ops|] == mi.ops[first..];
  }

  /** OpLoad and OpStore print one memory-operand mask, then the rest as a plain list. */
  lemma LoadStoreTail(mi: MCInst, desc: InstrDesc, mask: int)
    requires RegsVirtual(mi) && (mi.opcode == OpLoad || mi.opcode == OpStore) && desc.isVariadic && !CustomLastFixed(desc)
    requires desc.numOperands < |mi.ops| && mi.ops[desc.numOperands] == Imm(mask)
    ensures TailReady(mi, desc)
    ensures var ts := TailToks(mi, desc);
      ts[..2] == [Space, EnumTok(MemoryOperandKind, mask)] &&
      Unprint(ts[2..]) == mi.ops[desc.numOperands + 1..]
  {
    var first := desc.numOperands;
    var rest := VarOps(mi, first + 1, |mi.ops|, false, false);
    LoadStoreTailToks(mi, desc, mask);
    VarOpsOperands(mi, first + 1, |mi.ops|, false, false);
    assert mi.ops[first + 1..|mi.ops|] == mi.ops[first + 1..];
    PairThenRest(TailToks(mi, desc), EnumTok(MemoryOperandKind, mask), rest);
  }

  lemma PairThenRest(ts: seq<Token>, t: Token, rest: seq<Token>)
    requires ts == [Space, t] + rest
    ensures ts[..2] == [Space, t] && ts[2..] == rest
  {
  }

  lemma LoadStoreTailToks(mi: MCInst, desc: InstrDesc, mask: int)
    requires RegsVirtual(mi) && (mi.opcode == OpLoad || mi.opcode == OpStore) && desc.isVariadic && !CustomLastFixed(desc)
    requires desc.numOperands < |mi.ops| && mi.ops[desc.numOperands] == Imm(mask)
    ensures TailReady(mi, desc)
    ensures TailToks(mi, desc)
      == [Space, EnumTok(MemoryOperandKind, mask)] + VarOps(mi, desc.numOperands + 1, |mi.ops|, false, false)
  {
    var first := desc.numOperands;
    assert TailToks(mi, desc) == PlainTailToks(mi, first);
    assert PlainTailToks(mi, first) == MaskedTailToks(mi, first, MemoryOperandKind);
    assert EnumToks(mi, first, MemoryOperandKind) == [EnumTok(MemoryOperandKind, mask)];
  }

  /** The printer's input: the fixed operands are present and each routine's reads are defined. */
  predicate Printable(mi: MCInst, desc: InstrDesc, m: map<Reg, ExtInstSet>) {
    RegsVirtual(mi) && desc.numOperands <= |mi.ops| &&
    (mi.opcode == OpDecorate ==> DecorateReady(mi, desc.numOperands)) &&
    (mi.opcode == OpExtInstImport ==> ImportReady(mi)) &&
    (mi.opcode == OpExtInst ==> ExtInstReady(mi, desc.numOperands, m)) &&
    TailReady(mi, desc)
  }

  // ---------------------------------------------------------------------
  // The printer and its output stream
  // ---------------------------------------------------------------------

  class OStream {
    var toks: seq<Token>

    constructor ()
      ensures toks == []
    {
      toks := [];
    }

    method Write(ts: seq<Token>)
      modifies this
      ensures toks == old(toks) + ts
    {
      toks := toks + ts;
    }
  }

  class InstPrinter {
    /** Result register of each OpExtInstImport seen so far, and the set it imports. */
    var extInstSetIDs: map<Reg, ExtInstSet>

    constructor ()
      ensures extInstSetIDs == map[]
    {
      extInstSetIDs := map[];
    }

    method PrintOperand(mi: MCInst, opNo: nat, o: OStream)
      requires RegsVirtual(mi)
      modifies o
      ensures o.toks == old(o.toks) + OperandToks(mi, opNo)
    {
      if opNo < |mi.ops| {
        match mi.ops[opNo]
        case Reg(r) => o.Write([RegTok(VirtIndex(r) + 1)]);
        case Imm(v) => o.Write([ImmTok(v)]);
        case DFPImm => o.Write([FPTok]);
        case Expr => o.Write([ExprTok]);
      }
    }

    /** One of the generated enumerant printers. */
    method PrintEnum(mi: MCInst, opNo: nat, kind: EnumKind, o: OStream)
      modifies o
      ensures o.toks == old(o.toks) + EnumToks(mi, opNo, kind)
    {
      if opNo < |mi.ops| && mi.ops[opNo].Imm? {
        o.Write([EnumTok(kind, mi.ops[opNo].imm)]);
      }
    }

    method PrintRemainingVariableOps(mi: MCInst, startIndex: nat, o: OStream,
                                     skipFirstSpace: bool, skipImmediates: bool)
      requires RegsVirtual(mi)
      modifies o
      ensures o.toks == old(o.toks) + VarOps(mi, startIndex, |mi.ops|, skipFirstSpace, skipImmediates)
    {
      var numOps := |mi.ops|;
      var i := startIndex;
      while i < numOps
        invariant startIndex <= i && (startIndex <= numOps ==> i <= numOps)
        invariant old(o.toks) + VarOps(mi, startIndex, numOps, skipFirstSpace, skipImmediates)
          == o.toks + VarOps(mi, i, numOps, skipFirstSpace && i == startIndex, skipImmediates)
        decreases numOps - i
      {
        ghost var before := o.toks;
        PrintVarOp(mi, i, !skipFirstSpace || i != startIndex, skipImmediates, o);
        AppendAssoc(before, VarOp(mi, i, !skipFirstSpace || i != startIndex, skipImmediates),
                    VarOps(mi, i + 1, numOps, false, skipImmediates));
        i := i + 1;
      }
    }

    /** One iteration of printRemainingVariableOps. */
    method PrintVarOp(mi: MCInst, i: nat, spaced: bool, skipImmediates: bool, o: OStream)
      requires RegsVirtual(mi) && i < |mi.ops|
      modifies o
      ensures o.toks == old(o.toks) + VarOp(mi, i, spaced, skipImmediates)
    {
      if !skipImmediates || !mi.ops[i].Imm? {
        if spaced {
          o.Write([Space]);
        }
        PrintOperand(mi, i, o);
      }
    }

    method PrintOpConstantVarOps(mi: MCInst, startIndex: nat, o: OStream)
      requires RegsVirtual(mi) && ConstReady(mi, startIndex)
      modifies o
      ensures o.toks == old(o.toks) + ConstantVarOps(mi, startIndex)
    {
      o.Write([Space]);
      if |mi.ops| == startIndex + 2 {
        var imm := mi.ops[startIndex].imm % U64Base;
        imm := BitOr(imm, (mi.ops[startIndex + 1].imm * WordBase) % U64Base);
        o.Write([U64Tok(imm)]);
      } else {
        PrintRemainingVariableOps(mi, startIndex, o, true, false);
      }
    }

    /** The memory-operand loop of printInst for OpCopyMemory and OpCopyMemorySized. */
    method PrintCopyMemoryOps(mi: MCInst, numFixedOps: nat, o: OStream)
      requires RegsVirtual(mi) && MemGroupsOK(mi.ops, numFixedOps)
      modifies o
      ensures o.toks == old(o.toks) + CopyMemoryToks(mi, numFixedOps)
    {
      var numOps := |mi.ops|;
      var i := numFixedOps;
      while i < numOps
        invariant MemGroupsOK(mi.ops, i)
        invariant old(o.toks) + CopyMemoryToks(mi, numFixedOps) == o.toks + CopyMemoryToks(mi, i)
        decreases numOps - i
      {
        ghost var before := o.toks;
        ghost var here := i;
        i := PrintMemGroup(mi, i, o);
        AppendAssoc(before, MemGroupToks(mi, here), CopyMemoryToks(mi, i));
      }
    }

    /** One iteration of the OpCopyMemory loop; returns where the next mask is. */
    method PrintMemGroup(mi: MCInst, i: nat, o: OStream) returns (next: nat)
      requires RegsVirtual(mi) && i < |mi.ops| && MemGroupsOK(mi.ops, i)
      modifies o
      ensures next == NextMemGroup(mi, i) && MemGroupsOK(mi.ops, next)
      ensures o.toks == old(o.toks) + MemGroupToks(mi, i)
    {
      ghost var before := o.toks;
      o.Write([Space]);
      PrintEnum(mi, i, MemoryOperandKind, o);
      ghost var mask := [Space] + EnumToks(mi, i, MemoryOperandKind);
      assert o.toks == before + mask;
      next := i + 1;
      if HasAligned(mi.ops[i].imm) {
        o.Write([Space]);
        PrintOperand(mi, i + 1, o);
        AppendAssoc(before + mask, [Space], OperandToks(mi, i + 1));
        AppendAssoc(before, mask, [Space] + OperandToks(mi, i + 1));
        next := next + 1;
      }
    }

    /** Writes a string in double quotes, a backslash before each quote inside it. */
    method WriteQuoted(str: seq<Byte>, o: OStream)
      modifies o
      ensures o.toks == old(o.toks) + Quoted(str)
    {
      o.Write([Chr(Quote)]);
      ghost var open := o.toks;
      var k := 0;
      while k < |str|
        invariant k <= |str|
        invariant o.toks == open + Chrs(Escape(str[..k]))
      {
        ghost var before := o.toks;
        WriteEscapedByte(str[k], o);
        EscapedPrefixStep(str, k);
        AppendAssoc(open, Chrs(Escape(str[..k])), Chrs(EscapeByte(str[k])));
        k := k + 1;
      }
      assert str[..k] == str;
      o.Write([Chr(Quote)]);
    }

    /** One byte of a quoted string: a quote gets a backslash before it. */
    method WriteEscapedByte(c: Byte, o: OStream)
      modifies o
      ensures o.toks == old(o.toks) + Chrs(EscapeByte(c))
    {
      ghost var before := o.toks;
      if c == Quote {
        o.Write([Chr(Backslash)]);
        o.Write([Chr(c)]);
        AppendAssoc(before, [Chr(Backslash)], [Chr(c)]);
        assert Chrs([Quote]) == [Chr(Quote)] by {
          assert [Quote][1..] == [];
        }
        assert Chrs(EscapeByte(c)) == [Chr(Backslash)] + Chrs([Quote]) by {
          assert EscapeByte(c)[1..] == [Quote];
        }
      } else {
        o.Write([Chr(c)]);
        assert EscapeByte(c)[1..] == [];
      }
    }

    /**
     * One iteration of printStringImm as written: the string at opNo, quoted,
     * and for a LinkageAttributes decoration the linkage type after it.
     */
    method PrintStringAt(mi: MCInst, opNo: nat, strStartIndex: nat, o: OStream) returns (next: nat, stop: bool)
      requires StringImmReady(mi) && strStartIndex < |mi.ops| && !mi.ops[strStartIndex].Reg?
      modifies o
      ensures next == strStartIndex + WordsSpanned(StringOperand(mi, opNo)) && stop == IsLinkageDecorate(mi)
      ensures stop ==> o.toks == old(o.toks) + StringImmLoop(mi, StringOperand(mi, opNo), opNo, strStartIndex)
      ensures !stop ==> o.toks == old(o.toks) + (Sep(strStartIndex == opNo) + Quoted(StringOperand(mi, opNo)))
    {
      ghost var before := o.toks;
      var str := StringOperand(mi, opNo);
      WriteSepQuoted(str, strStartIndex == opNo, o);
      ghost var head := Sep(strStartIndex == opNo) + Quoted(str);
      var numOpsInString := WordsSpanned(str);
      next := strStartIndex + numOpsInString;
      stop := false;
      if mi.opcode == OpDecorate && mi.ops[1].imm == LinkageAttributes {
        WriteLinkage(mi, next, o);
        AppendAssoc(before, head, [Space] + EnumToks(mi, next, LinkageTypeKind));
        StringImmLoopStep(mi, str, opNo, strStartIndex);
        stop := true;
      }
    }

    /** One string of printStringImm: a space unless it is the first, then the string quoted. */
    method WriteSepQuoted(str: seq<Byte>, first: bool, o: OStream)
      modifies o
      ensures o.toks == old(o.toks) + (Sep(first) + Quoted(str))
    {
      ghost var before := o.toks;
      if !first {
        o.Write([Space]);
        WriteQuoted(str, o);
        AppendAssoc(before, [Space], Quoted(str));
      } else {
        WriteQuoted(str, o);
        assert Sep(true) + Quoted(str) == Quoted(str);
      }
    }

    /** The linkage type printed after the name of a LinkageAttributes decoration. */
    method WriteLinkage(mi: MCInst, opNo: nat, o: OStream)
      modifies o
      ensures o.toks == old(o.toks) + ([Space] + EnumToks(mi, opNo, LinkageTypeKind))
    {
      ghost var before := o.toks;
      o.Write([Space]);
      PrintEnum(mi, opNo, LinkageTypeKind, o);
      AppendAssoc(before, [Space], EnumToks(mi, opNo, LinkageTypeKind));
    }

    /** `printStringImm` as written: every iteration decodes the string at opNo. */
    method PrintStringImm(mi: MCInst, opNo: nat, o: OStream)
      requires StringImmReady(mi)
      modifies o
      ensures o.toks == old(o.toks) + StringImmAsWritten(mi, opNo)
    {
      ghost var str := StringOperand(mi, opNo);
      ghost var total := old(o.toks) + StringImmAsWritten(mi, opNo);
      var numOps := |mi.ops|;
      var strStartIndex := opNo;
      while strStartIndex < numOps
        invariant total == o.toks + StringImmLoop(mi, str, opNo, strStartIndex)
        decreases numOps - strStartIndex
      {
        if mi.ops[strStartIndex].Reg? {
          break;
        }
        ghost var before := o.toks;
        ghost var here := strStartIndex;
        var stop;
        strStartIndex, stop := PrintStringAt(mi, opNo, strStartIndex, o);
        if stop {
          return;
        }
        StringLoopAdvance(total, before, mi, str, opNo, here);
      }
    }

    method PrintOpDecorate(mi: MCInst, numFixedOps: nat, o: OStream)
      requires RegsVirtual(mi) && DecorateReady(mi, numFixedOps)
      modifies o
      ensures o.toks == old(o.toks) + DecorateToks(mi, numFixedOps)
    {
      if numFixedOps != |mi.ops| {
        o.Write([Space]);
        PrintDecorationArgs(mi, numFixedOps, o);
      }
    }

    /** The operands of a decoration, after the space that follows the fixed operands. */
    method PrintDecorationArgs(mi: MCInst, numFixedOps: nat, o: OStream)
      requires RegsVirtual(mi) && DecorateReady(mi, numFixedOps) && numFixedOps < |mi.ops|
      modifies o
      ensures o.toks == old(o.toks) + DecorateArgToks(mi, numFixedOps)
    {
      var dec := mi.ops[numFixedOps - 1].imm;
      if dec == BuiltIn {
        PrintEnum(mi, numFixedOps, BuiltInKind, o);
      } else if dec == UniformId {
        PrintEnum(mi, numFixedOps, ScopeKind, o);
      } else if dec == FuncParamAttr {
        PrintEnum(mi, numFixedOps, FunctionParameterAttributeKind, o);
      } else if dec == FPRoundingMode {
        PrintEnum(mi, numFixedOps, FPRoundingModeKind, o);
      } else if dec == FPFastMathMode {
        PrintEnum(mi, numFixedOps, FPFastMathModeKind, o);
      } else if dec == LinkageAttributes {
        PrintStringImm(mi, numFixedOps, o);
      } else {
        PrintRemainingVariableOps(mi, numFixedOps, o, true, false);
      }
    }

    method RecordOpExtInstImport(mi: MCInst)
      requires ImportReady(mi)
      modifies this
      ensures extInstSetIDs == RecordImport(old(extInstSetIDs), mi.ops[0].reg,
                                            ExtInstSetFromName(StringOperand(mi, 1)).value)
    {
      var reg := mi.ops[0].reg;
      var name := StringOperand(mi, 1);
      var extSet := ExtInstSetFromName(name).value;
      if reg !in extInstSetIDs {
        extInstSetIDs := extInstSetIDs[reg := extSet];
      }
    }

    method PrintOpExtInst(mi: MCInst, numFixedOps: nat, o: OStream)
      requires RegsVirtual(mi) && ExtInstReady(mi, numFixedOps, extInstSetIDs)
      modifies this, o
      ensures numFixedOps == |mi.ops| ==> o.toks == old(o.toks) && extInstSetIDs == old(extInstSetIDs)
      ensures numFixedOps != |mi.ops| ==>
        extInstSetIDs == Touch(old(extInstSetIDs), mi.ops[2].reg) &&
        o.toks == old(o.toks) + ExtInstToks(mi, numFixedOps, SetFor(old(extInstSetIDs), mi.ops[2].reg))
    {
      var numOps := |mi.ops|;
      if numOps == numFixedOps {
        return;
      }
      o.Write([Space]);
      var setReg := mi.ops[2].reg;
      if setReg !in extInstSetIDs {
        extInstSetIDs := extInstSetIDs[setReg := OpenCL_std];
      }
      var extSet := extInstSetIDs[setReg];
      PrintExtInstArgs(mi, numFixedOps, extSet, o);
    }

    /** The arguments of an extended instruction whose set is known. */
    method PrintExtInstArgs(mi: MCInst, numFixedOps: nat, extSet: ExtInstSet, o: OStream)
      requires RegsVirtual(mi) && numFixedOps < |mi.ops|
      requires extSet == OpenCL_std ==> |mi.ops| > 3 && mi.ops[3].Imm?
      modifies o
      ensures o.toks == old(o.toks) + ExtInstArgToks(mi, numFixedOps, extSet)
    {
      var numOps := |mi.ops|;
      if extSet == OpenCL_std && IsRoundingStore(mi.ops[3].imm) {
        PrintLeadingArgs(mi, numFixedOps, numOps - 1, o);
        PrintEnum(mi, numOps - 1, FPRoundingModeKind, o);
      } else {
        PrintRemainingVariableOps(mi, numFixedOps, o, true, false);
      }
    }

    /** The rounding-store loop of printOpExtInst: operands start .. end-1, each followed by a space. */
    method PrintLeadingArgs(mi: MCInst, start: nat, end: nat, o: OStream)
      requires RegsVirtual(mi) && start <= end <= |mi.ops|
      modifies o
      ensures o.toks == old(o.toks) + LeadingArgs(mi, start, end)
    {
      var i := start;
      while i < end
        invariant start <= i <= end
        invariant old(o.toks) + LeadingArgs(mi, start, end) == o.toks + LeadingArgs(mi, i, end)
        decreases end - i
      {
        ghost var before := o.toks;
        PrintOperand(mi, i, o);
        o.Write([Space]);
        AppendAssoc(before, OperandToks(mi, i) + [Space], LeadingArgs(mi, i + 1, end));
        i := i + 1;
      }
      assert LeadingArgs(mi, i, end) == [];
    }

    /**
     * `printInst` after the generated printer: the decoration, import and
     * extended-instruction routines, or the variable tail of any other opcode.
     */
    method PrintInst(mi: MCInst, desc: InstrDesc, o: OStream)
      requires Printable(mi, desc, extInstSetIDs)
      modifies this, o
      ensures mi.opcode == OpDecorate ==>
        o.toks == old(o.toks) + DecorateToks(mi, desc.numOperands) && extInstSetIDs == old(extInstSetIDs)
      ensures mi.opcode == OpExtInstImport ==>
        o.toks == old(o.toks) &&
        extInstSetIDs == RecordImport(old(extInstSetIDs), mi.ops[0].reg, ExtInstSetFromName(StringOperand(mi, 1)).value)
      ensures mi.opcode == OpExtInst && desc.numOperands != |mi.ops| ==>
        extInstSetIDs == Touch(old(extInstSetIDs), mi.ops[2].reg) &&
        o.toks == old(o.toks) + ExtInstToks(mi, desc.numOperands, SetFor(old(extInstSetIDs), mi.ops[2].reg))
      ensures mi.opcode == OpExtInst && desc.numOperands == |mi.ops| ==>
        o.toks == old(o.toks) && extInstSetIDs == old(extInstSetIDs)
      ensures mi.opcode !in {OpDecorate, OpExtInstImport, OpExtInst} ==>
        o.toks == old(o.toks) + TailToks(mi, desc) && extInstSetIDs == old(extInstSetIDs)
    {
      if mi.opcode == OpDecorate {
        PrintOpDecorate(mi, desc.numOperands, o);
      } else if mi.opcode == OpExtInstImport {
        RecordOpExtInstImport(mi);
      } else if mi.opcode == OpExtInst {
        PrintOpExtInst(mi, desc.numOperands, o);
      } else if desc.isVariadic {
        var numFixedOps := desc.numOperands;
        if numFixedOps > 0 && desc.lastFixedUnknown {
          PrintCustomTail(mi, numFixedOps, o);
        } else {
          PrintPlainTail(mi, numFixedOps, o);
        }
      }
    }

    /** The variable operands after a last fixed operand of custom type. */
    method PrintCustomTail(mi: MCInst, firstVariableIndex: nat, o: OStream)
      requires RegsVirtual(mi) && firstVariableIndex <= |mi.ops|
      modifies o
      ensures o.toks == old(o.toks) + CustomTailToks(mi, firstVariableIndex)
    {
      var opcode := mi.opcode;
      if opcode == OpTypeImage {
        o.Write([Space]);
        PrintEnum(mi, firstVariableIndex, AccessQualifierKind, o);
      } else if opcode == OpVariable {
        o.Write([Space]);
        PrintOperand(mi, firstVariableIndex, o);
      } else if opcode == OpEntryPoint {
        PrintRemainingVariableOps(mi, firstVariableIndex, o, false, true);
      } else if opcode == OpExecutionMode {
        PrintRemainingVariableOps(mi, firstVariableIndex, o, false, false);
      } else if opcode == OpExecutionModeId {
        PrintRemainingVariableOps(mi, firstVariableIndex, o, false, false);
      } else if opcode == OpLoopMerge {
        PrintRemainingVariableOps(mi, firstVariableIndex, o, false, false);
      }
    }

    /** The variable operands of any other variadic instruction. */
    method PrintPlainTail(mi: MCInst, firstVariableIndex: nat, o: OStream)
      requires RegsVirtual(mi) && firstVariableIndex <= |mi.ops| && PlainTailReady(mi, firstVariableIndex)
      modifies o
      ensures o.toks == old(o.toks) + PlainTailToks(mi, firstVariableIndex)
    {
      if mi.opcode == OpLoad || mi.opcode == OpStore {
        PrintMaskedTail(mi, firstVariableIndex, MemoryOperandKind, o);
      } else if IsImageOp(mi.opcode) {
        PrintMaskedTail(mi, firstVariableIndex, ImageOperandKind, o);
      } else if mi.opcode == OpCopyMemory || mi.opcode == OpCopyMemorySized {
        PrintCopyMemoryOps(mi, firstVariableIndex, o);
      } else if mi.opcode == OpConstantI || mi.opcode == OpConstantF {
        PrintOpConstantVarOps(mi, firstVariableIndex, o);
      } else {
        PrintRemainingVariableOps(mi, firstVariableIndex, o, false, false);
      }
    }

    /** A memory or image operand mask, then the remaining operands. */
    method PrintMaskedTail(mi: MCInst, firstVariableIndex: nat, kind: EnumKind, o: OStream)
      requires RegsVirtual(mi) && firstVariableIndex <= |mi.ops|
      modifies o
      ensures o.toks == old(o.toks) + MaskedTailToks(mi, firstVariableIndex, kind)
    {
      ghost var before := o.toks;
      o.Write([Space]);
      PrintEnum(mi, firstVariableIndex, kind, o);
      ghost var mask := [Space] + EnumToks(mi, firstVariableIndex, kind);
      assert o.toks == before + mask;
      PrintRemainingVariableOps(mi, firstVariableIndex + 1, o, false, false);
    }
  }
}

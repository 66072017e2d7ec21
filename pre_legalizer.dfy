/**
 * The SPIR-V pre-legalizer (SPIRVPreLegalizer.cpp): the rewrites applied to a
 * machine function after instruction translation and before legalization.
 * Deduplicating tracked constants, folding constants into spv_assign_name,
 * propagating SPIR-V types through copies and casts, inserting ASSIGN_TYPE
 * after definitions, and wrapping register operands in GET_* id conversions.
 *
 * Every routine works in place on a MIR.MachineFunction and on the
 * GlobalRegistry below. Where the source dereferences a missing definition,
 * fails a cast or an assert, the model stops and reports `ok == false`.
 */
module PreLegalizer {
  import opened Spirv
  import opened MIR

  /**
   * The part of SPIRVGlobalRegistry the pass uses: the registers already
   * standing for a constant or a global in the current function (find/add),
   * and the SPIR-V type bound to each virtual register. SPIR-V types are
   * interned, so a type is identified with the IR type it was made from.
   */
  class GlobalRegistry {
    var constRegs: map<Constant, Reg>
    var vregTypes: map<Reg, IRType>

    constructor ()
      ensures constRegs == map[] && vregTypes == map[]
    {
      constRegs, vregTypes := map[], map[];
    }

    /** `find`: whether c already has a register in this function, and which. */
    method Find(c: Constant) returns (found: bool, reg: Reg)
      ensures found <==> c in constRegs
      ensures found ==> reg == constRegs[c]
    {
      if c in constRegs {
        found, reg := true, constRegs[c];
      } else {
        found, reg := false, 0;
      }
    }

    /** `add`: c now stands for reg, unless it already stands for a register (the first one stays). */
    method Add(c: Constant, reg: Reg)
      modifies this
      ensures constRegs == AddFirst(old(constRegs), c, reg) && vregTypes == old(vregTypes)
      ensures c in constRegs && (c in old(constRegs) ==> constRegs == old(constRegs))
    {
      if c !in constRegs {
        constRegs := constRegs[c := reg];
      }
    }

    /** `assignSPIRVTypeToVReg`. */
    method AssignType(ty: IRType, reg: Reg)
      modifies this
      ensures vregTypes == old(vregTypes)[reg := ty] && constRegs == old(constRegs)
    {
      vregTypes := vregTypes[reg := ty];
    }
  }

  /** The registry after one `add`: a key already present keeps its register. */
  function AddFirst(m: map<Constant, Reg>, c: Constant, reg: Reg): map<Constant, Reg> {
    if c in m then m else m[c := reg]
  }

  ghost predicate RegsUnder(m: map<Constant, Reg>, n: nat) {
    forall c :: c in m ==> m[c] < n
  }

  /** isSpvIntrinsic: a G_INTRINSIC_W_SIDE_EFFECTS whose intrinsic operand is id. */
  predicate IsSpvIntrinsic(mi: MachineInstr, id: Intrinsic) {
    mi.opcode == G_INTRINSIC_W_SIDE_EFFECTS && IntrinsicID(mi) == Some(id)
  }

  /** The intrinsic operand sits right after the explicit definitions. */
  lemma IsSpvIntrinsicOperand(mi: MachineInstr, id: Intrinsic)
    ensures IsSpvIntrinsic(mi, id) <==>
      mi.opcode == G_INTRINSIC_W_SIDE_EFFECTS && mi.numDefs < |mi.ops| && mi.ops[mi.numDefs] == IntrinsicOp(id)
  {
  }

  // ---------------------------------------------------------------------------
  // addConstantsToTrack
  // ---------------------------------------------------------------------------

  /** The constant a spv_track_constant names through its metadata operand 3. */
  function TrackedConstant(mi: MachineInstr): Option<Constant> {
    if |mi.ops| > 3 && mi.ops[3].MetaOp? && mi.ops[3].md.ConstMD? then Some(mi.ops[3].md.c) else None
  }

  /** The registry after adding cs[i] -> rs[i] in order (the first registration of a key stays). */
  function AddAll(m: map<Constant, Reg>, cs: seq<Constant>, rs: seq<Reg>): map<Constant, Reg>
    requires |cs| == |rs|
    decreases |cs|
  {
    if cs == [] then m else AddAll(AddFirst(m, cs[0], rs[0]), cs[1..], rs[1..])
  }

  /**
   * After AddAll, every element is registered: at its first occurrence i
   * with rs[i], unless it was registered before.
   */
  lemma {:induction false} AddAllRegisters(m: map<Constant, Reg>, cs: seq<Constant>, rs: seq<Reg>, i: nat)
    requires |cs| == |rs| && i < |cs| && forall j :: 0 <= j < i ==> cs[j] != cs[i]
    ensures cs[i] in AddAll(m, cs, rs)
    ensures AddAll(m, cs, rs)[cs[i]] == if cs[i] in m then m[cs[i]] else rs[i]
    decreases |cs|
  {
    if i == 0 {
      AddAllKeeps(AddFirst(m, cs[0], rs[0]), cs[1..], rs[1..], cs[0]);
    } else {
      assert cs[0] != cs[i];
      AddAllRegisters(AddFirst(m, cs[0], rs[0]), cs[1..], rs[1..], i - 1);
    }
  }

  /** A key registered before AddAll keeps its register. */
  lemma {:induction false} AddAllKeeps(m: map<Constant, Reg>, cs: seq<Constant>, rs: seq<Reg>, c: Constant)
    requires |cs| == |rs| && c in m
    ensures c in AddAll(m, cs, rs) && AddAll(m, cs, rs)[c] == m[c]
    decreases |cs|
  {
    if cs != [] {
      AddAllKeeps(AddFirst(m, cs[0], rs[0]), cs[1..], rs[1..], c);
    }
  }

  /** AddAll registers exactly the keys registered before and the elements added. */
  lemma {:induction false} AddAllKeys(m: map<Constant, Reg>, cs: seq<Constant>, rs: seq<Reg>)
    requires |cs| == |rs|
    ensures forall k :: k in AddAll(m, cs, rs) <==> k in m || k in cs
    decreases |cs|
  {
    if cs != [] {
      AddAllKeys(AddFirst(m, cs[0], rs[0]), cs[1..], rs[1..]);
      assert forall k :: k in cs <==> k == cs[0] || k in cs[1..];
    }
  }

  lemma {:induction false} AddAllUnder(m: map<Constant, Reg>, cs: seq<Constant>, rs: seq<Reg>, n: nat)
    requires |cs| == |rs| && RegsUnder(m, n) && forall i :: 0 <= i < |rs| ==> rs[i] < n
    ensures RegsUnder(AddAll(m, cs, rs), n)
    decreases |cs|
  {
    if cs != [] {
      AddAllUnder(AddFirst(m, cs[0], rs[0]), cs[1..], rs[1..], n);
    }
  }

  /** The registers of operands start .. start+count-1, if all of them are registers. */
  function OperandRegs(ops: seq<MachineOperand>, start: nat, count: nat): (r: Option<seq<Reg>>)
    ensures r.Some? ==> |r.value| == count && start + count <= |ops|
    ensures r.Some? ==> forall i :: 0 <= i < count ==> ops[start + i].RegOp? && ops[start + i].reg == r.value[i]
  {
    if start + count <= |ops| && forall i :: start <= i < start + count ==> ops[i].RegOp? then
      Some(seq(count, i requires 0 <= i < count => ops[start + i].reg))
    else None
  }

  /** Registers every element of a constant vector with the build-vector's operand 1+i, in order. */
  method AddElements(gr: GlobalRegistry, elems: seq<Constant>, regs: seq<Reg>)
    requires |elems| == |regs|
    modifies gr
    ensures gr.constRegs == AddAll(old(gr.constRegs), elems, regs)
    ensures gr.vregTypes == old(gr.vregTypes)
  {
    var i := 0;
    while i < |elems|
      invariant i <= |elems|
      invariant AddAll(gr.constRegs, elems[i..], regs[i..]) == AddAll(old(gr.constRegs), elems, regs)
      invariant gr.vregTypes == old(gr.vregTypes)
    {
      assert elems[i..][1..] == elems[i + 1..] && regs[i..][1..] == regs[i + 1..];
      gr.Add(elems[i], regs[i]);
      i := i + 1;
    }
  }

  /**
   * The first loop's body for one spv_track_constant: a key seen for the first
   * time is registered (a vector's elements before the vector), a key seen
   * before resolves to the register registered for it; a duplicate whose source
   * is an spv_const_composite reports that source for erasure.
   */
  method TrackOne(mf: MachineFunction, gr: GlobalRegistry, h: Handle)
    returns (ok: bool, resolved: Option<Reg>, composite: Option<Handle>)
    requires mf.Valid() && h < |mf.arena| && RegsUnder(gr.constRegs, mf.nextReg)
    modifies gr
    ensures RegsUnder(gr.constRegs, mf.nextReg) && gr.vregTypes == old(gr.vregTypes)
    ensures old(gr.constRegs).Keys <= gr.constRegs.Keys
    ensures ok ==> TrackedConstant(mf.arena[h]).Some?
    ensures ok ==> var c := TrackedConstant(mf.arena[h]).value;
      c in gr.constRegs &&
      if c in old(gr.constRegs) then
        resolved == Some(old(gr.constRegs)[c]) && gr.constRegs == old(gr.constRegs)
      else
        resolved.None? && |mf.arena[h].ops| > 2 && mf.arena[h].ops[2].RegOp? &&
        gr.constRegs[c] == mf.arena[h].ops[2].reg
    ensures composite.Some? ==>
      composite.value in mf.Live() && composite.value < |mf.arena| && IsSpvIntrinsic(mf.arena[composite.value], spv_const_composite)
    ensures ok ==> composite == if resolved.Some? then CompositeOf(mf.arena, mf.Live(), h) else None
  {
    resolved, composite := None, None;
    var mi := mf.arena[h];
    var key := TrackedConstant(mi);
    if key.None? {
      ok := false;
      return;
    }
    var c := key.value;
    var found, reg := gr.Find(c);
    if found {
      resolved := Some(reg);
      ok := c.GlobalConst? || mi.ops[2].RegOp?;
      if ok && !c.GlobalConst? {
        var src := DefIn(mf.arena, mf.Live(), mi.ops[2].reg);
        if src.Some? && IsSpvIntrinsic(mf.arena[src.value], spv_const_composite) {
          composite := src;
        }
      }
      return;
    }
    if !mi.ops[2].RegOp? {
      ok := false;
      return;
    }
    assert mi.ops[2].reg < mf.nextReg;
    if c.DataVector? {
      var bv := DefIn(mf.arena, mf.Live(), mi.ops[2].reg);
      if bv.None? || mf.arena[bv.value].opcode != G_BUILD_VECTOR {
        ok := false;
        return;
      }
      var regs := OperandRegs(mf.arena[bv.value].ops, 1, |c.elems|);
      if regs.None? {
        ok := false;
        return;
      }
      forall i | 0 <= i < |regs.value|
        ensures regs.value[i] < mf.nextReg
      {
        assert mf.arena[bv.value].ops[1 + i].RegOp?;
      }
      AddAllUnder(gr.constRegs, c.elems, regs.value, mf.nextReg);
      AddAllKeys(gr.constRegs, c.elems, regs.value);
      forall j | 0 <= j < |c.elems|
        ensures c.elems[j] != c
      {
        assert c.elems[j] < c;
      }
      AddElements(gr, c.elems, regs.value);
    }
    gr.Add(c, mi.ops[2].reg);
    ok := true;
  }

  /**
   * A first-seen vector constant's elements are registered before the vector
   * itself: each with the build-vector's register at its first occurrence,
   * unless it was registered before.
   */
  lemma VectorElementsRegistered(m: map<Constant, Reg>, c: Constant, regs: seq<Reg>, vecReg: Reg, i: nat)
    requires c.DataVector? && |regs| == |c.elems| && i < |c.elems|
    requires forall j :: 0 <= j < i ==> c.elems[j] != c.elems[i]
    ensures c.elems[i] in AddAll(m, c.elems, regs)[c := vecReg]
    ensures AddAll(m, c.elems, regs)[c := vecReg][c.elems[i]] == if c.elems[i] in m then m[c.elems[i]] else regs[i]
  {
    AddAllRegisters(m, c.elems, regs, i);
    assert c.elems[i] < c;
  }

  // The first loop as a whole. The registry it leaves and the two records it
  // fills (the handles already resolved, the composites to erase) are stated
  // over the live list, track by track, in the order the loop meets them.

  /** The spv_track_constant handles among hs, in order. */
  function Tracks(arena: seq<MachineInstr>, hs: seq<Handle>): (r: seq<Handle>)
    ensures forall x :: x in r ==> x in hs && x < |arena| && IsSpvIntrinsic(arena[x], spv_track_constant)
    ensures forall x :: x in hs && x < |arena| && IsSpvIntrinsic(arena[x], spv_track_constant) ==> x in r
    decreases |hs|
  {
    if hs == [] then []
    else
      var n := |hs| - 1;
      assert forall x :: x in hs ==> x in hs[..n] || x == hs[n];
      Tracks(arena, hs[..n]) + if hs[n] < |arena| && IsSpvIntrinsic(arena[hs[n]], spv_track_constant) then [hs[n]] else []
  }

  /**
   * How one spv_track_constant moves the registry from before to after: its
   * constant is registered afterwards and no key is lost; a constant already
   * registered leaves the registry as it was, a new one now stands for the
   * register in operand 2.
   */
  ghost predicate TrackRegistered(mi: MachineInstr, before: map<Constant, Reg>, after: map<Constant, Reg>) {
    TrackedConstant(mi).Some? && TrackedConstant(mi).value in after && before.Keys <= after.Keys &&
    (TrackedConstant(mi).value in before ==> after == before) &&
    (TrackedConstant(mi).value !in before ==>
      |mi.ops| > 2 && mi.ops[2].RegOp? && after[TrackedConstant(mi).value] == mi.ops[2].reg)
  }

  /**
   * The registry through the first loop: before[j] is the registry when
   * tracks[j] is reached, from start on; final is what the loop leaves.
   */
  ghost predicate RegistryChain(arena: seq<MachineInstr>, tracks: seq<Handle>, start: map<Constant, Reg>,
                                before: seq<map<Constant, Reg>>, final: map<Constant, Reg>) {
    |before| == |tracks| &&
    (tracks == [] ==> final == start) && (tracks != [] ==> before[0] == start) &&
    forall j :: 0 <= j < |tracks| ==>
      (tracks[j] < |arena| &&
       TrackRegistered(arena[tracks[j]], before[j], if j + 1 < |tracks| then before[j + 1] else final))
  }

  /** The register a track's constant already had when the track was reached, if any. */
  function Resolved(mi: MachineInstr, before: map<Constant, Reg>): Option<Reg> {
    if TrackedConstant(mi).Some? && TrackedConstant(mi).value in before then Some(before[TrackedConstant(mi).value])
    else None
  }

  /** RegsAlreadyAddedToDT: each track whose constant was already registered, mapped to that register. */
  function Resolutions(arena: seq<MachineInstr>, tracks: seq<Handle>, before: seq<map<Constant, Reg>>): map<Handle, Reg>
    requires |before| == |tracks|
    decreases |tracks|
  {
    if tracks == [] then map[]
    else
      var n := |tracks| - 1;
      var m := Resolutions(arena, tracks[..n], before[..n]);
      if tracks[n] < |arena| && Resolved(arena[tracks[n]], before[n]).Some? then
        m[tracks[n] := Resolved(arena[tracks[n]], before[n]).value]
      else m
  }

  /** The spv_const_composite defining a non-global track's operand 2, if that is what defines it. */
  function CompositeOf(arena: seq<MachineInstr>, live: seq<Handle>, h: Handle): (r: Option<Handle>)
    ensures r.Some? ==> r.value in live && r.value < |arena| && IsSpvIntrinsic(arena[r.value], spv_const_composite)
  {
    if h >= |arena| then None
    else
      var mi := arena[h];
      if TrackedConstant(mi).None? || TrackedConstant(mi).value.GlobalConst? || |mi.ops| <= 2 || !mi.ops[2].RegOp? then None
      else
        var src := DefIn(arena, live, mi.ops[2].reg);
        if src.Some? && IsSpvIntrinsic(arena[src.value], spv_const_composite) then src else None
  }

  /** ToEraseComposites: the composite behind every track whose constant was already registered, in order. */
  function DupComposites(arena: seq<MachineInstr>, live: seq<Handle>, tracks: seq<Handle>,
                         before: seq<map<Constant, Reg>>): seq<Handle>
    requires |before| == |tracks|
    decreases |tracks|
  {
    if tracks == [] then []
    else
      var n := |tracks| - 1;
      DupComposites(arena, live, tracks[..n], before[..n]) +
        if tracks[n] < |arena| && Resolved(arena[tracks[n]], before[n]).Some? && CompositeOf(arena, live, tracks[n]).Some?
        then [CompositeOf(arena, live, tracks[n]).value] else []
  }

  /** No handle is listed twice. */
  ghost predicate Distinct(s: seq<Handle>) {
    forall i, k :: 0 <= i < k < |s| ==> s[i] != s[k]
  }

  /** Distinct handles give distinct tracks. */
  lemma {:induction false} TracksDistinct(arena: seq<MachineInstr>, hs: seq<Handle>)
    requires Distinct(hs)
    ensures Distinct(Tracks(arena, hs))
    decreases |hs|
  {
    if hs != [] {
      var n := |hs| - 1;
      TracksDistinct(arena, hs[..n]);
      var t' := Tracks(arena, hs[..n]);
      assert hs[n] !in t' by {
        assert forall x :: x in t' ==> x in hs[..n];
      }
      var t := Tracks(arena, hs);
      assert t == t' + if hs[n] < |arena| && IsSpvIntrinsic(arena[hs[n]], spv_track_constant) then [hs[n]] else [];
      forall i, k | 0 <= i < k < |t|
        ensures t[i] != t[k]
      {
        if k == |t'| {
          assert t[k] == hs[n] && t[i] == t'[i] && t[i] in t';
        } else {
          assert t[i] == t'[i] && t[k] == t'[k];
        }
      }
    }
  }

  /** A live instruction that is no track leaves the track list as it is. */
  lemma TracksSkip(arena: seq<MachineInstr>, live: seq<Handle>, i: nat)
    requires i < |live| && !(live[i] < |arena| && IsSpvIntrinsic(arena[live[i]], spv_track_constant))
    ensures Tracks(arena, live[..i + 1]) == Tracks(arena, live[..i])
  {
    assert live[..i + 1][..i] == live[..i];
  }

  /** One link of the chain. */
  lemma ChainAt(arena: seq<MachineInstr>, tracks: seq<Handle>, start: map<Constant, Reg>,
                        before: seq<map<Constant, Reg>>, final: map<Constant, Reg>, j: nat)
    requires RegistryChain(arena, tracks, start, before, final) && j < |tracks|
    ensures tracks[j] < |arena| && TrackRegistered(arena[tracks[j]], before[j], if j + 1 < |tracks| then before[j + 1] else final)
  {
  }

  /** Meeting one more track extends the track list by it. */
  lemma TracksSnoc(arena: seq<MachineInstr>, live: seq<Handle>, i: nat)
    requires i < |live| && live[i] < |arena| && IsSpvIntrinsic(arena[live[i]], spv_track_constant)
    ensures Tracks(arena, live[..i]) + [live[i]] == Tracks(arena, live[..i + 1])
  {
    assert live[..i + 1][..i] == live[..i];
  }

  /** One more link, from the registry on reaching track h to the one after it. */
  lemma ChainSnoc(arena: seq<MachineInstr>, tracks: seq<Handle>, start: map<Constant, Reg>, before: seq<map<Constant, Reg>>,
                  mid: map<Constant, Reg>, h: Handle, after: map<Constant, Reg>)
    requires RegistryChain(arena, tracks, start, before, mid)
    requires h < |arena| && TrackRegistered(arena[h], mid, after)
    ensures RegistryChain(arena, tracks + [h], start, before + [mid], after)
  {
    var t2, b2 := tracks + [h], before + [mid];
    forall j | 0 <= j < |t2|
      ensures t2[j] < |arena| && TrackRegistered(arena[t2[j]], b2[j], if j + 1 < |t2| then b2[j + 1] else after)
    {
      if j < |tracks| {
        assert t2[j] == tracks[j] && b2[j] == before[j];
        var next := if j + 1 < |tracks| then before[j + 1] else mid;
        ChainAt(arena, tracks, start, before, mid, j);
        assert (if j + 1 < |t2| then b2[j + 1] else after) == next;
      } else {
        assert t2[j] == h && b2[j] == mid;
      }
    }
  }

  /** Meeting one more track extends both records by what that track resolves to. */
  lemma RecordStep(arena: seq<MachineInstr>, live: seq<Handle>, tracks: seq<Handle>, before: seq<map<Constant, Reg>>,
                   h: Handle, mid: map<Constant, Reg>)
    requires |before| == |tracks| && h < |arena|
    ensures Resolutions(arena, tracks + [h], before + [mid]) ==
      (if Resolved(arena[h], mid).Some? then Resolutions(arena, tracks, before)[h := Resolved(arena[h], mid).value]
       else Resolutions(arena, tracks, before))
    ensures DupComposites(arena, live, tracks + [h], before + [mid]) ==
      DupComposites(arena, live, tracks, before) +
      (if Resolved(arena[h], mid).Some? && CompositeOf(arena, live, h).Some? then [CompositeOf(arena, live, h).value] else [])
  {
    assert (tracks + [h])[..|tracks|] == tracks && (before + [mid])[..|tracks|] == before;
  }

  /** No registry key is lost from link k of the chain to its end. */
  lemma {:induction false} ChainKeysFrom(arena: seq<MachineInstr>, tracks: seq<Handle>, start: map<Constant, Reg>,
                                         before: seq<map<Constant, Reg>>, final: map<Constant, Reg>, k: nat)
    requires RegistryChain(arena, tracks, start, before, final) && k < |tracks|
    ensures before[k].Keys <= final.Keys
    decreases |tracks| - k
  {
    ChainAt(arena, tracks, start, before, final, k);
    if k + 1 < |tracks| {
      ChainKeysFrom(arena, tracks, start, before, final, k + 1);
    }
  }

  /** Every track's constant is registered once the first loop is done. */
  lemma ChainRegisters(arena: seq<MachineInstr>, tracks: seq<Handle>, start: map<Constant, Reg>,
                       before: seq<map<Constant, Reg>>, final: map<Constant, Reg>, j: nat)
    requires RegistryChain(arena, tracks, start, before, final) && j < |tracks|
    ensures tracks[j] < |arena| && TrackedConstant(arena[tracks[j]]).Some? &&
      TrackedConstant(arena[tracks[j]]).value in final
  {
    ChainAt(arena, tracks, start, before, final, j);
    if j + 1 < |tracks| {
      ChainKeysFrom(arena, tracks, start, before, final, j + 1);
    }
  }

  /** Registry keys only accumulate along the chain. */
  lemma {:induction false} ChainKeysBetween(arena: seq<MachineInstr>, tracks: seq<Handle>, start: map<Constant, Reg>,
                                            before: seq<map<Constant, Reg>>, final: map<Constant, Reg>, j: nat, k: nat)
    requires RegistryChain(arena, tracks, start, before, final) && j <= k < |tracks|
    ensures before[j].Keys <= before[k].Keys
    decreases k - j
  {
    if j < k {
      ChainAt(arena, tracks, start, before, final, j);
      ChainKeysBetween(arena, tracks, start, before, final, j + 1, k);
    }
  }

  /**
   * Deduplication: a later spv_track_constant of a constant an earlier one
   * already tracked is resolved, to the register the registry holds for that
   * constant when the later one is reached.
   */
  lemma DuplicateResolved(arena: seq<MachineInstr>, tracks: seq<Handle>, start: map<Constant, Reg>,
                          before: seq<map<Constant, Reg>>, final: map<Constant, Reg>, j: nat, k: nat)
    requires RegistryChain(arena, tracks, start, before, final) && Distinct(tracks) && j < k < |tracks|
    requires tracks[j] < |arena| && tracks[k] < |arena|
    requires TrackedConstant(arena[tracks[j]]) == TrackedConstant(arena[tracks[k]])
    ensures TrackedConstant(arena[tracks[k]]).Some?
    ensures var c := TrackedConstant(arena[tracks[k]]).value;
      c in before[k] && tracks[k] in Resolutions(arena, tracks, before) &&
      Resolutions(arena, tracks, before)[tracks[k]] == before[k][c]
  {
    ChainAt(arena, tracks, start, before, final, j);
    ChainKeysBetween(arena, tracks, start, before, final, j + 1, k);
    ResolutionsAt(arena, tracks, before, k);
  }

  /** The first loop's state after the first i live instructions. */
  ghost predicate Collected(arena: seq<MachineInstr>, live: seq<Handle>, i: nat, start: map<Constant, Reg>,
                            regs: map<Constant, Reg>, toErase: seq<Handle>, already: map<Handle, Reg>,
                            composites: seq<Handle>, before: seq<map<Constant, Reg>>) {
    i <= |live| && toErase == Tracks(arena, live[..i]) && RegistryChain(arena, toErase, start, before, regs) &&
    already == Resolutions(arena, toErase, before) && composites == DupComposites(arena, live, toErase, before)
  }

  lemma CollectSkip(arena: seq<MachineInstr>, live: seq<Handle>, i: nat, start: map<Constant, Reg>,
                    regs: map<Constant, Reg>, toErase: seq<Handle>, already: map<Handle, Reg>,
                    composites: seq<Handle>, before: seq<map<Constant, Reg>>)
    requires Collected(arena, live, i, start, regs, toErase, already, composites, before)
    requires i < |live| && !(live[i] < |arena| && IsSpvIntrinsic(arena[live[i]], spv_track_constant))
    ensures Collected(arena, live, i + 1, start, regs, toErase, already, composites, before)
  {
    TracksSkip(arena, live, i);
  }

  lemma CollectStep(arena: seq<MachineInstr>, live: seq<Handle>, i: nat, start: map<Constant, Reg>,
                    mid: map<Constant, Reg>, after: map<Constant, Reg>, toErase: seq<Handle>, already: map<Handle, Reg>,
                    composites: seq<Handle>, before: seq<map<Constant, Reg>>, resolved: Option<Reg>, composite: Option<Handle>)
    requires Collected(arena, live, i, start, mid, toErase, already, composites, before)
    requires i < |live| && live[i] < |arena| && IsSpvIntrinsic(arena[live[i]], spv_track_constant)
    requires TrackRegistered(arena[live[i]], mid, after) && resolved == Resolved(arena[live[i]], mid)
    requires composite == if resolved.Some? then CompositeOf(arena, live, live[i]) else None
    ensures Collected(arena, live, i + 1, start, after, toErase + [live[i]],
      if resolved.Some? then already[live[i] := resolved.value] else already,
      if composite.Some? then composites + [composite.value] else composites, before + [mid])
  {
    TracksSnoc(arena, live, i);
    ChainSnoc(arena, toErase, start, before, mid, live[i], after);
    RecordStep(arena, live, toErase, before, live[i], mid);
  }

  /** With no handle met twice, a track is resolved exactly when its constant was registered on arrival. */
  lemma {:induction false} ResolutionsAt(arena: seq<MachineInstr>, tracks: seq<Handle>, before: seq<map<Constant, Reg>>, j: nat)
    requires |before| == |tracks| && j < |tracks| && tracks[j] < |arena|
    requires Distinct(tracks)
    ensures tracks[j] in Resolutions(arena, tracks, before) <==> Resolved(arena[tracks[j]], before[j]).Some?
    ensures tracks[j] in Resolutions(arena, tracks, before) ==>
      Resolutions(arena, tracks, before)[tracks[j]] == Resolved(arena[tracks[j]], before[j]).value
    decreases |tracks|
  {
    var n := |tracks| - 1;
    if j < n {
      assert tracks[..n][j] == tracks[j] && before[..n][j] == before[j];
      ResolutionsAt(arena, tracks[..n], before[..n], j);
    } else {
      forall x | x in Resolutions(arena, tracks[..n], before[..n])
        ensures x in tracks[..n]
      {
        ResolutionsKeys(arena, tracks[..n], before[..n], x);
      }
    }
  }

  lemma {:induction false} ResolutionsKeys(arena: seq<MachineInstr>, tracks: seq<Handle>, before: seq<map<Constant, Reg>>, x: Handle)
    requires |before| == |tracks| && x in Resolutions(arena, tracks, before)
    ensures x in tracks
    decreases |tracks|
  {
    var n := |tracks| - 1;
    if x != tracks[n] {
      ResolutionsKeys(arena, tracks[..n], before[..n], x);
    }
  }

  // The second loop: every replaceRegWith in order, on the function as it stands then.

  /** The operand after renaming by every pair in order. */
  function RenameAllOp(op: MachineOperand, pairs: seq<(Reg, Reg)>): MachineOperand
    decreases |pairs|
  {
    if pairs == [] then op
    else RenameOp(RenameAllOp(op, pairs[..|pairs| - 1]), pairs[|pairs| - 1].0, pairs[|pairs| - 1].1)
  }

  /** The instruction after renaming by every pair in order. */
  function RenameAll(mi: MachineInstr, pairs: seq<(Reg, Reg)>): (r: MachineInstr)
    ensures r.opcode == mi.opcode && r.numDefs == mi.numDefs && |r.ops| == |mi.ops|
    ensures forall k :: 0 <= k < |mi.ops| ==> r.ops[k] == RenameAllOp(mi.ops[k], pairs)
    decreases |pairs|
  {
    if pairs == [] then mi
    else RenameInstr(RenameAll(mi, pairs[..|pairs| - 1]), pairs[|pairs| - 1].0, pairs[|pairs| - 1].1)
  }

  /** The register a track's operand 0 names, or 0 where it names none. */
  function ResultReg(mi: MachineInstr): Reg {
    if |mi.ops| > 0 && mi.ops[0].RegOp? then mi.ops[0].reg else 0
  }

  /** The register replacing the track's result: the one recorded in already, otherwise operand 2's. */
  function ChosenReg(mi: MachineInstr, h: Handle, already: map<Handle, Reg>): Reg {
    if h in already then already[h] else if |mi.ops| > 2 && mi.ops[2].RegOp? then mi.ops[2].reg else 0
  }

  /**
   * The replacements of the second loop in order: for each track, its result
   * register as it reads after the earlier replacements, and the register chosen for it.
   */
  function TrackRenames(arena: seq<MachineInstr>, tracks: seq<Handle>, already: map<Handle, Reg>): (r: seq<(Reg, Reg)>)
    ensures |r| == |tracks|
    decreases |tracks|
  {
    if tracks == [] then []
    else
      var n := |tracks| - 1;
      var prev := TrackRenames(arena, tracks[..n], already);
      var mi := if tracks[n] < |arena| then RenameAll(arena[tracks[n]], prev) else MachineInstr(COPY, [], 0);
      prev + [(ResultReg(mi), ChosenReg(mi, tracks[n], already))]
  }

  /** Every instruction of a reads as the one of a0 renamed by pairs. */
  ghost predicate Renamed(a0: seq<MachineInstr>, a: seq<MachineInstr>, pairs: seq<(Reg, Reg)>) {
    |a| == |a0| && forall x :: 0 <= x < |a0| ==> a[x] == RenameAll(a0[x], pairs)
  }

  /** One more replaceRegWith, for track k, extends the renaming by that track's pair. */
  lemma RenameStep(a0: seq<MachineInstr>, a1: seq<MachineInstr>, a2: seq<MachineInstr>, tracks: seq<Handle>,
                   already: map<Handle, Reg>, k: nat, chosen: Reg)
    requires k < |tracks| && tracks[k] < |a0| && Renamed(a0, a1, TrackRenames(a0, tracks[..k], already))
    requires var mi := a1[tracks[k]];
      |mi.ops| > 2 && mi.ops[0].RegOp? && mi.ops[2].RegOp? &&
      chosen == (if tracks[k] in already then already[tracks[k]] else mi.ops[2].reg) &&
      |a2| == |a1| && forall x :: 0 <= x < |a1| ==> a2[x] == RenameInstr(a1[x], mi.ops[0].reg, chosen)
    ensures Renamed(a0, a2, TrackRenames(a0, tracks[..k + 1], already))
  {
    assert tracks[..k + 1][..k] == tracks[..k];
    var prev := TrackRenames(a0, tracks[..k], already);
    var pairs := TrackRenames(a0, tracks[..k + 1], already);
    assert pairs == prev + [(a1[tracks[k]].ops[0].reg, chosen)];
    assert pairs[..|pairs| - 1] == prev;
  }

  /** The first pair renaming r, if any, gives its replacement. */
  function FirstTarget(pairs: seq<(Reg, Reg)>, r: Reg): (t: Option<Reg>)
    ensures t.Some? ==> exists i :: 0 <= i < |pairs| && pairs[i] == (r, t.value)
    decreases |pairs|
  {
    if pairs == [] then None
    else
      var t := FirstTarget(pairs[..|pairs| - 1], r);
      if t.Some? then t else if pairs[|pairs| - 1].0 == r then Some(pairs[|pairs| - 1].1) else None
  }

  /** No replacement register is itself replaced later or earlier (MIR is in SSA form). */
  ghost predicate TargetsNotSources(pairs: seq<(Reg, Reg)>) {
    forall i, j :: 0 <= i < |pairs| && 0 <= j < |pairs| ==> pairs[i].1 != pairs[j].0
  }

  /**
   * When no replacement is itself replaced, renaming in order sends each
   * register operand to the replacement of the first pair naming it, and no
   * replaced register is left.
   */
  lemma {:induction false} RenameAllFirst(op: MachineOperand, pairs: seq<(Reg, Reg)>)
    requires TargetsNotSources(pairs)
    ensures RenameAllOp(op, pairs) ==
      if op.RegOp? && FirstTarget(pairs, op.reg).Some? then RegOp(FirstTarget(pairs, op.reg).value, op.isDef) else op
    ensures forall j :: 0 <= j < |pairs| ==> !(RenameAllOp(op, pairs).RegOp? && RenameAllOp(op, pairs).reg == pairs[j].0)
    decreases |pairs|
  {
    if pairs != [] {
      var n := |pairs| - 1;
      var prev := pairs[..n];
      assert TargetsNotSources(prev) by {
        forall i, j | 0 <= i < |prev| && 0 <= j < |prev|
          ensures prev[i].1 != prev[j].0
        {
          assert prev[i] == pairs[i] && prev[j] == pairs[j];
        }
      }
      RenameAllFirst(op, prev);
      if op.RegOp? && FirstTarget(prev, op.reg).Some? {
        var i :| 0 <= i < |prev| && prev[i] == (op.reg, FirstTarget(prev, op.reg).value);
        assert prev[i] == pairs[i];
      }
      forall j | 0 <= j < |pairs|
        ensures !(RenameAllOp(op, pairs).RegOp? && RenameAllOp(op, pairs).reg == pairs[j].0)
      {
        if j < n {
          assert pairs[j] == prev[j];
        }
      }
    }
  }

  /** The replacements made for the first n tracks are the first n of all of them. */
  lemma {:induction false} TrackRenamesPrefix(arena: seq<MachineInstr>, tracks: seq<Handle>, already: map<Handle, Reg>, n: nat)
    requires n <= |tracks|
    ensures TrackRenames(arena, tracks[..n], already) == TrackRenames(arena, tracks, already)[..n]
    decreases |tracks|
  {
    if n < |tracks| {
      var m := |tracks| - 1;
      assert tracks[..m][..n] == tracks[..n];
      TrackRenamesPrefix(arena, tracks[..m], already, n);
    } else {
      assert tracks[..n] == tracks;
    }
  }

  /** A register some pair renames has a first replacement. */
  lemma {:induction false} FirstTargetFound(pairs: seq<(Reg, Reg)>, j: nat)
    requires j < |pairs|
    ensures FirstTarget(pairs, pairs[j].0).Some?
    decreases |pairs|
  {
    var n := |pairs| - 1;
    if j < n {
      assert pairs[..n][j] == pairs[j];
      FirstTargetFound(pairs[..n], j);
    }
  }

  lemma TargetsNotSourcesPrefix(pairs: seq<(Reg, Reg)>, n: nat)
    requires n <= |pairs| && TargetsNotSources(pairs)
    ensures TargetsNotSources(pairs[..n])
  {
    forall i, j | 0 <= i < n && 0 <= j < n
      ensures pairs[..n][i].1 != pairs[..n][j].0
    {
      assert pairs[..n][i] == pairs[i] && pairs[..n][j] == pairs[j];
    }
  }

  /** Under SSA, the register the loop replaces for track j is the result the track was built with. */
  lemma TrackRenamesSource(arena: seq<MachineInstr>, tracks: seq<Handle>, already: map<Handle, Reg>, j: nat)
    requires TargetsNotSources(TrackRenames(arena, tracks, already))
    requires j < |tracks| && tracks[j] < |arena| && |arena[tracks[j]].ops| > 0 && arena[tracks[j]].ops[0].RegOp?
    ensures TrackRenames(arena, tracks, already)[j].0 == arena[tracks[j]].ops[0].reg
  {
    var pairs := TrackRenames(arena, tracks, already);
    TrackRenamesPrefix(arena, tracks, already, j + 1);
    TrackRenamesPrefix(arena, tracks, already, j);
    assert tracks[..j + 1][..j] == tracks[..j];
    var prev := pairs[..j];
    TargetsNotSourcesPrefix(pairs, j);
    var op := arena[tracks[j]].ops[0];
    RenameAllFirst(op, prev);
    assert pairs[..j + 1][j] == pairs[j];
    assert forall i :: 0 <= i < |prev| ==> prev[i] == pairs[i];
  }

  /**
   * After the second loop, under SSA: no operand of any instruction names the
   * result register of a track any more, and an operand that named it now
   * names the register chosen for the first track with that result.
   */
  lemma TrackUsesReplaced(a0: seq<MachineInstr>, a: seq<MachineInstr>, tracks: seq<Handle>, already: map<Handle, Reg>,
                          j: nat, x: nat, k: nat)
    requires Renamed(a0, a, TrackRenames(a0, tracks, already)) && TargetsNotSources(TrackRenames(a0, tracks, already))
    requires j < |tracks| && tracks[j] < |a0| && |a0[tracks[j]].ops| > 0 && a0[tracks[j]].ops[0].RegOp?
    requires x < |a0| && k < |a0[x].ops|
    ensures var r := a0[tracks[j]].ops[0].reg;
      !(a[x].ops[k].RegOp? && a[x].ops[k].reg == r) && UsesIn(a[x], r) == 0
    ensures var r := a0[tracks[j]].ops[0].reg; var pairs := TrackRenames(a0, tracks, already);
      a0[x].ops[k].RegOp? && a0[x].ops[k].reg == r ==>
        FirstTarget(pairs, r).Some? && a[x].ops[k] == RegOp(FirstTarget(pairs, r).value, a0[x].ops[k].isDef)
  {
    var pairs := TrackRenames(a0, tracks, already);
    var r := a0[tracks[j]].ops[0].reg;
    TrackRenamesSource(a0, tracks, already, j);
    FirstTargetFound(pairs, j);
    forall k' | 0 <= k' < |a[x].ops|
      ensures a[x].ops[k'] != RegOp(r, false)
    {
      RenameAllFirst(a0[x].ops[k'], pairs);
    }
    RenameAllFirst(a0[x].ops[k], pairs);
  }

  /**
   * After the second loop, under SSA, no instruction names a replaced track
   * result any more, and every operand that named one now names the register
   * chosen for the first track with that result.
   */
  lemma TrackResultsReplaced(a0: seq<MachineInstr>, a: seq<MachineInstr>, pairs: seq<(Reg, Reg)>, x: nat, k: nat)
    requires Renamed(a0, a, pairs) && TargetsNotSources(pairs) && x < |a0| && k < |a0[x].ops|
    ensures forall j :: 0 <= j < |pairs| ==> !(a[x].ops[k].RegOp? && a[x].ops[k].reg == pairs[j].0)
    ensures a0[x].ops[k].RegOp? && FirstTarget(pairs, a0[x].ops[k].reg).Some? ==>
      a[x].ops[k] == RegOp(FirstTarget(pairs, a0[x].ops[k].reg).value, a0[x].ops[k].isDef)
    ensures !(a0[x].ops[k].RegOp? && FirstTarget(pairs, a0[x].ops[k].reg).Some?) ==> a[x].ops[k] == a0[x].ops[k]
  {
    RenameAllFirst(a0[x].ops[k], pairs);
  }

  /** The second loop's body: the track result gives way to the chosen register and the track goes. */
  method ReplaceAndErase(mf: MachineFunction, h: Handle, already: map<Handle, Reg>)
    returns (ok: bool, chosen: Reg)
    requires mf.Valid() && h < |mf.arena| && forall x :: x in already ==> already[x] < mf.nextReg
    modifies mf
    ensures mf.Valid() && |mf.arena| == |old(mf.arena)| && |mf.blocks| == |old(mf.blocks)|
    ensures mf.nextReg == old(mf.nextReg) && mf.regLLT == old(mf.regLLT) && mf.regClass == old(mf.regClass)
    ensures ok ==> var mi := old(mf.arena)[h];
      |mi.ops| > 2 && mi.ops[0].RegOp? && mi.ops[2].RegOp? &&
      chosen == (if h in already then already[h] else mi.ops[2].reg) &&
      (forall x :: 0 <= x < |mf.arena| ==> mf.arena[x] == RenameInstr(old(mf.arena)[x], mi.ops[0].reg, chosen)) &&
      (forall b :: 0 <= b < |mf.blocks| ==> mf.blocks[b] == RemoveHandle(old(mf.blocks)[b], h))
    ensures !ok ==> mf.arena == old(mf.arena) && mf.blocks == old(mf.blocks)
  {
    var mi := mf.arena[h];
    chosen := 0;
    if |mi.ops| <= 2 || !mi.ops[0].RegOp? || !mi.ops[2].RegOp? {
      ok := false;
      return;
    }
    chosen := if h in already then already[h] else mi.ops[2].reg;
    mf.ReplaceRegWith(mi.ops[0].reg, chosen);
    mf.EraseFromParent(h);
    ok := true;
  }

  /** Handle h is listed by none of the blocks. */
  ghost predicate Gone(bs: seq<seq<Handle>>, h: Handle) {
    forall b :: 0 <= b < |bs| ==> h !in bs[b]
  }

  lemma {:induction false} GoneNotLive(bs: seq<seq<Handle>>, h: Handle)
    requires Gone(bs, h)
    ensures h !in Flatten(bs)
  {
    if h in Flatten(bs) {
      FlattenIn(bs, h);
    }
  }

  /** Erases each listed instruction from its block; the arena and everything else stay. */
  method EraseAll(mf: MachineFunction, hs: seq<Handle>)
    requires mf.Valid()
    modifies mf
    ensures mf.Valid() && mf.arena == old(mf.arena) && |mf.blocks| == |old(mf.blocks)|
    ensures mf.nextReg == old(mf.nextReg) && mf.regLLT == old(mf.regLLT) && mf.regClass == old(mf.regClass)
    ensures forall x :: x in hs ==> Gone(mf.blocks, x)
    ensures forall b, x :: 0 <= b < |mf.blocks| && x in old(mf.blocks)[b] && x !in hs ==> x in mf.blocks[b]
    ensures forall b, x :: 0 <= b < |mf.blocks| && x in mf.blocks[b] ==> x in old(mf.blocks)[b]
  {
    var k := 0;
    while k < |hs|
      invariant k <= |hs| && mf.Valid() && mf.arena == old(mf.arena) && |mf.blocks| == |old(mf.blocks)|
      invariant mf.nextReg == old(mf.nextReg) && mf.regLLT == old(mf.regLLT) && mf.regClass == old(mf.regClass)
      invariant forall j :: 0 <= j < k ==> Gone(mf.blocks, hs[j])
      invariant forall b, x :: 0 <= b < |mf.blocks| && x in old(mf.blocks)[b] && x !in hs ==> x in mf.blocks[b]
      invariant forall b, x :: 0 <= b < |mf.blocks| && x in mf.blocks[b] ==> x in old(mf.blocks)[b]
    {
      mf.EraseFromParent(hs[k]);
      k := k + 1;
    }
    forall x | x in hs
      ensures Gone(mf.blocks, x)
    {
      var j :| 0 <= j < |hs| && hs[j] == x;
    }
  }

  /** The first loop's body for live instruction i. */
  method CollectOne(mf: MachineFunction, gr: GlobalRegistry, live: seq<Handle>, i: nat, ghost start: map<Constant, Reg>,
                    toErase: seq<Handle>, already: map<Handle, Reg>, composites: seq<Handle>,
                    ghost before: seq<map<Constant, Reg>>)
    returns (ok: bool, toErase': seq<Handle>, already': map<Handle, Reg>, composites': seq<Handle>,
             ghost before': seq<map<Constant, Reg>>)
    requires mf.Valid() && RegsUnder(gr.constRegs, mf.nextReg) && live == mf.Live() && i < |live|
    requires forall x :: x in already ==> already[x] < mf.nextReg
    requires forall x :: x in toErase ==> x < |mf.arena|
    requires Collected(mf.arena, live, i, start, gr.constRegs, toErase, already, composites, before)
    modifies gr
    ensures RegsUnder(gr.constRegs, mf.nextReg) && gr.vregTypes == old(gr.vregTypes)
    ensures forall x :: x in already' ==> already'[x] < mf.nextReg
    ensures forall x :: x in toErase' ==> x < |mf.arena|
    ensures ok ==> Collected(mf.arena, live, i + 1, start, gr.constRegs, toErase', already', composites', before')
  {
    toErase', already', composites', before' := toErase, already, composites, before;
    var h := live[i];
    LiveBelow(mf.blocks, |mf.arena|, h);
    if !IsSpvIntrinsic(mf.arena[h], spv_track_constant) {
      CollectSkip(mf.arena, live, i, start, gr.constRegs, toErase, already, composites, before);
      ok := true;
      return;
    }
    ghost var mid := gr.constRegs;
    var resolved, composite;
    ok, resolved, composite := TrackOne(mf, gr, h);
    if !ok {
      return;
    }
    assert TrackRegistered(mf.arena[h], mid, gr.constRegs);
    assert resolved == Resolved(mf.arena[h], mid);
    CollectStep(mf.arena, live, i, start, mid, gr.constRegs, toErase, already, composites, before, resolved, composite);
    toErase', before' := toErase + [h], before + [mid];
    if resolved.Some? {
      already' := already[h := resolved.value];
    }
    if composite.Some? {
      composites' := composites + [composite.value];
    }
  }

  /** The first loop: record every spv_track_constant of the function, in order. */
  method CollectTracked(mf: MachineFunction, gr: GlobalRegistry)
    returns (ok: bool, toErase: seq<Handle>, already: map<Handle, Reg>, composites: seq<Handle>,
             ghost before: seq<map<Constant, Reg>>)
    requires mf.Valid() && RegsUnder(gr.constRegs, mf.nextReg)
    modifies gr
    ensures RegsUnder(gr.constRegs, mf.nextReg) && gr.vregTypes == old(gr.vregTypes)
    ensures forall x :: x in already ==> already[x] < mf.nextReg
    ensures forall x :: x in toErase ==> x < |mf.arena|
    ensures ok ==> forall h :: h in mf.Live() && h < |mf.arena| && IsSpvIntrinsic(mf.arena[h], spv_track_constant) ==>
      h in toErase && TrackedConstant(mf.arena[h]).Some? && TrackedConstant(mf.arena[h]).value in gr.constRegs
    ensures ok ==> toErase == Tracks(mf.arena, mf.Live())
    ensures ok ==> RegistryChain(mf.arena, toErase, old(gr.constRegs), before, gr.constRegs)
    ensures ok ==> already == Resolutions(mf.arena, toErase, before)
    ensures ok ==> composites == DupComposites(mf.arena, mf.Live(), toErase, before)
  {
    var live := mf.Live();
    toErase, already, composites, before := [], map[], [], [];
    var i := 0;
    while i < |live|
      invariant i <= |live|
      invariant RegsUnder(gr.constRegs, mf.nextReg) && gr.vregTypes == old(gr.vregTypes)
      invariant forall x :: x in already ==> already[x] < mf.nextReg
      invariant forall x :: x in toErase ==> x < |mf.arena|
      invariant Collected(mf.arena, live, i, old(gr.constRegs), gr.constRegs, toErase, already, composites, before)
    {
      ok, toErase, already, composites, before :=
        CollectOne(mf, gr, live, i, old(gr.constRegs), toErase, already, composites, before);
      if !ok {
        return;
      }
      i := i + 1;
    }
    assert live[..i] == live;
    ok := true;
    forall h | h in live && h < |mf.arena| && IsSpvIntrinsic(mf.arena[h], spv_track_constant)
      ensures h in toErase && TrackedConstant(mf.arena[h]).Some? && TrackedConstant(mf.arena[h]).value in gr.constRegs
    {
      var j :| 0 <= j < |toErase| && toErase[j] == h;
      ChainRegisters(mf.arena, toErase, old(gr.constRegs), before, gr.constRegs, j);
    }
  }

  /** The blocks after the first k tracks are erased: those gone, nothing else removed, nothing added. */
  ghost predicate Erased(b0: seq<seq<Handle>>, bs: seq<seq<Handle>>, tracks: seq<Handle>, k: nat)
    requires k <= |tracks|
  {
    |bs| == |b0| &&
    (forall j :: 0 <= j < k ==> Gone(bs, tracks[j])) &&
    (forall b, x :: 0 <= b < |bs| && x in b0[b] && x !in tracks[..k] ==> x in bs[b]) &&
    (forall b, x :: 0 <= b < |bs| && x in bs[b] ==> x in b0[b])
  }

  lemma ErasedStep(b0: seq<seq<Handle>>, bs1: seq<seq<Handle>>, bs2: seq<seq<Handle>>, tracks: seq<Handle>, k: nat)
    requires k < |tracks| && Erased(b0, bs1, tracks, k)
    requires |bs2| == |bs1| && forall b :: 0 <= b < |bs1| ==> bs2[b] == RemoveHandle(bs1[b], tracks[k])
    ensures Erased(b0, bs2, tracks, k + 1)
  {
    assert tracks[..k + 1] == tracks[..k] + [tracks[k]];
    forall j | 0 <= j < k + 1
      ensures Gone(bs2, tracks[j])
    {
      if j < k {
        assert Gone(bs1, tracks[j]);
      }
    }
    forall b, x | 0 <= b < |bs2| && x in b0[b] && x !in tracks[..k + 1]
      ensures x in bs2[b]
    {
      assert x in bs1[b];
    }
    forall b, x | 0 <= b < |bs2| && x in bs2[b]
      ensures x in b0[b]
    {
      assert x in bs1[b];
    }
  }

  /** The second loop's state after the first k tracks: renamed in order and erased. */
  ghost predicate Replaced(a0: seq<MachineInstr>, b0: seq<seq<Handle>>, a: seq<MachineInstr>, bs: seq<seq<Handle>>,
                           tracks: seq<Handle>, already: map<Handle, Reg>, k: nat) {
    k <= |tracks| && Renamed(a0, a, TrackRenames(a0, tracks[..k], already)) && Erased(b0, bs, tracks, k)
  }

  lemma ReplacedStep(a0: seq<MachineInstr>, b0: seq<seq<Handle>>, a1: seq<MachineInstr>, bs1: seq<seq<Handle>>,
                     a2: seq<MachineInstr>, bs2: seq<seq<Handle>>, tracks: seq<Handle>, already: map<Handle, Reg>,
                     k: nat, chosen: Reg)
    requires Replaced(a0, b0, a1, bs1, tracks, already, k) && k < |tracks| && tracks[k] < |a0|
    requires var mi := a1[tracks[k]];
      |mi.ops| > 2 && mi.ops[0].RegOp? && mi.ops[2].RegOp? &&
      chosen == (if tracks[k] in already then already[tracks[k]] else mi.ops[2].reg) &&
      |a2| == |a1| && forall x :: 0 <= x < |a1| ==> a2[x] == RenameInstr(a1[x], mi.ops[0].reg, chosen)
    requires |bs2| == |bs1| && forall b :: 0 <= b < |bs1| ==> bs2[b] == RemoveHandle(bs1[b], tracks[k])
    ensures Replaced(a0, b0, a2, bs2, tracks, already, k + 1)
  {
    RenameStep(a0, a1, a2, tracks, already, k, chosen);
    ErasedStep(b0, bs1, bs2, tracks, k);
  }

  /** The second loop: each track's result is replaced by its chosen register, then the track is erased. */
  method ReplaceTracks(mf: MachineFunction, tracks: seq<Handle>, already: map<Handle, Reg>) returns (ok: bool)
    requires mf.Valid() && forall x :: x in already ==> already[x] < mf.nextReg
    requires forall x :: x in tracks ==> x < |mf.arena|
    modifies mf
    ensures mf.Valid() && |mf.arena| == |old(mf.arena)| && mf.nextReg == old(mf.nextReg)
    ensures mf.regLLT == old(mf.regLLT) && mf.regClass == old(mf.regClass)
    ensures ok ==> Replaced(old(mf.arena), old(mf.blocks), mf.arena, mf.blocks, tracks, already, |tracks|)
    ensures |mf.blocks| == |old(mf.blocks)|
    ensures forall b, x :: 0 <= b < |mf.blocks| && x in mf.blocks[b] ==> x in old(mf.blocks)[b]
  {
    var k := 0;
    assert tracks[..0] == [];
    while k < |tracks|
      invariant mf.Valid() && |mf.arena| == |old(mf.arena)| && mf.nextReg == old(mf.nextReg)
      invariant mf.regLLT == old(mf.regLLT) && mf.regClass == old(mf.regClass)
      invariant Replaced(old(mf.arena), old(mf.blocks), mf.arena, mf.blocks, tracks, already, k)
    {
      var chosen;
      assert tracks[k] in tracks;
      ghost var a1, bs1 := mf.arena, mf.blocks;
      ok, chosen := ReplaceAndErase(mf, tracks[k], already);
      if !ok {
        return;
      }
      ReplacedStep(old(mf.arena), old(mf.blocks), a1, bs1, mf.arena, mf.blocks, tracks, already, k, chosen);
      k := k + 1;
    }
    ok := true;
  }

  /**
   * addConstantsToTrack: every spv_track_constant is erased and its result
   * register replaced by the register chosen for its constant, the first one
   * registered for that constant or global; duplicate composites go too.
   * The tracks met and the registry on reaching each are returned as ghosts.
   */
  method AddConstantsToTrack(mf: MachineFunction, gr: GlobalRegistry)
    returns (ok: bool, ghost tracks: seq<Handle>, ghost before: seq<map<Constant, Reg>>)
    requires mf.Valid() && RegsUnder(gr.constRegs, mf.nextReg)
    modifies mf, gr
    ensures mf.Valid() && RegsUnder(gr.constRegs, mf.nextReg) && gr.vregTypes == old(gr.vregTypes)
    ensures |mf.arena| == |old(mf.arena)| && |mf.blocks| == |old(mf.blocks)| && mf.nextReg == old(mf.nextReg)
    ensures mf.regLLT == old(mf.regLLT) && mf.regClass == old(mf.regClass)
    ensures ok ==> forall h :: h in old(mf.Live()) && h < |old(mf.arena)| && IsSpvIntrinsic(old(mf.arena)[h], spv_track_constant) ==>
      h !in mf.Live() && TrackedConstant(old(mf.arena)[h]).Some? &&
      TrackedConstant(old(mf.arena)[h]).value in gr.constRegs
    ensures ok ==> tracks == Tracks(old(mf.arena), old(mf.Live())) && |before| == |tracks|
    ensures ok ==> RegistryChain(old(mf.arena), tracks, old(gr.constRegs), before, gr.constRegs)
    ensures ok ==> Renamed(old(mf.arena), mf.arena,
      TrackRenames(old(mf.arena), tracks, Resolutions(old(mf.arena), tracks, before)))
    ensures ok ==> forall x :: x in tracks ==> Gone(mf.blocks, x)
    ensures ok ==> forall x :: x in DupComposites(old(mf.arena), old(mf.Live()), tracks, before) ==> Gone(mf.blocks, x)
    ensures ok ==> forall b, x ::
      0 <= b < |mf.blocks| && x in old(mf.blocks)[b] && x !in tracks &&
      x !in DupComposites(old(mf.arena), old(mf.Live()), tracks, before)
      ==> x in mf.blocks[b]
    ensures forall b, x :: 0 <= b < |mf.blocks| && x in mf.blocks[b] ==> x in old(mf.blocks)[b]
  {
    var toErase, already, composites;
    ok, toErase, already, composites, before := CollectTracked(mf, gr);
    tracks := toErase;
    if !ok {
      return;
    }
    ok := ReplaceTracks(mf, toErase, already);
    if !ok {
      return;
    }
    assert toErase[..|toErase|] == toErase;
    ghost var erased := mf.blocks;
    EraseAll(mf, composites);
    forall b, x | 0 <= b < |mf.blocks| && x in old(mf.blocks)[b] && x !in tracks && x !in composites
      ensures x in mf.blocks[b]
    {
      assert x in erased[b];
    }
    forall h | h in old(mf.Live()) && h < |old(mf.arena)| && IsSpvIntrinsic(old(mf.arena)[h], spv_track_constant)
      ensures h !in mf.Live()
    {
      var j :| 0 <= j < |toErase| && toErase[j] == h;
      assert Gone(erased, h);
      GoneNotLive(mf.blocks, h);
    }
    forall x | x in tracks
      ensures Gone(mf.blocks, x)
    {
      var j :| 0 <= j < |toErase| && toErase[j] == x;
      assert Gone(erased, x);
    }
  }

  // ---------------------------------------------------------------------------
  // foldConstantsIntoIntrinsics
  // ---------------------------------------------------------------------------

  /** IntrsWConstsToFold: for spv_assign_name, constants are folded from 2 operands past the defs. */
  function FoldOffset(id: Option<Intrinsic>): Option<nat> {
    if id == Some(spv_assign_name) then Some(2) else None
  }

  /** The first folding position of an intrinsic that folds constants. */
  function FoldPos(mi: MachineInstr): Option<nat> {
    if mi.opcode == G_INTRINSIC_W_SIDE_EFFECTS && FoldOffset(IntrinsicID(mi)).Some? then
      Some(mi.numDefs + FoldOffset(IntrinsicID(mi)).value)
    else None
  }

  lemma FoldPosOfAssignName(mi: MachineInstr)
    ensures FoldPos(mi).Some? <==> IsSpvIntrinsic(mi, spv_assign_name)
    ensures FoldPos(mi).Some? ==> FoldPos(mi).value == mi.numDefs + 2
  {
  }

  /** RemoveOperand(pos) followed by addOperand(Imm(value)). */
  function Folded(ops: seq<MachineOperand>, pos: nat, value: nat): seq<MachineOperand>
    requires pos < |ops|
  {
    ops[..pos] + ops[pos + 1..] + [ImmOp(value)]
  }

  /** The loop stops once the folding position holds something other than a register. */
  predicate FoldDone(mi: MachineInstr, pos: nat) {
    pos < |mi.ops| && !mi.ops[pos].RegOp?
  }

  /** Number of register operands in a list. */
  function RegCount(ops: seq<MachineOperand>): nat {
    if ops == [] then 0 else (if ops[0].RegOp? then 1 else 0) + RegCount(ops[1..])
  }

  lemma {:induction false} RegCountImm(xs: seq<MachineOperand>, v: nat)
    ensures RegCount(xs + [ImmOp(v)]) == RegCount(xs)
  {
    if xs != [] {
      assert (xs + [ImmOp(v)])[1..] == xs[1..] + [ImmOp(v)];
      RegCountImm(xs[1..], v);
    }
  }

  /**
   * One fold keeps the operand count and the operands before pos, moves the
   * ones after pos down by one, and leaves one register fewer from pos on.
   */
  lemma FoldedShape(ops: seq<MachineOperand>, pos: nat, value: nat)
    requires pos < |ops| && ops[pos].RegOp?
    ensures |Folded(ops, pos, value)| == |ops|
    ensures Folded(ops, pos, value)[..pos] == ops[..pos]
    ensures forall k :: pos <= k < |ops| - 1 ==> Folded(ops, pos, value)[k] == ops[k + 1]
    ensures Folded(ops, pos, value)[|ops| - 1] == ImmOp(value)
    ensures RegCount(Folded(ops, pos, value)[pos..]) < RegCount(ops[pos..])
  {
    var f := Folded(ops, pos, value);
    assert f[pos..] == ops[pos + 1..] + [ImmOp(value)];
    RegCountImm(ops[pos + 1..], value);
    assert ops[pos..][1..] == ops[pos + 1..];
  }

  /** Folding never adds a use of any register. */
  lemma FoldedUses(mi: MachineInstr, pos: nat, value: nat, r: Reg)
    requires pos < |mi.ops|
    ensures UsesIn(mi.(ops := Folded(mi.ops, pos, value)), r) <= UsesIn(mi, r)
  {
    assert mi.ops == mi.ops[..pos] + [mi.ops[pos]] + mi.ops[pos + 1..];
  }

  /** Folding into a[h] adds no use of any register among the live instructions. */
  lemma FoldNoNewUses(a: seq<MachineInstr>, live: seq<Handle>, h: Handle, pos: nat, v: nat)
    requires h < |a| && pos < |a[h].ops|
    ensures forall r :: UseCount(a[h := a[h].(ops := Folded(a[h].ops, pos, v))], live, r) <= UseCount(a, live, r)
  {
    forall r
      ensures UseCount(a[h := a[h].(ops := Folded(a[h].ops, pos, v))], live, r) <= UseCount(a, live, r)
    {
      FoldedUses(a[h], pos, v, r);
      UseCountShrinks(a, live, h, a[h].(ops := Folded(a[h].ops, pos, v)), r);
    }
  }

  lemma {:induction false} UseCountShrinks(arena: seq<MachineInstr>, hs: seq<Handle>, h: Handle, mi: MachineInstr, r: Reg)
    requires h < |arena| && UsesIn(mi, r) <= UsesIn(arena[h], r)
    ensures UseCount(arena[h := mi], hs, r) <= UseCount(arena, hs, r)
  {
    if hs != [] {
      UseCountShrinks(arena, hs[1..], h, mi, r);
    }
  }

  /** Operands kept unchanged in kind: the intrinsic id and the definitions stay. */
  ghost predicate SameKind(a: MachineInstr, b: MachineInstr) {
    a.opcode == b.opcode && a.numDefs == b.numDefs && IntrinsicID(a) == IntrinsicID(b) && |a.ops| == |b.ops|
  }

  /** A G_CONSTANT whose result register has no use left among the live instructions. */
  ghost predicate Unused(arena: seq<MachineInstr>, live: seq<Handle>, e: Handle) {
    e < |arena| && arena[e].opcode == G_CONSTANT && |arena[e].ops| > 0 && arena[e].ops[0].RegOp? &&
    UseCount(arena, live, arena[e].ops[0].reg) == 0
  }

  /** The immediates that the folded constants' values become, in order. */
  function ImmOps(vals: seq<nat>): seq<MachineOperand> {
    seq(|vals|, j requires 0 <= j < |vals| => ImmOp(vals[j]))
  }

  /**
   * mi' is mi after |vals| folds at pos: the registers that stood at
   * pos .. pos + |vals| - 1 are gone and the values vals are appended in order.
   */
  ghost predicate FoldedWith(mi: MachineInstr, mi': MachineInstr, pos: nat, vals: seq<nat>) {
    pos + |vals| <= |mi.ops| &&
    (forall j :: pos <= j < pos + |vals| ==> mi.ops[j].RegOp?) &&
    mi' == mi.(ops := mi.ops[..pos] + mi.ops[pos + |vals|..] + ImmOps(vals))
  }

  /** A live G_CONSTANT of a defines r, and its immediate is v. */
  ghost predicate ConstDefines(a: seq<MachineInstr>, live: seq<Handle>, r: Reg, v: nat) {
    exists d :: d in live && d < |a| && a[d].opcode == G_CONSTANT && Defines(a[d], r) &&
      |a[d].ops| > 1 && a[d].ops[1].CImmOp? && a[d].ops[1].value == v
  }

  /**
   * mi is the spv_assign_name a[h] folded |vals| times, and vals[j] is the
   * value of the G_CONSTANT that defines the j-th register folded.
   */
  ghost predicate FoldedAt(a: seq<MachineInstr>, live: seq<Handle>, mi: MachineInstr, h: Handle, vals: seq<nat>)
    requires h < |a| && FoldPos(a[h]).Some?
  {
    var pos := FoldPos(a[h]).value;
    FoldedWith(a[h], mi, pos, vals) &&
    forall j :: 0 <= j < |vals| ==> ConstDefines(a, live, a[h].ops[pos + j].reg, vals[j])
  }

  /** One more fold at pos extends the record by the register that was at pos and the value v. */
  lemma FoldedWithStep(mi: MachineInstr, cur: MachineInstr, pos: nat, vals: seq<nat>, v: nat)
    requires FoldedWith(mi, cur, pos, vals) && pos < |cur.ops| && cur.ops[pos].RegOp?
    ensures pos + |vals| < |mi.ops| && cur.ops[pos] == mi.ops[pos + |vals|]
    ensures FoldedWith(mi, cur.(ops := Folded(cur.ops, pos, v)), pos, vals + [v])
  {
    var n := pos + |vals|;
    assert cur.ops[pos] == mi.ops[n];
    assert cur.ops[..pos] == mi.ops[..pos];
    assert cur.ops[pos + 1..] == mi.ops[n + 1..] + ImmOps(vals);
    assert ImmOps(vals + [v]) == ImmOps(vals) + [ImmOp(v)];
  }

  /** Folding the register at pos, defined by a constant of value v, extends FoldedAt by v. */
  lemma FoldedAtStep(a0: seq<MachineInstr>, live: seq<Handle>, cur: MachineInstr, h: Handle, pos: nat, vals: seq<nat>, v: nat)
    requires h < |a0| && FoldPos(a0[h]) == Some(pos) && FoldedAt(a0, live, cur, h, vals)
    requires pos < |cur.ops| && cur.ops[pos].RegOp? && ConstDefines(a0, live, cur.ops[pos].reg, v)
    ensures FoldedAt(a0, live, cur.(ops := Folded(cur.ops, pos, v)), h, vals + [v])
  {
    FoldedWithStep(a0[h], cur, pos, vals, v);
    var vs := vals + [v];
    forall j | 0 <= j < |vs|
      ensures ConstDefines(a0, live, a0[h].ops[pos + j].reg, vs[j])
    {
      if j < |vals| {
        assert vs[j] == vals[j];
      }
    }
  }

  /** FoldedAt against the arena a1 of the loop, where h itself is still unchanged, holds against a0. */
  lemma FoldedAtBack(a0: seq<MachineInstr>, a1: seq<MachineInstr>, live: seq<Handle>, folds: map<Handle, seq<nat>>,
                     h: Handle, mi: MachineInstr, vals: seq<nat>)
    requires |a1| == |a0| && forall x :: 0 <= x < |a1| ==> SameKind(a1[x], a0[x])
    requires forall x :: 0 <= x < |a1| && x !in folds ==> a1[x] == a0[x]
    requires forall x :: x in folds && x < |a0| ==> FoldPos(a0[x]).Some?
    requires h !in folds && h < |a1| && FoldPos(a1[h]).Some? && FoldedAt(a1, live, mi, h, vals)
    ensures FoldedAt(a0, live, mi, h, vals)
  {
    assert a1[h] == a0[h];
    var pos := FoldPos(a0[h]).value;
    forall j | 0 <= j < |vals|
      ensures ConstDefines(a0, live, a0[h].ops[pos + j].reg, vals[j])
    {
      assert ConstDefines(a1, live, a1[h].ops[pos + j].reg, vals[j]);
      ConstDefinesBack(a0, a1, live, folds, a1[h].ops[pos + j].reg, vals[j]);
    }
  }

  /** Nothing but folded spv_assign_names changed, so a constant of a1 was the same constant in a0. */
  lemma ConstDefinesBack(a0: seq<MachineInstr>, a1: seq<MachineInstr>, live: seq<Handle>, folds: map<Handle, seq<nat>>, r: Reg, v: nat)
    requires |a1| == |a0| && forall x :: 0 <= x < |a1| ==> SameKind(a1[x], a0[x])
    requires forall x :: 0 <= x < |a1| && x !in folds ==> a1[x] == a0[x]
    requires forall x :: x in folds && x < |a0| ==> FoldPos(a0[x]).Some?
    requires ConstDefines(a1, live, r, v)
    ensures ConstDefines(a0, live, r, v)
  {
    var d :| d in live && d < |a1| && a1[d].opcode == G_CONSTANT && Defines(a1[d], r) &&
      |a1[d].ops| > 1 && a1[d].ops[1].CImmOp? && a1[d].ops[1].value == v;
    assert SameKind(a1[d], a0[d]);
    assert d !in folds;
  }

  /**
   * One iteration of the while loop: the register at pos is defined by a
   * G_CONSTANT; it is removed and the constant's zero-extended value appended.
   * `erasable` reports that the constant's result has no use left.
   */
  method FoldStep(mf: MachineFunction, h: Handle, pos: nat) returns (ok: bool, constMI: Handle, erasable: bool)
    requires mf.Valid() && h < |mf.arena| && pos < |mf.arena[h].ops| && mf.arena[h].ops[pos].RegOp?
    requires mf.arena[h].opcode == G_INTRINSIC_W_SIDE_EFFECTS
    modifies mf
    ensures mf.Valid() && mf.blocks == old(mf.blocks) && mf.nextReg == old(mf.nextReg)
    ensures mf.regLLT == old(mf.regLLT) && mf.regClass == old(mf.regClass) && |mf.arena| == |old(mf.arena)|
    ensures !ok ==> mf.arena == old(mf.arena)
    ensures ok ==> var mi := old(mf.arena)[h];
      DefIn(old(mf.arena), old(mf.Live()), mi.ops[pos].reg) == Some(constMI) &&
      var c := old(mf.arena)[constMI];
      c.opcode == G_CONSTANT && |c.ops| > 1 && c.ops[0].RegOp? && c.ops[1].CImmOp? &&
      mf.arena == old(mf.arena)[h := mi.(ops := Folded(mi.ops, pos, c.ops[1].value))]
    ensures ok && erasable ==> UseCount(mf.arena, mf.Live(), mf.arena[constMI].ops[0].reg) == 0
  {
    var mi := mf.arena[h];
    constMI, erasable := 0, false;
    var d := DefIn(mf.arena, mf.Live(), mi.ops[pos].reg);
    if d.None? {
      ok := false;
      return;
    }
    constMI := d.value;
    var c := mf.arena[constMI];
    if c.opcode != G_CONSTANT || |c.ops| < 2 || !c.ops[0].RegOp? || !c.ops[1].CImmOp? {
      ok := false;
      return;
    }
    var folded := Folded(mi.ops, pos, c.ops[1].value);
    FoldedShape(mi.ops, pos, c.ops[1].value);
    forall k | 0 <= k < |folded| && folded[k].RegOp?
      ensures folded[k].reg < mf.nextReg
    {
      if k < pos {
        assert folded[k] == folded[..pos][k];
      }
    }
    mf.SetInstr(h, mi.(ops := folded));
    erasable := UseCount(mf.arena, mf.Live(), c.ops[0].reg) == 0;
    ok := true;
  }

  /**
   * The while loop on one spv_assign_name: registers at the folding position
   * are folded until a non-register is there; the operand count is unchanged.
   * vals records the constants' values in folding order, and the constants
   * left without uses are returned for erasure.
   */
  method FoldInstr(mf: MachineFunction, h: Handle) returns (ok: bool, toErase: seq<Handle>, ghost vals: seq<nat>)
    requires mf.Valid() && h < |mf.arena| && FoldPos(mf.arena[h]).Some?
    modifies mf
    ensures mf.Valid() && mf.blocks == old(mf.blocks) && mf.nextReg == old(mf.nextReg)
    ensures mf.regLLT == old(mf.regLLT) && mf.regClass == old(mf.regClass) && |mf.arena| == |old(mf.arena)|
    ensures SameKind(mf.arena[h], old(mf.arena)[h])
    ensures forall x :: 0 <= x < |mf.arena| && x != h ==> mf.arena[x] == old(mf.arena)[x]
    ensures forall r :: UseCount(mf.arena, mf.Live(), r) <= UseCount(old(mf.arena), mf.Live(), r)
    ensures ok ==> FoldDone(mf.arena[h], FoldPos(mf.arena[h]).value)
    ensures forall e :: e in toErase ==> e != h && Unused(mf.arena, mf.Live(), e)
    ensures FoldPos(old(mf.arena)[h]).value < |old(mf.arena)[h].ops| ==>
      FoldedAt(old(mf.arena), mf.Live(), mf.arena[h], h, vals)
    ensures FoldPos(old(mf.arena)[h]).value >= |old(mf.arena)[h].ops| ==>
      !ok && mf.arena == old(mf.arena) && toErase == []
    ensures FoldDone(old(mf.arena)[h], FoldPos(old(mf.arena)[h]).value) ==> ok && vals == []
  {
    var pos := FoldPos(mf.arena[h]).value;
    toErase, vals := [], [];
    if pos >= |mf.arena[h].ops| {
      ok := false;
      return;
    }
    assert mf.arena[h].ops[..pos] + mf.arena[h].ops[pos..] + ImmOps([]) == mf.arena[h].ops;
    while mf.arena[h].ops[pos].RegOp?
      invariant mf.Valid() && mf.blocks == old(mf.blocks) && mf.nextReg == old(mf.nextReg)
      invariant mf.regLLT == old(mf.regLLT) && mf.regClass == old(mf.regClass)
      invariant FoldProgress(old(mf.arena), mf.arena, mf.Live(), h, pos, vals, toErase)
      decreases RegCount(mf.arena[h].ops[pos..])
    {
      var before := mf.arena;
      ghost var liveBefore := mf.Live();
      var stepOk, constMI, erasable := FoldStep(mf, h, pos);
      if !stepOk {
        assert mf.arena == before;
        assert mf.Live() == liveBefore;
        ok := false;
        return;
      }
      FoldProgressStep(old(mf.arena), before, mf.arena, mf.Live(), h, pos, vals, toErase, constMI, erasable);
      vals := vals + [before[constMI].ops[1].value];
      if erasable {
        toErase := toErase + [constMI];
      }
    }
    ok := true;
  }

  /**
   * The invariant of FoldInstr's while loop: only a[h] has changed, it is a0[h]
   * folded with vals, no use count has grown, and toErase holds unused constants.
   */
  ghost predicate FoldProgress(a0: seq<MachineInstr>, a: seq<MachineInstr>, live: seq<Handle>, h: Handle, pos: nat,
                               vals: seq<nat>, toErase: seq<Handle>) {
    |a| == |a0| && h < |a| && FoldPos(a0[h]) == Some(pos) && pos < |a0[h].ops| && SameKind(a[h], a0[h]) &&
    (forall x :: 0 <= x < |a| && x != h ==> a[x] == a0[x]) &&
    (forall r :: UseCount(a, live, r) <= UseCount(a0, live, r)) &&
    (forall e :: e in toErase ==> e != h && Unused(a, live, e)) &&
    FoldedAt(a0, live, a[h], h, vals) &&
    (vals != [] ==> !FoldDone(a0[h], pos))
  }

  /** One successful FoldStep keeps FoldProgress, recording the constant's value, and shrinks the loop measure. */
  lemma FoldProgressStep(a0: seq<MachineInstr>, a1: seq<MachineInstr>, a2: seq<MachineInstr>, live: seq<Handle>,
                         h: Handle, pos: nat, vals: seq<nat>, toErase: seq<Handle>, constMI: Handle, erasable: bool)
    requires FoldProgress(a0, a1, live, h, pos, vals, toErase)
    requires pos < |a1[h].ops| && a1[h].ops[pos].RegOp?
    requires DefIn(a1, live, a1[h].ops[pos].reg) == Some(constMI)
    requires a1[constMI].opcode == G_CONSTANT && |a1[constMI].ops| > 1 && a1[constMI].ops[0].RegOp? &&
      a1[constMI].ops[1].CImmOp?
    requires a2 == a1[h := a1[h].(ops := Folded(a1[h].ops, pos, a1[constMI].ops[1].value))]
    requires erasable ==> UseCount(a2, live, a2[constMI].ops[0].reg) == 0
    ensures FoldProgress(a0, a2, live, h, pos, vals + [a1[constMI].ops[1].value],
                         if erasable then toErase + [constMI] else toErase)
    ensures RegCount(a2[h].ops[pos..]) < RegCount(a1[h].ops[pos..])
  {
    var v := a1[constMI].ops[1].value;
    assert SameKind(a1[h], a0[h]);
    assert constMI != h && a1[constMI] == a0[constMI];
    assert ConstDefines(a0, live, a1[h].ops[pos].reg, v);
    FoldedAtStep(a0, live, a1[h], h, pos, vals, v);
    FoldedShape(a1[h].ops, pos, v);
    assert a2[h].ops[a2[h].numDefs] == a1[h].ops[a1[h].numDefs];
    FoldNoNewUses(a1, live, h, pos, v);
    forall e | e in toErase
      ensures Unused(a2, live, e)
    {
      assert Unused(a1, live, e);
    }
    var vs := vals + [v];
    var te := if erasable then toErase + [constMI] else toErase;
    assert |a2| == |a0| && h < |a2| && FoldPos(a0[h]) == Some(pos) && pos < |a0[h].ops| && SameKind(a2[h], a0[h]);
    assert forall x :: 0 <= x < |a2| && x != h ==> a2[x] == a0[x];
    assert forall r :: UseCount(a2, live, r) <= UseCount(a0, live, r);
    assert forall e :: e in te ==> e != h && Unused(a2, live, e);
    assert FoldedAt(a0, live, a2[h], h, vs);
    assert vs != [] ==> !FoldDone(a0[h], pos);
    assert FoldProgress(a0, a2, live, h, pos, vs, te);
  }

  /** What one FoldInstr call on h does to the arena, as seen by the loop over the live list. */
  ghost predicate FoldFrame(a1: seq<MachineInstr>, a2: seq<MachineInstr>, live: seq<Handle>, h: Handle, toErase: seq<Handle>) {
    |a2| == |a1| && h < |a1| && SameKind(a2[h], a1[h]) &&
    (forall x :: 0 <= x < |a1| && x != h ==> a2[x] == a1[x]) &&
    (forall r :: UseCount(a2, live, r) <= UseCount(a1, live, r)) &&
    (forall e :: e in toErase ==> e != h && Unused(a2, live, e))
  }

  /**
   * What the folding loop keeps at every point: every instruction keeps its
   * kind, an instruction changed is recorded in folds with the values folded
   * into it, and every constant reported for erasure is unused.
   */
  ghost predicate FoldState(a0: seq<MachineInstr>, a: seq<MachineInstr>, live: seq<Handle>, erased: seq<Handle>,
                            folds: map<Handle, seq<nat>>) {
    |a| == |a0| &&
    (forall x :: 0 <= x < |a| ==> SameKind(a[x], a0[x])) &&
    (forall x :: 0 <= x < |a| && x !in folds ==> a[x] == a0[x]) &&
    (forall x :: x in folds ==> x < |a0| && FoldPos(a0[x]).Some? && FoldedAt(a0, live, a[x], x, folds[x])) &&
    (forall e :: e in erased ==> Unused(a, live, e))
  }

  /** The invariant of the folding loop after the first i live instructions. */
  ghost predicate FoldLoopInv(a0: seq<MachineInstr>, a: seq<MachineInstr>, live: seq<Handle>, i: nat, erased: seq<Handle>,
                              folds: map<Handle, seq<nat>>) {
    i <= |live| && FoldState(a0, a, live, erased, folds) &&
    (forall x :: x in folds && x < |a| && FoldPos(a0[x]).Some? ==> FoldDone(a[x], FoldPos(a0[x]).value)) &&
    (forall j :: 0 <= j < i && live[j] < |a| && FoldPos(a0[live[j]]).Some? ==> live[j] in folds)
  }

  /** The record after folding into h: a second visit of h folds nothing and keeps the first record. */
  function FoldsAfter(folds: map<Handle, seq<nat>>, h: Handle, vals: seq<nat>): map<Handle, seq<nat>> {
    if h in folds then folds else folds[h := vals]
  }

  /** A live instruction with no folding position leaves the loop invariant as it is. */
  lemma FoldLoopSkip(a0: seq<MachineInstr>, a: seq<MachineInstr>, live: seq<Handle>, i: nat, erased: seq<Handle>,
                     folds: map<Handle, seq<nat>>)
    requires FoldLoopInv(a0, a, live, i, erased, folds) && i < |live| && live[i] < |a| && FoldPos(a[live[i]]).None?
    ensures FoldLoopInv(a0, a, live, i + 1, erased, folds)
  {
    assert SameKind(a[live[i]], a0[live[i]]);
  }

  /**
   * Folding into live[i], which is no constant, keeps every reported constant
   * unused, every kind unchanged and the record of folds exact; when it
   * succeeds, live[i] is done too.
   */
  lemma FoldLoopStep(a0: seq<MachineInstr>, a1: seq<MachineInstr>, a2: seq<MachineInstr>, live: seq<Handle>, i: nat,
                     erased: seq<Handle>, toErase: seq<Handle>, folds: map<Handle, seq<nat>>, vals: seq<nat>, done: bool)
    requires FoldLoopInv(a0, a1, live, i, erased, folds) && i < |live| && live[i] < |a1| && FoldPos(a1[live[i]]).Some?
    requires FoldFrame(a1, a2, live, live[i], toErase)
    requires FoldPos(a1[live[i]]).value < |a1[live[i]].ops| && FoldedAt(a1, live, a2[live[i]], live[i], vals)
    requires FoldDone(a1[live[i]], FoldPos(a1[live[i]]).value) ==> done && vals == []
    requires done ==> FoldDone(a2[live[i]], FoldPos(a2[live[i]]).value)
    ensures FoldState(a0, a2, live, erased + toErase, FoldsAfter(folds, live[i], vals))
    ensures done ==> FoldLoopInv(a0, a2, live, i + 1, erased + toErase, FoldsAfter(folds, live[i], vals))
  {
    var h := live[i];
    assert SameKind(a1[h], a0[h]);
    if h in folds {
      assert FoldDone(a1[h], FoldPos(a1[h]).value);
      FoldRevisit(a1, a2, live, h, toErase);
    } else {
      FoldLoopFirst(a0, a1, a2, live, i, erased, toErase, folds, vals, done);
    }
  }

  /** FoldLoopStep when live[i] is folded for the first time. */
  lemma FoldLoopFirst(a0: seq<MachineInstr>, a1: seq<MachineInstr>, a2: seq<MachineInstr>, live: seq<Handle>, i: nat,
                      erased: seq<Handle>, toErase: seq<Handle>, folds: map<Handle, seq<nat>>, vals: seq<nat>, done: bool)
    requires FoldLoopInv(a0, a1, live, i, erased, folds) && i < |live| && live[i] < |a1| && FoldPos(a1[live[i]]).Some?
    requires live[i] !in folds && FoldFrame(a1, a2, live, live[i], toErase)
    requires FoldPos(a1[live[i]]).value < |a1[live[i]].ops| && FoldedAt(a1, live, a2[live[i]], live[i], vals)
    requires done ==> FoldDone(a2[live[i]], FoldPos(a2[live[i]]).value)
    ensures FoldState(a0, a2, live, erased + toErase, folds[live[i] := vals])
    ensures done ==> FoldLoopInv(a0, a2, live, i + 1, erased + toErase, folds[live[i] := vals])
  {
    var h := live[i];
    assert SameKind(a1[h], a0[h]);
    forall e | e in erased
      ensures e != h
    {
      assert Unused(a1, live, e);
    }
    FoldRecorded(a0, a1, a2, live, erased, toErase, folds, h, vals);
    if done {
      var f := folds[h := vals];
      forall j | 0 <= j < i + 1 && live[j] < |a2| && FoldPos(a0[live[j]]).Some?
        ensures live[j] in f
      {
      }
    }
  }

  /** A fold that recorded no value changed nothing. */
  lemma FoldRevisit(a1: seq<MachineInstr>, a2: seq<MachineInstr>, live: seq<Handle>, h: Handle, toErase: seq<Handle>)
    requires FoldFrame(a1, a2, live, h, toErase) && FoldPos(a1[h]).Some? && FoldedAt(a1, live, a2[h], h, [])
    ensures a2 == a1
  {
    var pos := FoldPos(a1[h]).value;
    assert a1[h].ops[..pos] + a1[h].ops[pos..] + ImmOps([]) == a1[h].ops;
    assert a2[h] == a1[h];
  }

  /** Folding into h for the first time adds h to the record with the values folded into it. */
  lemma FoldRecorded(a0: seq<MachineInstr>, a1: seq<MachineInstr>, a2: seq<MachineInstr>, live: seq<Handle>,
                     erased: seq<Handle>, toErase: seq<Handle>, folds: map<Handle, seq<nat>>, h: Handle, vals: seq<nat>)
    requires FoldState(a0, a1, live, erased, folds) && h !in folds && h < |a1| && FoldPos(a1[h]).Some?
    requires FoldFrame(a1, a2, live, h, toErase) && forall e :: e in erased ==> e != h
    requires FoldPos(a1[h]).value < |a1[h].ops| && FoldedAt(a1, live, a2[h], h, vals)
    ensures FoldState(a0, a2, live, erased + toErase, folds[h := vals])
    ensures forall x :: x in folds && x < |a2| ==> a2[x] == a1[x]
  {
    FoldedAtBack(a0, a1, live, folds, h, a2[h], vals);
    forall e | e in erased + toErase
      ensures Unused(a2, live, e)
    {
      if e in erased {
        assert Unused(a1, live, e);
      }
    }
  }

  /** FoldInstr seen through FoldFrame, so that the loop over the live list reasons on values. */
  method FoldAt(mf: MachineFunction, h: Handle) returns (ok: bool, toErase: seq<Handle>, ghost vals: seq<nat>)
    requires mf.Valid() && h < |mf.arena| && FoldPos(mf.arena[h]).Some?
    modifies mf
    ensures mf.Valid() && mf.blocks == old(mf.blocks) && mf.nextReg == old(mf.nextReg)
    ensures mf.regLLT == old(mf.regLLT) && mf.regClass == old(mf.regClass)
    ensures FoldFrame(old(mf.arena), mf.arena, mf.Live(), h, toErase)
    ensures ok ==> FoldDone(mf.arena[h], FoldPos(mf.arena[h]).value)
    ensures FoldPos(old(mf.arena)[h]).value < |old(mf.arena)[h].ops| ==>
      FoldedAt(old(mf.arena), mf.Live(), mf.arena[h], h, vals)
    ensures FoldPos(old(mf.arena)[h]).value >= |old(mf.arena)[h].ops| ==>
      !ok && mf.arena == old(mf.arena) && toErase == []
    ensures FoldDone(old(mf.arena)[h], FoldPos(old(mf.arena)[h]).value) ==> ok && vals == []
  {
    ok, toErase, vals := FoldInstr(mf, h);
  }

  /**
   * The main loop of foldConstantsIntoIntrinsics, over the live instructions
   * in order; folds records what was folded into each spv_assign_name.
   */
  method FoldAll(mf: MachineFunction) returns (ok: bool, erased: seq<Handle>, ghost folds: map<Handle, seq<nat>>)
    requires mf.Valid()
    modifies mf
    ensures mf.Valid() && mf.nextReg == old(mf.nextReg) && |mf.arena| == |old(mf.arena)| && mf.blocks == old(mf.blocks)
    ensures mf.regLLT == old(mf.regLLT) && mf.regClass == old(mf.regClass)
    ensures FoldState(old(mf.arena), mf.arena, mf.Live(), erased, folds)
    ensures ok ==> forall h :: h in mf.Live() && h < |old(mf.arena)| && FoldPos(old(mf.arena)[h]).Some? ==>
      h in folds && FoldDone(mf.arena[h], FoldPos(old(mf.arena)[h]).value)
  {
    var live := mf.Live();
    erased, folds := [], map[];
    var i := 0;
    while i < |live|
      invariant i <= |live| && mf.Valid() && mf.blocks == old(mf.blocks) && mf.nextReg == old(mf.nextReg)
      invariant mf.regLLT == old(mf.regLLT) && mf.regClass == old(mf.regClass) && |mf.arena| == |old(mf.arena)|
      invariant mf.Live() == live
      invariant FoldLoopInv(old(mf.arena), mf.arena, live, i, erased, folds)
    {
      var h := live[i];
      LiveBelow(mf.blocks, |mf.arena|, h);
      ghost var before := mf.arena;
      if FoldPos(mf.arena[h]).Some? {
        var instrOk, toErase, vals := FoldAt(mf, h);
        if FoldPos(before[h]).value < |before[h].ops| {
          FoldLoopStep(old(mf.arena), before, mf.arena, live, i, erased, toErase, folds, vals, instrOk);
          folds := FoldsAfter(folds, h, vals);
        } else {
          assert erased + toErase == erased;
        }
        erased := erased + toErase;
        if !instrOk {
          ok := false;
          return;
        }
      } else {
        FoldLoopSkip(old(mf.arena), mf.arena, live, i, erased, folds);
      }
      i := i + 1;
    }
    ok := true;
    forall h | h in live && h < |old(mf.arena)| && FoldPos(old(mf.arena)[h]).Some?
      ensures h in folds && FoldDone(mf.arena[h], FoldPos(old(mf.arena)[h]).value)
    {
      var j :| 0 <= j < |live| && live[j] == h;
    }
  }

  /**
   * foldConstantsIntoIntrinsics: in every spv_assign_name, registers at the
   * folding position are replaced by the immediates of their G_CONSTANTs
   * until a non-register stands there (registers after it stay registers);
   * folds records the values folded into each instruction, nothing else in
   * the arena changes, and a constant left without uses is erased. Nothing
   * else leaves the blocks.
   */
  method FoldConstantsIntoIntrinsics(mf: MachineFunction) returns (ok: bool, erased: seq<Handle>,
                                                                   ghost folds: map<Handle, seq<nat>>)
    requires mf.Valid()
    modifies mf
    ensures mf.Valid() && mf.nextReg == old(mf.nextReg) && |mf.arena| == |old(mf.arena)|
    ensures mf.regLLT == old(mf.regLLT) && mf.regClass == old(mf.regClass) && |mf.blocks| == |old(mf.blocks)|
    ensures forall x :: 0 <= x < |mf.arena| ==> SameKind(mf.arena[x], old(mf.arena)[x])
    ensures forall x :: 0 <= x < |mf.arena| && x !in folds ==> mf.arena[x] == old(mf.arena)[x]
    ensures forall x :: x in folds ==>
      x < |old(mf.arena)| && IsSpvIntrinsic(old(mf.arena)[x], spv_assign_name) &&
      FoldPos(old(mf.arena)[x]).Some? && FoldedAt(old(mf.arena), old(mf.Live()), mf.arena[x], x, folds[x])
    ensures ok ==> forall h :: h in old(mf.Live()) && h < |old(mf.arena)| && FoldPos(old(mf.arena)[h]).Some? ==>
      h in folds && FoldDone(mf.arena[h], FoldPos(old(mf.arena)[h]).value)
    ensures ok ==> forall e :: e in erased ==> Gone(mf.blocks, e) && Unused(mf.arena, old(mf.Live()), e)
    ensures forall b, x :: 0 <= b < |mf.blocks| && x in old(mf.blocks)[b] && x !in erased ==> x in mf.blocks[b]
  {
    ok, erased, folds := FoldAll(mf);
    forall x | x in folds
      ensures IsSpvIntrinsic(old(mf.arena)[x], spv_assign_name)
    {
      FoldPosOfAssignName(old(mf.arena)[x]);
    }
    if !ok {
      return;
    }
    EraseAll(mf, erased);
  }

  // ---------------------------------------------------------------------------
  // propagateSPIRVType
  // ---------------------------------------------------------------------------

  /** What propagateSPIRVType yields: no type, a type, or a failed assert in the source. */
  datatype Propagated = NoType | HasType(ty: IRType) | Aborted

  /** The opcodes that take their type from the definition of operand 1. */
  predicate IsTypeCopy(opc: Opcode) {
    opc == G_TRUNC || opc == G_ADDRSPACE_CAST || opc == COPY
  }

  /**
   * The type propagateSPIRVType finds for mi's result: an existing binding; a
   * G_CONSTANT's literal type; a G_GLOBAL_VALUE's type; for TRUNC,
   * ADDRSPACE_CAST and COPY the type found for the definition of operand 1;
   * otherwise none. fuel bounds the length of the followed definition chain.
   */
  function ChainType(arena: seq<MachineInstr>, live: seq<Handle>, types: map<Reg, IRType>, mi: MachineInstr, fuel: nat)
    : Propagated
    decreases fuel
  {
    if |mi.ops| == 0 || !mi.ops[0].RegOp? then NoType
    else if mi.ops[0].reg in types then HasType(types[mi.ops[0].reg])
    else if mi.opcode == G_CONSTANT then
      if |mi.ops| > 1 && mi.ops[1].CImmOp? then HasType(IntTy(mi.ops[1].width)) else Aborted
    else if mi.opcode == G_GLOBAL_VALUE then
      if |mi.ops| > 1 && mi.ops[1].GlobalOp? then HasType(mi.ops[1].ty) else Aborted
    else if IsTypeCopy(mi.opcode) then
      if |mi.ops| < 2 then Aborted
      else if !mi.ops[1].RegOp? then NoType
      else match DefIn(arena, live, mi.ops[1].reg)
        case None => NoType
        case Some(d) => if fuel == 0 then NoType else ChainType(arena, live, types, arena[d], fuel - 1)
    else NoType
  }

  /**
   * A definite answer does not depend on the fuel: with more fuel the chain
   * reaches the same definition and the same result.
   */
  lemma {:induction false} ChainTypeMoreFuel(arena: seq<MachineInstr>, live: seq<Handle>, types: map<Reg, IRType>,
                                             mi: MachineInstr, fuel: nat, more: nat)
    requires fuel <= more && ChainType(arena, live, types, mi, fuel) != NoType
    ensures ChainType(arena, live, types, mi, more) == ChainType(arena, live, types, mi, fuel)
    decreases fuel
  {
    if |mi.ops| > 1 && mi.ops[0].RegOp? && mi.ops[0].reg !in types && mi.opcode != G_CONSTANT &&
       mi.opcode != G_GLOBAL_VALUE && IsTypeCopy(mi.opcode) && mi.ops[1].RegOp? {
      var d := DefIn(arena, live, mi.ops[1].reg);
      if d.Some? && fuel > 0 {
        ChainTypeMoreFuel(arena, live, types, arena[d.value], fuel - 1, more - 1);
      }
    }
  }

  /** Bindings already present are kept. */
  ghost predicate KeptTypes(a: map<Reg, IRType>, b: map<Reg, IRType>) {
    forall r :: r in a ==> r in b && b[r] == a[r]
  }

  /** Classes already present are kept, and every new one is IDRegClass. */
  ghost predicate KeptClassesAddingID(a: map<Reg, RegClass>, b: map<Reg, RegClass>) {
    (forall r :: r in a ==> r in b && b[r] == a[r]) && (forall r :: r in b && r !in a ==> b[r] == IDRegClass)
  }

  /**
   * propagateSPIRVType: the result is ChainType on the state at the call; a
   * found type is bound to the result register; an unbound result register
   * without a class gets IDRegClass. Only bindings and classes are added.
   */
  method PropagateSPIRVType(mf: MachineFunction, gr: GlobalRegistry, h: Handle, fuel: nat) returns (res: Propagated)
    requires mf.Valid() && h < |mf.arena|
    modifies mf, gr
    decreases fuel
    ensures res == ChainType(old(mf.arena), old(mf.Live()), old(gr.vregTypes), old(mf.arena)[h], fuel)
    ensures mf.Valid() && mf.arena == old(mf.arena) && mf.blocks == old(mf.blocks)
    ensures mf.regLLT == old(mf.regLLT) && mf.nextReg == old(mf.nextReg) && gr.constRegs == old(gr.constRegs)
    ensures KeptTypes(old(gr.vregTypes), gr.vregTypes) && KeptClassesAddingID(old(mf.regClass), mf.regClass)
    ensures var mi := old(mf.arena)[h];
      |mi.ops| > 0 && mi.ops[0].RegOp? && res != Aborted ==>
        (res.HasType? ==> mi.ops[0].reg in gr.vregTypes && gr.vregTypes[mi.ops[0].reg] == res.ty) &&
        (mi.ops[0].reg !in old(gr.vregTypes) ==> mi.ops[0].reg in mf.regClass)
  {
    var mi := mf.arena[h];
    res := NoType;
    if |mi.ops| == 0 || !mi.ops[0].RegOp? {
      return;
    }
    var reg := mi.ops[0].reg;
    if reg in gr.vregTypes {
      res := HasType(gr.vregTypes[reg]);
      return;
    }
    if mi.opcode == G_CONSTANT {
      if |mi.ops| < 2 || !mi.ops[1].CImmOp? {
        res := Aborted;
        return;
      }
      res := HasType(IntTy(mi.ops[1].width));
    } else if mi.opcode == G_GLOBAL_VALUE {
      if |mi.ops| < 2 || !mi.ops[1].GlobalOp? {
        res := Aborted;
        return;
      }
      res := HasType(mi.ops[1].ty);
    } else if IsTypeCopy(mi.opcode) {
      if |mi.ops| < 2 {
        res := Aborted;
        return;
      }
      if mi.ops[1].RegOp? {
        var def := DefIn(mf.arena, mf.Live(), mi.ops[1].reg);
        if def.Some? && fuel > 0 {
          res := PropagateSPIRVType(mf, gr, def.value, fuel - 1);
          if res.Aborted? {
            return;
          }
        }
      }
    }
    if res.HasType? {
      gr.AssignType(res.ty, reg);
    }
    if reg !in mf.regClass {
      mf.SetRegClass(reg, IDRegClass);
    }
  }

  // ---------------------------------------------------------------------------
  // insertAssignInstr
  // ---------------------------------------------------------------------------

  /** `ASSIGN_TYPE reg, newReg, typeId(ty)`: reg is now defined from newReg with SPIR-V type ty. */
  function AssignTypeInstr(reg: Reg, newReg: Reg, ty: IRType): MachineInstr {
    MachineInstr(ASSIGN_TYPE, [RegOp(reg, true), RegOp(newReg, false), TypeIdOp(ty)], 1)
  }

  /** MRI.getType: the LLT of a register, invalid when it has none. */
  function LLTOf(m: map<Reg, LLT>, r: Reg): LLT {
    if r in m then m[r] else InvalidLLT
  }

  /** A register that no operand of the arena names. */
  ghost predicate Fresh(arena: seq<MachineInstr>, r: Reg) {
    forall h, k :: 0 <= h < |arena| && 0 <= k < |arena[h].ops| && arena[h].ops[k].RegOp? ==> arena[h].ops[k].reg != r
  }

  lemma DefinedBelow(mf: MachineFunction, d: Handle, r: Reg)
    requires mf.Valid() && d < |mf.arena| && Defines(mf.arena[d], r)
    ensures r < mf.nextReg
  {
    var k :| 0 <= k < |mf.arena[d].ops| && mf.arena[d].ops[k] == RegOp(r, true);
  }

  /** The next register number is named by no operand. */
  lemma FreshAtNext(mf: MachineFunction)
    requires mf.Valid()
    ensures Fresh(mf.arena, mf.nextReg)
  {
  }

  /** The block list with x inserted right after position pos. */
  function InsertedAt(s: seq<Handle>, pos: nat, x: Handle): seq<Handle>
    requires pos < |s|
  {
    s[..pos + 1] + [x] + s[pos + 1..]
  }

  /** An insertion right after position pos leaves pos in place and puts x right behind it. */
  lemma InsertedAfter(s: seq<Handle>, pos: nat, x: Handle)
    requires pos < |s|
    ensures InsertedAt(s, pos, x)[pos] == s[pos] && InsertedAt(s, pos, x)[pos + 1] == x
  {
    assert InsertedAt(s, pos, x)[pos] == s[..pos + 1][pos];
  }

  /** The instruction with its operand 0 now naming r (MachineOperand::setReg). */
  function WithResult(mi: MachineInstr, r: Reg): MachineInstr
    requires |mi.ops| > 0 && mi.ops[0].RegOp?
  {
    mi.(ops := mi.ops[0 := RegOp(r, mi.ops[0].isDef)])
  }

  /** `getOperand(0).setReg(r)` on instruction h. */
  method SetResultReg(mf: MachineFunction, h: Handle, r: Reg)
    requires mf.Valid() && h < |mf.arena| && |mf.arena[h].ops| > 0 && mf.arena[h].ops[0].RegOp? && r < mf.nextReg
    modifies mf
    ensures mf.Valid()
    ensures mf.arena == old(mf.arena)[h := WithResult(old(mf.arena)[h], r)]
    ensures mf.blocks == old(mf.blocks) && mf.regLLT == old(mf.regLLT) && mf.regClass == old(mf.regClass)
    ensures mf.nextReg == old(mf.nextReg)
  {
    mf.SetInstr(h, WithResult(mf.arena[h], r));
  }

  /** The mutations of insertAssignInstr once the definition d of reg sits at blocks[b][pos]. */
  method AssignAfterDef(mf: MachineFunction, gr: GlobalRegistry, d: Handle, b: nat, pos: nat, reg: Reg, ty: IRType)
    returns (newReg: Reg)
    requires mf.Valid() && b < |mf.blocks| && pos < |mf.blocks[b]| && mf.blocks[b][pos] == d && d < |mf.arena|
    requires |mf.arena[d].ops| > 0 && mf.arena[d].ops[0].RegOp? && reg < mf.nextReg
    modifies mf, gr
    ensures mf.Valid() && gr.constRegs == old(gr.constRegs)
    ensures newReg == old(mf.nextReg) && mf.nextReg == newReg + 1 && Fresh(old(mf.arena), newReg)
    ensures mf.arena == old(mf.arena)[d := WithResult(old(mf.arena)[d], newReg)] + [AssignTypeInstr(reg, newReg, ty)]
    ensures mf.blocks == old(mf.blocks)[b := InsertedAt(old(mf.blocks)[b], pos, |old(mf.arena)|)]
    ensures mf.blocks[b][pos] == d && mf.blocks[b][pos + 1] == |old(mf.arena)|
    ensures mf.regLLT == old(mf.regLLT)[newReg := LLTOf(old(mf.regLLT), reg)]
    ensures mf.regClass == if reg in old(mf.regClass) then old(mf.regClass)[newReg := old(mf.regClass)[reg]] else old(mf.regClass)
    ensures gr.vregTypes == old(gr.vregTypes)[reg := ty][newReg := ty]
  {
    FreshAtNext(mf);
    ghost var arena0, blocks0 := mf.arena, mf.blocks;
    newReg := mf.CreateGenericVirtualRegister(LLTOf(mf.regLLT, reg));
    if reg in mf.regClass {
      mf.SetRegClass(newReg, mf.regClass[reg]);
    }
    gr.AssignType(ty, reg);
    gr.AssignType(ty, newReg);
    var at := mf.InsertAfter(b, pos, AssignTypeInstr(reg, newReg, ty));
    SetResultReg(mf, d, newReg);
    assert mf.arena == arena0[d := WithResult(arena0[d], newReg)] + [AssignTypeInstr(reg, newReg, ty)];
    InsertedAfter(blocks0[b], pos, at);
  }

  /**
   * insertAssignInstr: the definition of reg now writes a fresh register
   * newReg, and `ASSIGN_TYPE reg, newReg, typeId(ty)` is inserted right after
   * it in its block; reg and newReg are both bound to ty and newReg takes
   * reg's register class and LLT.
   */
  method InsertAssignInstr(mf: MachineFunction, gr: GlobalRegistry, reg: Reg, ty: IRType) returns (ok: bool, newReg: Reg)
    requires mf.Valid()
    modifies mf, gr
    ensures mf.Valid() && gr.constRegs == old(gr.constRegs)
    ensures !ok ==> (mf.arena == old(mf.arena) && mf.blocks == old(mf.blocks) && mf.nextReg == old(mf.nextReg) &&
      mf.regLLT == old(mf.regLLT) && mf.regClass == old(mf.regClass) && gr.vregTypes == old(gr.vregTypes))
    ensures ok ==> DefIn(old(mf.arena), old(mf.Live()), reg).Some?
    ensures ok ==>
      var d := DefIn(old(mf.arena), old(mf.Live()), reg).value;
      var b := BlockOf(old(mf.blocks), d);
      var pos := IndexOf(old(mf.blocks)[b], d);
      |old(mf.arena)[d].ops| > 0 && old(mf.arena)[d].ops[0].RegOp? &&
      newReg == old(mf.nextReg) && mf.nextReg == newReg + 1 && Fresh(old(mf.arena), newReg) &&
      mf.arena == old(mf.arena)[d := WithResult(old(mf.arena)[d], newReg)] + [AssignTypeInstr(reg, newReg, ty)] &&
      mf.blocks == old(mf.blocks)[b := InsertedAt(old(mf.blocks)[b], pos, |old(mf.arena)|)] &&
      mf.blocks[b][pos] == d && mf.blocks[b][pos + 1] == |old(mf.arena)| &&
      mf.regLLT == old(mf.regLLT)[newReg := LLTOf(old(mf.regLLT), reg)] &&
      mf.regClass == (if reg in old(mf.regClass) then old(mf.regClass)[newReg := old(mf.regClass)[reg]] else old(mf.regClass)) &&
      gr.vregTypes == old(gr.vregTypes)[reg := ty][newReg := ty]
  {
    newReg := 0;
    var dOpt := DefIn(mf.arena, mf.Live(), reg);
    if dOpt.None? {
      ok := false;
      return;
    }
    var d := dOpt.value;
    if |mf.arena[d].ops| == 0 || !mf.arena[d].ops[0].RegOp? {
      ok := false;
      return;
    }
    DefinedBelow(mf, d, reg);
    var b := BlockOf(mf.blocks, d);
    var pos := IndexOf(mf.blocks[b], d);
    newReg := AssignAfterDef(mf, gr, d, b, pos, reg, ty);
    ok := true;
  }

  /** The handles of s below n, in order: what a block held before handles from n on were created. */
  function Below(s: seq<Handle>, n: nat): (r: seq<Handle>)
    ensures forall x :: x in r <==> x in s && x < n
  {
    if s == [] then [] else (if s[0] < n then [s[0]] else []) + Below(s[1..], n)
  }

  lemma {:induction false} BelowAll(s: seq<Handle>, n: nat)
    requires forall x :: x in s ==> x < n
    ensures Below(s, n) == s
  {
    if s != [] {
      assert s[0] in s && forall x :: x in s[1..] ==> x in s;
      BelowAll(s[1..], n);
      assert s == [s[0]] + s[1..];
    }
  }

  lemma {:induction false} BelowConcat(s: seq<Handle>, t: seq<Handle>, n: nat)
    ensures Below(s + t, n) == Below(s, n) + Below(t, n)
  {
    if s != [] {
      var hd := if s[0] < n then [s[0]] else [];
      assert (s + t)[0] == s[0] && (s + t)[1..] == s[1..] + t;
      BelowConcat(s[1..], t, n);
      calc {
        Below(s + t, n);
        hd + Below(s[1..] + t, n);
        hd + (Below(s[1..], n) + Below(t, n));
        (hd + Below(s[1..], n)) + Below(t, n);
        Below(s, n) + Below(t, n);
      }
    } else {
      assert s + t == t;
    }
  }

  /** Filtering by a smaller bound after a larger one is filtering by the smaller. */
  lemma {:induction false} BelowBelow(s: seq<Handle>, n0: nat, n1: nat)
    requires n0 <= n1
    ensures Below(Below(s, n1), n0) == Below(s, n0)
  {
    if s != [] {
      BelowBelow(s[1..], n0, n1);
      BelowConcat(if s[0] < n1 then [s[0]] else [], Below(s[1..], n1), n0);
    }
  }

  /** Inserting a handle from n on leaves what is below n as it was. */
  lemma BelowInsertedAt(s: seq<Handle>, pos: nat, x: Handle, n: nat)
    requires pos < |s| && x >= n
    ensures Below(InsertedAt(s, pos, x), n) == Below(s, n)
  {
    var u, v := s[..pos + 1], s[pos + 1..];
    assert InsertedAt(s, pos, x) == (u + [x]) + v;
    BelowConcat(u + [x], v, n);
    BelowConcat(u, [x], n);
    assert Below([x], n) == [] by {
      assert [x][1..] == [];
    }
    BelowConcat(u, v, n);
    assert u + v == s;
  }

  /** An instruction keeps its opcode and every operand but its result. */
  ghost predicate SameShape(m0: MachineInstr, m: MachineInstr) {
    m.opcode == m0.opcode && |m.ops| == |m0.ops| && (|m0.ops| == 0 || m.ops[1..] == m0.ops[1..])
  }

  /**
   * The function only grows from (a0, bs0) to (a, bs): instructions are
   * appended, existing ones keep their shape, and every block still lists the
   * older handles it listed, in the same order.
   */
  ghost predicate Grows(a0: seq<MachineInstr>, bs0: seq<seq<Handle>>, a: seq<MachineInstr>, bs: seq<seq<Handle>>) {
    |a| >= |a0| && |bs| == |bs0| &&
    (forall b :: 0 <= b < |bs| ==> Below(bs[b], |a0|) == Below(bs0[b], |a0|)) &&
    (forall x :: 0 <= x < |a0| ==> SameShape(a0[x], a[x]))
  }

  lemma GrowsTrans(a0: seq<MachineInstr>, bs0: seq<seq<Handle>>, a1: seq<MachineInstr>, bs1: seq<seq<Handle>>,
                   a2: seq<MachineInstr>, bs2: seq<seq<Handle>>)
    requires Grows(a0, bs0, a1, bs1) && Grows(a1, bs1, a2, bs2)
    ensures Grows(a0, bs0, a2, bs2)
  {
    forall b | 0 <= b < |bs2|
      ensures Below(bs2[b], |a0|) == Below(bs0[b], |a0|)
    {
      BelowBelow(bs2[b], |a0|, |a1|);
      BelowBelow(bs1[b], |a0|, |a1|);
    }
    forall x | 0 <= x < |a0|
      ensures SameShape(a0[x], a2[x])
    {
      assert SameShape(a0[x], a1[x]) && SameShape(a1[x], a2[x]);
    }
  }

  /** Where an inserted ASSIGN_TYPE sits: its handle, its block and the fresh register it reads. */
  datatype Placement = Placement(at: Handle, blk: nat, newReg: Reg)

  /**
   * p is an ASSIGN_TYPE of reg to ty still listed in its block, reading
   * p.newReg, and both registers have a SPIR-V type.
   */
  ghost predicate Placed(a: seq<MachineInstr>, bs: seq<seq<Handle>>, types: map<Reg, IRType>, p: Placement, reg: Reg, ty: IRType) {
    p.at < |a| && p.blk < |bs| && p.at in bs[p.blk] &&
    a[p.at].opcode == ASSIGN_TYPE && |a[p.at].ops| == 3 &&
    a[p.at].ops[1] == RegOp(p.newReg, false) && a[p.at].ops[2] == TypeIdOp(ty) &&
    reg in types && p.newReg in types
  }

  /** A placement survives growth, and the registry only gaining types. */
  lemma PlacedKept(a0: seq<MachineInstr>, bs0: seq<seq<Handle>>, t0: map<Reg, IRType>,
                   a: seq<MachineInstr>, bs: seq<seq<Handle>>, t: map<Reg, IRType>, p: Placement, reg: Reg, ty: IRType)
    requires Placed(a0, bs0, t0, p, reg, ty) && Grows(a0, bs0, a, bs) && t0.Keys <= t.Keys
    ensures Placed(a, bs, t, p, reg, ty)
  {
    assert SameShape(a0[p.at], a[p.at]);
    assert a[p.at].ops[1..][0] == a0[p.at].ops[1..][0] && a[p.at].ops[1..][1] == a0[p.at].ops[1..][1];
    assert p.at in Below(bs0[p.blk], |a0|);
  }

  /** insertAssignInstr as the walk records it: the placement of the new ASSIGN_TYPE. */
  method PlaceAssignInstr(mf: MachineFunction, gr: GlobalRegistry, reg: Reg, ty: IRType)
      returns (ok: bool, newReg: Reg, ghost p: Placement)
    requires mf.Valid()
    modifies mf, gr
    ensures mf.Valid() && gr.constRegs == old(gr.constRegs)
    ensures Grows(old(mf.arena), old(mf.blocks), mf.arena, mf.blocks) && old(gr.vregTypes).Keys <= gr.vregTypes.Keys
    ensures ok ==>
      |mf.arena| == |old(mf.arena)| + 1 && mf.arena[|old(mf.arena)|] == AssignTypeInstr(reg, old(mf.nextReg), ty) &&
      reg in gr.vregTypes && gr.vregTypes[reg] == ty && old(mf.nextReg) in gr.vregTypes && gr.vregTypes[old(mf.nextReg)] == ty &&
      p.at == |old(mf.arena)| && p.newReg == old(mf.nextReg) && Placed(mf.arena, mf.blocks, gr.vregTypes, p, reg, ty)
  {
    ghost var a0, bs0, live0 := mf.arena, mf.blocks, mf.Live();
    p := Placement(0, 0, 0);
    ok, newReg := InsertAssignInstr(mf, gr, reg, ty);
    if ok {
      var d := DefIn(a0, live0, reg).value;
      var b := BlockOf(bs0, d);
      var pos := IndexOf(bs0[b], d);
      p := Placement(|a0|, b, newReg);
      assert mf.blocks[b][pos + 1] == |a0|;
      forall c | 0 <= c < |mf.blocks|
        ensures Below(mf.blocks[c], |a0|) == Below(bs0[c], |a0|)
      {
        if c == b {
          BelowInsertedAt(bs0[b], pos, |a0|, |a0|);
        }
      }
      forall x | 0 <= x < |a0|
        ensures SameShape(a0[x], mf.arena[x])
      {
        if x == d {
          assert mf.arena[x] == WithResult(a0[d], newReg);
        }
      }
    }
  }

  // ---------------------------------------------------------------------------
  // createNewIdReg and processInstr
  // ---------------------------------------------------------------------------

  /** The id register createNewIdReg makes: its LLT, the GET_* conversion that defines it, its class. */
  datatype IdReg = IdReg(llt: LLT, getOp: Opcode, cls: RegClass)

  /** A SPIR-V float type, or a vector whose element type is a float type. */
  predicate IsFloatish(ty: IRType) {
    ty.FloatTy? || (ty.VecTy? && ty.elem.FloatTy?)
  }

  /** The register class each GET_* conversion defines. */
  function ClassOfGetOp(getOp: Opcode): Option<RegClass> {
    if getOp == GET_ID then Some(IDRegClass)
    else if getOp == GET_fID then Some(fIDRegClass)
    else if getOp == GET_pID then Some(pIDRegClass)
    else if getOp == GET_vID then Some(vIDRegClass)
    else if getOp == GET_vfID then Some(vfIDRegClass)
    else None
  }

  /**
   * createNewIdReg's decision table: a pointer value gets a 32-bit pointer
   * in pIDRegClass via GET_pID; a vector value a 2 x 32-bit vector via GET_vfID
   * or GET_vID; any other value a 32-bit scalar via GET_fID or GET_ID. The f
   * variants are chosen exactly for float (element) types.
   */
  function IdRegChoice(ty: IRType, llt: LLT): (c: IdReg)
    ensures ClassOfGetOp(c.getOp) == Some(c.cls)
    ensures c.getOp == GET_pID <==> llt.Pointer?
    ensures (c.getOp == GET_vID || c.getOp == GET_vfID) <==> (!llt.Pointer? && llt.FixedVector?)
    ensures (c.getOp == GET_fID || c.getOp == GET_vfID) <==> (!llt.Pointer? && IsFloatish(ty))
    ensures c.llt == (if llt.Pointer? then Pointer(0, 32) else if llt.FixedVector? then FixedVector(2, Scalar(32)) else Scalar(32))
  {
    var isFloat := ty.FloatTy? || (ty.VecTy? && ty.elem.FloatTy?);
    if llt.Pointer? then IdReg(Pointer(0, 32), GET_pID, pIDRegClass)
    else if llt.FixedVector? then
      IdReg(FixedVector(2, Scalar(32)), if isFloat then GET_vfID else GET_vID, if isFloat then vfIDRegClass else vIDRegClass)
    else IdReg(Scalar(32), if isFloat then GET_fID else GET_ID, if isFloat then fIDRegClass else IDRegClass)
  }

  /** createNewIdReg: a fresh register of the chosen LLT and class, and the conversion to define it. */
  method CreateNewIdReg(mf: MachineFunction, gr: GlobalRegistry, valReg: Reg) returns (idReg: Reg, getOp: Opcode)
    requires mf.Valid() && valReg in gr.vregTypes
    modifies mf
    ensures mf.Valid() && mf.arena == old(mf.arena) && mf.blocks == old(mf.blocks)
    ensures var c := IdRegChoice(gr.vregTypes[valReg], LLTOf(old(mf.regLLT), valReg));
      idReg == old(mf.nextReg) && mf.nextReg == idReg + 1 && getOp == c.getOp &&
      mf.regLLT == old(mf.regLLT)[idReg := c.llt] && mf.regClass == old(mf.regClass)[idReg := c.cls]
  {
    var c := IdRegChoice(gr.vregTypes[valReg], LLTOf(mf.regLLT, valReg));
    idReg := mf.CreateGenericVirtualRegister(c.llt);
    mf.SetRegClass(idReg, c.cls);
    getOp := c.getOp;
  }

  /** processInstr converts the operands that are registers and not definitions. */
  predicate IsUseReg(op: MachineOperand) {
    op.RegOp? && !op.isDef
  }

  /** Number of register-use operands in a list. */
  function NumUses(ops: seq<MachineOperand>): nat {
    if ops == [] then 0 else (if IsUseReg(ops[0]) then 1 else 0) + NumUses(ops[1..])
  }

  lemma {:induction false} NumUsesSnoc(ops: seq<MachineOperand>, k: nat)
    requires k < |ops|
    ensures NumUses(ops[..k + 1]) == NumUses(ops[..k]) + (if IsUseReg(ops[k]) then 1 else 0)
  {
    if k > 0 {
      assert ops[..k + 1][1..] == ops[1..][..k];
      assert ops[..k][1..] == ops[1..][..k - 1];
      NumUsesSnoc(ops[1..], k - 1);
    }
  }

  /** `GET_* dst, src`: the id register dst standing for the value register src. */
  function GetIdInstr(getOp: Opcode, dst: Reg, src: Reg): MachineInstr {
    MachineInstr(getOp, [RegOp(dst, true), RegOp(src, false)], 1)
  }

  /** The handles start, start+1, ..., start+n-1. */
  function Handles(start: nat, n: nat): (r: seq<Handle>)
    ensures |r| == n && forall j :: 0 <= j < n ==> r[j] == start + j
  {
    seq(n, j requires 0 <= j < n => start + j)
  }

  /** Inserting after the last of the handles already inserted after pos extends them by one. */
  lemma InsertGrows(s: seq<Handle>, pos: nat, start: nat, n: nat)
    requires pos < |s|
    ensures InsertedAt(s[..pos + 1] + Handles(start, n) + s[pos + 1..], pos + n, start + n) ==
      s[..pos + 1] + Handles(start, n + 1) + s[pos + 1..]
  {
    var t := s[..pos + 1] + Handles(start, n) + s[pos + 1..];
    assert t[..pos + n + 1] == s[..pos + 1] + Handles(start, n);
    assert t[pos + n + 1..] == s[pos + 1..];
    assert Handles(start, n + 1) == Handles(start, n) + [start + n];
  }

  /**
   * What processInstr leaves for operand i of the original list ops0: a
   * register use became the (j+1)-th new id register first + j, where j counts
   * the uses before it, and the conversion `GET_* first + j, reg` stands at
   * handle base + j with the id register's class and LLT set; any other
   * operand is unchanged.
   */
  ghost predicate OperandConverted(ops0: seq<MachineOperand>, i: nat, cur: seq<MachineOperand>, arena: seq<MachineInstr>,
                                   base: nat, first: Reg, types: map<Reg, IRType>, llts0: map<Reg, LLT>,
                                   classes: map<Reg, RegClass>, llts: map<Reg, LLT>)
    requires i < |ops0| && i < |cur|
  {
    if IsUseReg(ops0[i]) then
      var j := NumUses(ops0[..i]);
      var src := ops0[i].reg;
      src in types && base + j < |arena| && cur[i] == RegOp(first + j, false) &&
      var c := IdRegChoice(types[src], LLTOf(llts0, src));
      arena[base + j] == GetIdInstr(c.getOp, first + j, src) &&
      first + j in classes && classes[first + j] == c.cls && first + j in llts && llts[first + j] == c.llt
    else cur[i] == ops0[i]
  }

  /** The parts of a machine function processInstr changes, as one value. */
  datatype FnState = FnState(arena: seq<MachineInstr>, blocks: seq<seq<Handle>>, regLLT: map<Reg, LLT>,
                             regClass: map<Reg, RegClass>, nextReg: Reg)

  ghost function StateOf(mf: MachineFunction): FnState
    reads mf
  {
    FnState(mf.arena, mf.blocks, mf.regLLT, mf.regClass, mf.nextReg)
  }

  /** Maps m and m0 agree on every register below first. */
  ghost predicate AgreeBelow<V>(m: map<Reg, V>, m0: map<Reg, V>, first: Reg) {
    forall r: Reg :: r < first ==> (r in m <==> r in m0) && (r in m ==> m[r] == m0[r])
  }

  /** The state after converting register-use operand k of h, its conversion built right after position at of block b. */
  function AfterConvert(s: FnState, types: map<Reg, IRType>, h: Handle, k: nat, b: nat, at: nat): FnState
    requires h < |s.arena| && k < |s.arena[h].ops| && b < |s.blocks| && at < |s.blocks[b]|
    requires IsUseReg(s.arena[h].ops[k]) && s.arena[h].ops[k].reg in types
  {
    var src := s.arena[h].ops[k].reg;
    var c := IdRegChoice(types[src], LLTOf(s.regLLT, src));
    var id := s.nextReg;
    FnState(s.arena[h := s.arena[h].(ops := s.arena[h].ops[k := RegOp(id, false)])] + [GetIdInstr(c.getOp, id, src)],
            s.blocks[b := InsertedAt(s.blocks[b], at, |s.arena|)],
            s.regLLT[id := c.llt], s.regClass[id := c.cls], id + 1)
  }

  /**
   * Where the operand loop of processInstr stands, from s0, after operand k,
   * having converted n uses: the operands before k are converted, the rest are
   * untouched, the n conversions follow h in its block, and nothing else changed.
   */
  ghost predicate Progress(s0: FnState, s: FnState, types: map<Reg, IRType>, h: Handle, b: nat, pos: nat, k: nat, n: nat) {
    h < |s0.arena| && b < |s0.blocks| && pos < |s0.blocks[b]| && InstrRegsBelow(s0.arena[h], s0.nextReg) &&
    var ops0 := s0.arena[h].ops;
    var base := |s0.arena|;
    k <= |ops0| && n == NumUses(ops0[..k]) && s.nextReg == s0.nextReg + n && |s.arena| == base + n &&
    s.arena[h] == s0.arena[h].(ops := s.arena[h].ops) && |s.arena[h].ops| == |ops0| &&
    (forall i :: 0 <= i < k ==>
      OperandConverted(ops0, i, s.arena[h].ops, s.arena, base, s0.nextReg, types, s0.regLLT, s.regClass, s.regLLT)) &&
    (forall i :: k <= i < |ops0| ==> s.arena[h].ops[i] == ops0[i]) &&
    (forall x :: 0 <= x < base && x != h ==> s.arena[x] == s0.arena[x]) &&
    s.blocks == s0.blocks[b := s0.blocks[b][..pos + 1] + Handles(base, n) + s0.blocks[b][pos + 1..]] &&
    AgreeBelow(s.regLLT, s0.regLLT, s0.nextReg) && AgreeBelow(s.regClass, s0.regClass, s0.nextReg)
  }

  lemma ProgressStart(s0: FnState, types: map<Reg, IRType>, h: Handle, b: nat, pos: nat)
    requires h < |s0.arena| && b < |s0.blocks| && pos < |s0.blocks[b]| && InstrRegsBelow(s0.arena[h], s0.nextReg)
    ensures Progress(s0, s0, types, h, b, pos, 0, 0)
  {
    assert s0.blocks[b][..pos + 1] + Handles(|s0.arena|, 0) + s0.blocks[b][pos + 1..] == s0.blocks[b];
    assert s0.arena[h].ops[..0] == [];
  }

  /** A non-use operand k is passed over. */
  lemma ProgressSkip(s0: FnState, s: FnState, types: map<Reg, IRType>, h: Handle, b: nat, pos: nat, k: nat, n: nat)
    requires Progress(s0, s, types, h, b, pos, k, n) && k < |s0.arena[h].ops| && !IsUseReg(s0.arena[h].ops[k])
    ensures Progress(s0, s, types, h, b, pos, k + 1, n)
  {
    NumUsesSnoc(s0.arena[h].ops, k);
  }

  /** Converting a use operand k keeps the rest of the arena, grows the inserted run by one and keeps the old registers' maps. */
  lemma ConvertKeepsFrame(s0: FnState, s: FnState, types: map<Reg, IRType>, h: Handle, b: nat, pos: nat, k: nat, n: nat)
    requires Progress(s0, s, types, h, b, pos, k, n) && k < |s0.arena[h].ops|
    requires IsUseReg(s0.arena[h].ops[k]) && s0.arena[h].ops[k].reg in types
    ensures h < |s.arena| && k < |s.arena[h].ops| && b < |s.blocks| && pos + n < |s.blocks[b]|
    ensures IsUseReg(s.arena[h].ops[k]) && s.arena[h].ops[k].reg in types
    ensures var s2 := AfterConvert(s, types, h, k, b, pos + n);
      s2.nextReg == s0.nextReg + n + 1 && |s2.arena| == |s0.arena| + n + 1 &&
      (forall x :: 0 <= x < |s0.arena| && x != h ==> s2.arena[x] == s0.arena[x]) &&
      s2.blocks == s0.blocks[b := s0.blocks[b][..pos + 1] + Handles(|s0.arena|, n + 1) + s0.blocks[b][pos + 1..]] &&
      AgreeBelow(s2.regLLT, s0.regLLT, s0.nextReg) && AgreeBelow(s2.regClass, s0.regClass, s0.nextReg)
  {
    InsertGrows(s0.blocks[b], pos, |s0.arena|, n);
  }

  /** Converting a use operand k advances the loop by one conversion. */
  lemma ProgressUse(s0: FnState, s: FnState, types: map<Reg, IRType>, h: Handle, b: nat, pos: nat, k: nat, n: nat)
    requires Progress(s0, s, types, h, b, pos, k, n) && k < |s0.arena[h].ops|
    requires IsUseReg(s0.arena[h].ops[k]) && s0.arena[h].ops[k].reg in types
    ensures h < |s.arena| && k < |s.arena[h].ops| && b < |s.blocks| && pos + n < |s.blocks[b]|
    ensures IsUseReg(s.arena[h].ops[k]) && s.arena[h].ops[k].reg in types
    ensures Progress(s0, AfterConvert(s, types, h, k, b, pos + n), types, h, b, pos, k + 1, n + 1)
  {
    var ops0 := s0.arena[h].ops;
    var base := |s0.arena|;
    var first := s0.nextReg;
    var src := ops0[k].reg;
    NumUsesSnoc(ops0, k);
    ConvertKeepsFrame(s0, s, types, h, b, pos, k, n);
    assert src < first;
    assert LLTOf(s.regLLT, src) == LLTOf(s0.regLLT, src);
    var s2 := AfterConvert(s, types, h, k, b, pos + n);
    var c := IdRegChoice(types[src], LLTOf(s0.regLLT, src));
    assert s2.arena[base + n] == GetIdInstr(c.getOp, first + n, src);
    ConvertedKept(ops0, k, n, s.arena[h].ops, s2.arena[h].ops, s.arena, s2.arena, base, first, types, s0.regLLT,
                  s.regClass, s2.regClass, s.regLLT, s2.regLLT);
    assert OperandConverted(ops0, k, s2.arena[h].ops, s2.arena, base, first, types, s0.regLLT, s2.regClass, s2.regLLT);
  }

  /** OperandConverted for the operands before k survives the conversion of operand k. */
  lemma ConvertedKept(ops0: seq<MachineOperand>, k: nat, n: nat, cur: seq<MachineOperand>, cur2: seq<MachineOperand>,
                      arena: seq<MachineInstr>, arena2: seq<MachineInstr>, base: nat, first: Reg, types: map<Reg, IRType>,
                      llts0: map<Reg, LLT>, classes: map<Reg, RegClass>, classes2: map<Reg, RegClass>,
                      llts: map<Reg, LLT>, llts2: map<Reg, LLT>)
    requires k < |ops0| && |cur| == |ops0| && |cur2| == |ops0| && |arena| == base + n && |arena2| >= |arena|
    requires forall i :: 0 <= i < k ==> OperandConverted(ops0, i, cur, arena, base, first, types, llts0, classes, llts)
    requires forall i :: 0 <= i < k ==> cur2[i] == cur[i]
    requires forall x :: base <= x < |arena| ==> arena2[x] == arena[x]
    requires forall r: Reg :: r < first + n && r in classes ==> r in classes2 && classes2[r] == classes[r]
    requires forall r: Reg :: r < first + n && r in llts ==> r in llts2 && llts2[r] == llts[r]
    ensures forall i :: 0 <= i < k ==> OperandConverted(ops0, i, cur2, arena2, base, first, types, llts0, classes2, llts2)
  {
    forall i | 0 <= i < k
      ensures OperandConverted(ops0, i, cur2, arena2, base, first, types, llts0, classes2, llts2)
    {
      assert OperandConverted(ops0, i, cur, arena, base, first, types, llts0, classes, llts);
    }
  }

  /** The loop body of processInstr for a register-use operand k; its conversion goes right after position at. */
  method ConvertOperand(mf: MachineFunction, gr: GlobalRegistry, h: Handle, k: nat, b: nat, at: nat)
    requires mf.Valid() && h < |mf.arena| && k < |mf.arena[h].ops| && b < |mf.blocks| && at < |mf.blocks[b]|
    requires IsUseReg(mf.arena[h].ops[k]) && mf.arena[h].ops[k].reg in gr.vregTypes
    modifies mf
    ensures mf.Valid()
    ensures StateOf(mf) == AfterConvert(old(StateOf(mf)), gr.vregTypes, h, k, b, at)
  {
    var op := mf.arena[h].ops[k];
    ghost var arena0 := mf.arena;
    assert op.reg < mf.nextReg;
    var idReg, getOp := CreateNewIdReg(mf, gr, op.reg);
    var g := mf.InsertAfter(b, at, GetIdInstr(getOp, idReg, op.reg));
    mf.SetOperand(h, k, RegOp(idReg, false));
    assert mf.arena == arena0[h := arena0[h].(ops := arena0[h].ops[k := RegOp(idReg, false)])] + [GetIdInstr(getOp, idReg, op.reg)];
  }

  /**
   * The operand loop of processInstr on instruction h, which stands at
   * position pos of block b: every register use gets its own GET_* conversion,
   * inserted in operand order right after h, and is rewired to that
   * conversion's id register.
   */
  method ConvertOperands(mf: MachineFunction, gr: GlobalRegistry, h: Handle, b: nat, pos: nat) returns (n: nat)
    requires mf.Valid() && h < |mf.arena| && b < |mf.blocks| && pos < |mf.blocks[b]|
    requires forall i :: 0 <= i < |mf.arena[h].ops| && IsUseReg(mf.arena[h].ops[i]) ==> mf.arena[h].ops[i].reg in gr.vregTypes
    modifies mf
    ensures mf.Valid()
    ensures n == NumUses(old(mf.arena)[h].ops)
    ensures Progress(old(StateOf(mf)), StateOf(mf), gr.vregTypes, h, b, pos, |old(mf.arena)[h].ops|, n)
  {
    ghost var s0 := StateOf(mf);
    assert InstrRegsBelow(mf.arena[h], mf.nextReg);
    ProgressStart(s0, gr.vregTypes, h, b, pos);
    n := 0;
    var k := 0;
    var count := |mf.arena[h].ops|;
    while k < count
      invariant mf.Valid() && count == |s0.arena[h].ops| && k <= count
      invariant Progress(s0, StateOf(mf), gr.vregTypes, h, b, pos, k, n)
    {
      if IsUseReg(mf.arena[h].ops[k]) {
        ProgressUse(s0, StateOf(mf), gr.vregTypes, h, b, pos, k, n);
        ConvertOperand(mf, gr, h, k, b, pos + n);
        n := n + 1;
      } else {
        ProgressSkip(s0, StateOf(mf), gr.vregTypes, h, b, pos, k, n);
      }
      k := k + 1;
    }
    assert s0.arena[h].ops[..k] == s0.arena[h].ops;
  }

  /**
   * What processInstr asserts of its instruction mi: it defines its result in
   * operand 0, and that result and every register it uses have a SPIR-V type.
   */
  ghost predicate ProcessableShape(mi: MachineInstr, types: map<Reg, IRType>) {
    mi.numDefs > 0 && |mi.ops| > 0 && mi.ops[0].RegOp? && mi.ops[0].isDef && mi.ops[0].reg in types &&
    UsesIn(mi, mi.ops[0].reg) == 0 &&
    forall i :: 0 <= i < |mi.ops| && IsUseReg(mi.ops[i]) ==> mi.ops[i].reg in types
  }

  /** Renaming a definition in operand 0 changes no use count. */
  lemma NumUsesRename(ops: seq<MachineOperand>, r: Reg)
    requires |ops| > 0 && !IsUseReg(ops[0])
    ensures NumUses(ops[0 := RegOp(r, true)]) == NumUses(ops)
  {
    assert ops[0 := RegOp(r, true)][1..] == ops[1..];
  }

  /** The state after processInstr renames the result of h and its one user u's operand 1 to the new id register. */
  function AfterRename(s: FnState, types: map<Reg, IRType>, h: Handle, u: Handle): FnState
    requires h < |s.arena| && u < |s.arena| && |s.arena[h].ops| > 0 && s.arena[h].ops[0].RegOp? && s.arena[h].ops[0].reg in types
    requires |s.arena[u].ops| > 1 && s.arena[u].ops[1].RegOp?
  {
    var r0 := s.arena[h].ops[0].reg;
    var c := IdRegChoice(types[r0], LLTOf(s.regLLT, r0));
    var id := s.nextReg;
    var a := s.arena[u := s.arena[u].(ops := s.arena[u].ops[1 := RegOp(id, s.arena[u].ops[1].isDef)])];
    FnState(a[h := a[h].(ops := a[h].ops[0 := RegOp(id, true)])], s.blocks, s.regLLT[id := c.llt], s.regClass[id := c.cls], id + 1)
  }

  /**
   * processInstr on instruction h, whose result has exactly one use: the
   * result becomes a fresh id register newReg, which the user's operand 1 now
   * reads, and each of the n register uses of h is routed through its own
   * GET_* conversion right after h. It fails only where the user's operand 1
   * is not a register, which setReg asserts.
   */
  method ProcessInstr(mf: MachineFunction, gr: GlobalRegistry, h: Handle) returns (ok: bool, newReg: Reg, n: nat)
    requires mf.Valid() && h in mf.Live() && h < |mf.arena| && ProcessableShape(mf.arena[h], gr.vregTypes)
    requires UseCount(mf.arena, mf.Live(), mf.arena[h].ops[0].reg) == 1
    modifies mf
    ensures mf.Valid()
    ensures !ok ==> StateOf(mf) == old(StateOf(mf))
    ensures ok ==>
      var r0 := old(mf.arena)[h].ops[0].reg;
      var u := UserIn(old(mf.arena), old(mf.Live()), r0).value;
      var b := BlockOf(old(mf.blocks), h);
      u != h && |old(mf.arena)[u].ops| > 1 && old(mf.arena)[u].ops[1].RegOp? &&
      newReg == old(mf.nextReg) && n == NumUses(old(mf.arena)[h].ops) &&
      Progress(AfterRename(old(StateOf(mf)), gr.vregTypes, h, u), StateOf(mf), gr.vregTypes, h, b,
               IndexOf(old(mf.blocks)[b], h), |old(mf.arena)[h].ops|, n)
  {
    ghost var s0 := StateOf(mf);
    n := 0;
    newReg := mf.nextReg;
    var r0 := mf.arena[h].ops[0].reg;
    var uOpt := UserIn(mf.arena, mf.Live(), r0);
    var u := uOpt.value;
    if |mf.arena[u].ops| < 2 || !mf.arena[u].ops[1].RegOp? {
      return false, newReg, 0;
    }
    ghost var mi := mf.arena[h];
    var isDef := mf.arena[u].ops[1].isDef;
    var getOp;
    newReg, getOp := CreateNewIdReg(mf, gr, r0);
    mf.SetOperand(u, 1, RegOp(newReg, isDef));
    mf.SetOperand(h, 0, RegOp(newReg, true));
    assert StateOf(mf) == AfterRename(s0, gr.vregTypes, h, u);
    assert mf.arena[h].ops == mi.ops[0 := RegOp(newReg, true)];
    NumUsesRename(mi.ops, newReg);
    var b := BlockOf(mf.blocks, h);
    var pos := IndexOf(mf.blocks[b], h);
    n := ConvertOperands(mf, gr, h, b, pos);
    ok := true;
  }

  lemma {:induction false} NumUsesPrefixGrows(ops: seq<MachineOperand>, i: nat, m: nat)
    requires i < m <= |ops| && IsUseReg(ops[i])
    ensures NumUses(ops[..i]) < NumUses(ops[..m])
  {
    NumUsesSnoc(ops, m - 1);
    if m > i + 1 {
      NumUsesPrefixGrows(ops, i, m - 1);
    }
  }

  lemma {:induction false} UseOfRank(ops: seq<MachineOperand>, m: nat, j: nat)
    requires m <= |ops| && j < NumUses(ops[..m])
    ensures exists i :: 0 <= i < m && IsUseReg(ops[i]) && NumUses(ops[..i]) == j
  {
    if m > 0 {
      NumUsesSnoc(ops, m - 1);
      if j < NumUses(ops[..m - 1]) {
        UseOfRank(ops, m - 1, j);
      } else {
        assert IsUseReg(ops[m - 1]) && NumUses(ops[..m - 1]) == j;
      }
    }
  }

  /**
   * The instruction at handle x (from base on) is the conversion of use
   * operand i: it defines id register first + (x - base) from the operand's
   * original register, and the operand now reads that id register.
   */
  ghost predicate IsConversionOf(ops0: seq<MachineOperand>, cur: seq<MachineOperand>, arena: seq<MachineInstr>,
                                 base: nat, first: Reg, x: int, i: int) {
    0 <= i < |ops0| && i < |cur| && base <= x < |arena| && IsUseReg(ops0[i]) &&
    cur[i] == RegOp(first + (x - base), false) &&
    arena[x].ops == [RegOp(first + (x - base), true), RegOp(ops0[i].reg, false)]
  }

  /** The instruction at handle x is the conversion of some use operand. */
  ghost predicate HasConversion(ops0: seq<MachineOperand>, cur: seq<MachineOperand>, arena: seq<MachineInstr>,
                                base: nat, first: Reg, x: int) {
    exists i :: IsConversionOf(ops0, cur, arena, base, first, x, i)
  }

  /**
   * After the operand loop of processInstr (OperandConverted for every operand
   * of the original list ops0, conversions from handle base on), the new
   * instructions are exactly one conversion per register use: the one at
   * handle base + j defines id register first + j from the value register of
   * some use operand, which now reads that id register, and no two use
   * operands share an id register.
   */
  lemma ConversionsOnePerUse(ops0: seq<MachineOperand>, cur: seq<MachineOperand>, arena: seq<MachineInstr>, base: nat,
                             first: Reg, types: map<Reg, IRType>, llts0: map<Reg, LLT>,
                             classes: map<Reg, RegClass>, llts: map<Reg, LLT>)
    requires |cur| == |ops0| && |arena| == base + NumUses(ops0)
    requires forall i :: 0 <= i < |ops0| ==> OperandConverted(ops0, i, cur, arena, base, first, types, llts0, classes, llts)
    ensures forall x :: base <= x < |arena| ==> HasConversion(ops0, cur, arena, base, first, x)
    ensures forall i1, i2 :: 0 <= i1 < i2 < |ops0| && IsUseReg(ops0[i1]) && IsUseReg(ops0[i2]) ==> cur[i1] != cur[i2]
  {
    assert ops0[..|ops0|] == ops0;
    forall x | base <= x < |arena|
      ensures HasConversion(ops0, cur, arena, base, first, x)
    {
      UseOfRank(ops0, |ops0|, x - base);
      var i :| 0 <= i < |ops0| && IsUseReg(ops0[i]) && NumUses(ops0[..i]) == x - base;
      assert OperandConverted(ops0, i, cur, arena, base, first, types, llts0, classes, llts);
      assert base + (x - base) == x;
      assert IsConversionOf(ops0, cur, arena, base, first, x, i);
    }
    forall i1, i2 | 0 <= i1 < i2 < |ops0| && IsUseReg(ops0[i1]) && IsUseReg(ops0[i2])
      ensures cur[i1] != cur[i2]
    {
      NumUsesPrefixGrows(ops0, i1, i2);
      assert OperandConverted(ops0, i1, cur, arena, base, first, types, llts0, classes, llts);
      assert OperandConverted(ops0, i2, cur, arena, base, first, types, llts0, classes, llts);
    }
  }

  // ---------------------------------------------------------------------------
  // generateAssignInstrs
  // ---------------------------------------------------------------------------

  /** The IR type of a scalar G_CONSTANT / G_FCONSTANT, read off its immediate operand. */
  function ScalarConstType(mi: MachineInstr): (t: Option<IRType>)
    ensures t.Some? ==> (t.value.IntTy? && mi.opcode == G_CONSTANT) || (t.value.FloatTy? && mi.opcode == G_FCONSTANT)
  {
    if mi.opcode == G_CONSTANT && |mi.ops| > 1 && mi.ops[1].CImmOp? then Some(IntTy(mi.ops[1].width))
    else if mi.opcode == G_FCONSTANT && |mi.ops| > 1 && mi.ops[1].FPImmOp? then Some(FloatTy(mi.ops[1].width))
    else None
  }

  /**
   * The type generateAssignInstrs gives a constant: its immediate's type, or
   * for a G_BUILD_VECTOR a vector of the first element's constant type with
   * one lane per explicit use operand; None where the source asserts.
   */
  function ConstantType(arena: seq<MachineInstr>, live: seq<Handle>, mi: MachineInstr): (t: Option<IRType>)
    ensures t.Some? ==> IsConstantOpcode(mi.opcode)
    ensures t.Some? && mi.opcode == G_BUILD_VECTOR ==>
      t.value.VecTy? && t.value.count == |mi.ops| - mi.numDefs && (t.value.elem.IntTy? || t.value.elem.FloatTy?)
  {
    if mi.opcode != G_BUILD_VECTOR then ScalarConstType(mi)
    else if |mi.ops| < 2 || !mi.ops[1].RegOp? || mi.numDefs > |mi.ops| then None
    else
      var e := DefIn(arena, live, mi.ops[1].reg);
      if e.None? then None
      else
        var elemTy := ScalarConstType(arena[e.value]);
        if elemTy.None? then None else Some(VecTy(elemTy.value, |mi.ops| - mi.numDefs))
  }

  /** What generateAssignInstrs does with one instruction. */
  datatype AssignStep =
    | AssignFromIntrinsic(reg: Reg, ty: IRType, insert: bool)  // spv_assign_type: deleted; assigns ty unless the def is a G_GLOBAL_VALUE
    | SkipConstant                                               // the constant's one use already names its type
    | AssignConstant(reg: Reg, ty: IRType)
    | Propagate                                                  // G_TRUNC, G_GLOBAL_VALUE, COPY, G_ADDRSPACE_CAST
    | Ignore
    | Malformed                                                  // a cast or assertion in the source fails

  predicate IsConstantOpcode(opc: Opcode) {
    opc == G_CONSTANT || opc == G_FCONSTANT || opc == G_BUILD_VECTOR
  }

  /** Whether the only use of the constant's result reg is an spv_assign_type or spv_assign_name. */
  predicate TypedBySoleUse(arena: seq<MachineInstr>, live: seq<Handle>, reg: Reg) {
    var u := UserIn(arena, live, reg);
    u.Some? && UseCount(arena, live, reg) == 1 &&
    (IsSpvIntrinsic(arena[u.value], spv_assign_type) || IsSpvIntrinsic(arena[u.value], spv_assign_name))
  }

  function ClassifyForAssign(arena: seq<MachineInstr>, live: seq<Handle>, mi: MachineInstr): AssignStep {
    if IsSpvIntrinsic(mi, spv_assign_type) then
      if |mi.ops| < 3 || !mi.ops[1].RegOp? || !mi.ops[2].MetaOp? || !mi.ops[2].md.TypeMD? then Malformed
      else
        var d := DefIn(arena, live, mi.ops[1].reg);
        if d.None? then Malformed
        else AssignFromIntrinsic(mi.ops[1].reg, mi.ops[2].md.ty, arena[d.value].opcode != G_GLOBAL_VALUE)
    else if IsConstantOpcode(mi.opcode) then
      if |mi.ops| == 0 || !mi.ops[0].RegOp? then Malformed
      else if TypedBySoleUse(arena, live, mi.ops[0].reg) then SkipConstant
      else
        var ty := ConstantType(arena, live, mi);
        if ty.None? then Malformed else AssignConstant(mi.ops[0].reg, ty.value)
    else if mi.opcode == G_TRUNC || mi.opcode == G_GLOBAL_VALUE || mi.opcode == COPY || mi.opcode == G_ADDRSPACE_CAST then
      Propagate
    else Ignore
  }

  /** The steps that insert an ASSIGN_TYPE. */
  predicate Inserts(a: AssignStep) {
    (a.AssignFromIntrinsic? && a.insert) || a.AssignConstant?
  }

  /** What a step says about the instruction it was taken on. */
  predicate StepFits(mi: MachineInstr, a: AssignStep) {
    match a
    case AssignFromIntrinsic(reg, ty, _) =>
      IsSpvIntrinsic(mi, spv_assign_type) && |mi.ops| >= 3 && mi.ops[1].RegOp? && mi.ops[1].reg == reg &&
      mi.ops[2] == MetaOp(TypeMD(ty))
    case SkipConstant => IsConstantOpcode(mi.opcode) && |mi.ops| > 0 && mi.ops[0].RegOp?
    case AssignConstant(reg, _) => IsConstantOpcode(mi.opcode) && |mi.ops| > 0 && mi.ops[0].RegOp? && mi.ops[0].reg == reg
    case Propagate => mi.opcode == G_TRUNC || mi.opcode == G_GLOBAL_VALUE || mi.opcode == COPY || mi.opcode == G_ADDRSPACE_CAST
    case Ignore =>
      !IsSpvIntrinsic(mi, spv_assign_type) && !IsConstantOpcode(mi.opcode) &&
      !(mi.opcode == G_TRUNC || mi.opcode == G_GLOBAL_VALUE || mi.opcode == COPY || mi.opcode == G_ADDRSPACE_CAST)
    case Malformed => IsSpvIntrinsic(mi, spv_assign_type) || IsConstantOpcode(mi.opcode)
  }

  /**
   * The classification reads the instruction the way the source's cases do:
   * an spv_assign_type takes its register from operand 1 and its type from
   * the metadata in operand 2, a constant is typed at its result, and an
   * instruction matching no case is left alone.
   */
  lemma ClassifyFits(arena: seq<MachineInstr>, live: seq<Handle>, mi: MachineInstr)
    ensures StepFits(mi, ClassifyForAssign(arena, live, mi))
    ensures IsSpvIntrinsic(mi, spv_assign_type) ==>
      ClassifyForAssign(arena, live, mi).AssignFromIntrinsic? || ClassifyForAssign(arena, live, mi).Malformed?
  {
  }

  /**
   * One iteration of generateAssignInstrs' walk, on instruction h. An
   * spv_assign_type is reported for deletion, after assigning its type to its
   * register unless that register's definition is a G_GLOBAL_VALUE; a constant
   * gets an ASSIGN_TYPE of its own type, unless its only use already names a
   * type (then it is skipped and nothing changes); a cast propagates a type
   * along its chain. ok is false where the source asserts.
   */
  method VisitForAssign(mf: MachineFunction, gr: GlobalRegistry, h: Handle)
      returns (ok: bool, skipped: bool, delete: bool, ghost placed: Option<Placement>)
    requires mf.Valid() && h < |mf.arena|
    modifies mf, gr
    ensures mf.Valid() && |mf.arena| >= |old(mf.arena)| && |mf.blocks| == |old(mf.blocks)|
    ensures Grows(old(mf.arena), old(mf.blocks), mf.arena, mf.blocks) && old(gr.vregTypes).Keys <= gr.vregTypes.Keys
    ensures var a := ClassifyForAssign(old(mf.arena), old(mf.Live()), old(mf.arena)[h]);
      (placed.Some? <==> ok && Inserts(a)) &&
      (placed.Some? ==> placed.value.at >= |old(mf.arena)| && Placed(mf.arena, mf.blocks, gr.vregTypes, placed.value, a.reg, a.ty))
    ensures var a := ClassifyForAssign(old(mf.arena), old(mf.Live()), old(mf.arena)[h]);
      (skipped <==> a.SkipConstant?) && (delete <==> ok && a.AssignFromIntrinsic?) && (a.Malformed? ==> !ok) &&
      (a.SkipConstant? || a.Ignore? || (a.AssignFromIntrinsic? && !a.insert) ==>
        ok && StateOf(mf) == old(StateOf(mf)) && gr.vregTypes == old(gr.vregTypes)) &&
      (ok && ((a.AssignFromIntrinsic? && a.insert) || a.AssignConstant?) ==>
        |mf.arena| == |old(mf.arena)| + 1 && mf.arena[|old(mf.arena)|] == AssignTypeInstr(a.reg, old(mf.nextReg), a.ty) &&
        a.reg in gr.vregTypes && gr.vregTypes[a.reg] == a.ty && old(mf.nextReg) in gr.vregTypes && gr.vregTypes[old(mf.nextReg)] == a.ty) &&
      (a.Propagate? ==>
        (ok <==> ChainType(old(mf.arena), old(mf.Live()), old(gr.vregTypes), old(mf.arena)[h], |old(mf.arena)|) != Aborted) &&
        mf.arena == old(mf.arena) && mf.blocks == old(mf.blocks))
  {
    var a := ClassifyForAssign(mf.arena, mf.Live(), mf.arena[h]);
    skipped := a.SkipConstant?;
    delete := false;
    ok := true;
    placed := None;
    match a {
      case AssignFromIntrinsic(reg, ty, insert) =>
        if insert {
          var newReg;
          ghost var p;
          ok, newReg, p := PlaceAssignInstr(mf, gr, reg, ty);
          placed := if ok then Some(p) else None;
        }
        delete := ok;
      case AssignConstant(reg, ty) =>
        var newReg;
        ghost var p;
        ok, newReg, p := PlaceAssignInstr(mf, gr, reg, ty);
        placed := if ok then Some(p) else None;
      case Propagate =>
        var res := PropagateSPIRVType(mf, gr, h, |mf.arena|);
        ok := res != Aborted;
      case Malformed =>
        ok := false;
      case SkipConstant =>
      case Ignore =>
    }
  }

  /**
   * What the walk records of its visits: seen[i] is the instruction visited,
   * steps[i] what was done with it (never a failed case), and placed[i] where
   * the ASSIGN_TYPE it inserted sits, for exactly the inserting steps.
   */
  ghost predicate WalkRecord(a: seq<MachineInstr>, bs: seq<seq<Handle>>, types: map<Reg, IRType>,
                             seen: seq<MachineInstr>, steps: seq<AssignStep>, placed: seq<Option<Placement>>) {
    |steps| == |seen| && |placed| == |seen| &&
    forall i :: 0 <= i < |seen| ==>
      StepFits(seen[i], steps[i]) && !steps[i].Malformed? && (placed[i].Some? <==> Inserts(steps[i])) &&
      (placed[i].Some? ==> Placed(a, bs, types, placed[i].value, steps[i].reg, steps[i].ty))
  }

  lemma WalkRecordKept(a0: seq<MachineInstr>, bs0: seq<seq<Handle>>, t0: map<Reg, IRType>,
                       a: seq<MachineInstr>, bs: seq<seq<Handle>>, t: map<Reg, IRType>,
                       seen: seq<MachineInstr>, steps: seq<AssignStep>, placed: seq<Option<Placement>>)
    requires WalkRecord(a0, bs0, t0, seen, steps, placed) && Grows(a0, bs0, a, bs) && t0.Keys <= t.Keys
    ensures WalkRecord(a, bs, t, seen, steps, placed)
  {
    forall i | 0 <= i < |seen| && placed[i].Some?
      ensures Placed(a, bs, t, placed[i].value, steps[i].reg, steps[i].ty)
    {
      PlacedKept(a0, bs0, t0, a, bs, t, placed[i].value, steps[i].reg, steps[i].ty);
    }
  }

  lemma WalkRecordAppend(a: seq<MachineInstr>, bs: seq<seq<Handle>>, t: map<Reg, IRType>,
                         seen: seq<MachineInstr>, steps: seq<AssignStep>, placed: seq<Option<Placement>>,
                         sn: seq<MachineInstr>, st: seq<AssignStep>, pl: seq<Option<Placement>>)
    requires WalkRecord(a, bs, t, seen, steps, placed) && WalkRecord(a, bs, t, sn, st, pl)
    ensures WalkRecord(a, bs, t, seen + sn, steps + st, placed + pl)
  {
    forall i | |seen| <= i < |seen| + |sn|
      ensures (seen + sn)[i] == sn[i - |seen|] && (steps + st)[i] == st[i - |seen|] && (placed + pl)[i] == pl[i - |seen|]
    {
    }
  }

  /** The instructions reported for deletion are still intrinsic calls. */
  ghost predicate DeletedIntrinsics(a: seq<MachineInstr>, deleted: seq<Handle>) {
    forall x :: x in deleted ==> x < |a| && a[x].opcode == G_INTRINSIC_W_SIDE_EFFECTS
  }

  lemma DeletedIntrinsicsKept(a0: seq<MachineInstr>, bs0: seq<seq<Handle>>, a: seq<MachineInstr>, bs: seq<seq<Handle>>,
                              deleted: seq<Handle>)
    requires DeletedIntrinsics(a0, deleted) && Grows(a0, bs0, a, bs)
    ensures DeletedIntrinsics(a, deleted)
  {
    forall x | x in deleted
      ensures x < |a| && a[x].opcode == G_INTRINSIC_W_SIDE_EFFECTS
    {
      assert SameShape(a0[x], a[x]);
    }
  }

  /** VisitForAssign as the walk records it: the step taken and where its ASSIGN_TYPE went. */
  method VisitStep(mf: MachineFunction, gr: GlobalRegistry, h: Handle)
      returns (ok: bool, delete: bool, ghost step: AssignStep, ghost placed: Option<Placement>)
    requires mf.Valid() && h < |mf.arena|
    modifies mf, gr
    ensures mf.Valid() && Grows(old(mf.arena), old(mf.blocks), mf.arena, mf.blocks)
    ensures old(gr.vregTypes).Keys <= gr.vregTypes.Keys
    ensures ok ==> (delete <==> IsSpvIntrinsic(old(mf.arena)[h], spv_assign_type))
    ensures step == ClassifyForAssign(old(mf.arena), old(mf.Live()), old(mf.arena)[h])
    ensures ok ==> WalkRecord(mf.arena, mf.blocks, gr.vregTypes, [old(mf.arena)[h]], [step], [placed])
  {
    step := ClassifyForAssign(mf.arena, mf.Live(), mf.arena[h]);
    ClassifyFits(mf.arena, mf.Live(), mf.arena[h]);
    var skipped;
    ok, skipped, delete, placed := VisitForAssign(mf, gr, h);
  }

  /** The walk's position in a block snapshot: at index k, or past the first instruction. */
  datatype Cursor = At(k: nat) | Done

  /** `if (MII == Begin) ReachedBegin = true; else --MII;` */
  function NextCursor(k: nat): (c: Cursor)
    ensures c.At? ==> c.k < k
  {
    if k == 0 then Done else At(k - 1)
  }

  /** The step as written: a skipped constant `continue`s past the decrement, so the cursor stays put. */
  function NextCursorAsWritten(k: nat, skipped: bool): Cursor {
    if skipped then At(k) else NextCursor(k)
  }

  /**
   * The cursor of the walk as written after `steps` iterations over the block
   * snapshot s, as long as every visit leaves the function unchanged (a
   * skipped constant or an ignored instruction); None once a visit would
   * change it.
   */
  function CursorAsWritten(arena: seq<MachineInstr>, live: seq<Handle>, s: seq<Handle>, c: Cursor, steps: nat): Option<Cursor>
    decreases steps
  {
    if steps == 0 || c.Done? then Some(c)
    else if c.k >= |s| || s[c.k] >= |arena| then None
    else
      var a := ClassifyForAssign(arena, live, arena[s[c.k]]);
      if a.SkipConstant? || a.Ignore? then CursorAsWritten(arena, live, s, NextCursorAsWritten(c.k, a.SkipConstant?), steps - 1)
      else None
  }

  /** As written, a skipped constant is visited again and again: the walk never moves past it. */
  lemma {:induction false} SkippedConstantStalls(arena: seq<MachineInstr>, live: seq<Handle>, s: seq<Handle>, k: nat, steps: nat)
    requires k < |s| && s[k] < |arena| && ClassifyForAssign(arena, live, arena[s[k]]).SkipConstant?
    ensures CursorAsWritten(arena, live, s, At(k), steps) == Some(At(k))
    decreases steps
  {
    if steps > 0 {
      SkippedConstantStalls(arena, live, s, k, steps - 1);
    }
  }

  /** `%0 = G_CONSTANT i32 5` whose only use is `spv_assign_name %0, 120`. */
  function NamedConstantBlock(): seq<MachineInstr> {
    [MachineInstr(G_CONSTANT, [RegOp(0, true), CImmOp(32, 5)], 1),
     MachineInstr(G_INTRINSIC_W_SIDE_EFFECTS, [IntrinsicOp(spv_assign_name), RegOp(0, false), ImmOp(120)], 0)]
  }

  /**
   * On that block the walk as written visits the spv_assign_name, steps back
   * to the constant and then stays at it for any number of further iterations.
   */
  lemma NamedConstantStalls(steps: nat)
    requires steps >= 1
    ensures CursorAsWritten(NamedConstantBlock(), [0, 1], [0, 1], At(1), steps) == Some(At(0))
  {
    var arena := NamedConstantBlock();
    assert UsesIn(arena[0], 0) == 0 && UsesIn(arena[1], 0) == 1;
    assert UseCount(arena, [0, 1], 0) == 1 by {
      assert [0, 1][1..] == [1];
    }
    assert ClassifyForAssign(arena, [0, 1], arena[1]).Ignore?;
    assert ClassifyForAssign(arena, [0, 1], arena[0]).SkipConstant?;
    SkippedConstantStalls(arena, [0, 1], [0, 1], 0, steps - 1);
  }

  /** The cursor of the corrected walk after `steps` iterations: it always moves on. */
  function CursorAfter(c: Cursor, steps: nat): Cursor
    decreases steps
  {
    if steps == 0 || c.Done? then c else CursorAfter(NextCursor(c.k), steps - 1)
  }

  /** The corrected walk over a block of n instructions ends after exactly n visits. */
  lemma {:induction false} WalkEnds(n: nat, steps: nat)
    requires n > 0
    ensures CursorAfter(At(n - 1), steps) == (if steps < n then At(n - 1 - steps) else Done)
    decreases steps
  {
    if steps > 0 {
      if n == 1 {
        assert CursorAfter(At(0), steps) == CursorAfter(Done, steps - 1);
      } else {
        WalkEnds(n - 1, steps - 1);
      }
    }
  }

  /** s last to first. */
  function Reversed<T>(s: seq<T>): (r: seq<T>)
    ensures |r| == |s|
  {
    if s == [] then [] else Reversed(s[1..]) + [s[0]]
  }

  lemma {:induction false} ReversedAt<T>(s: seq<T>, i: nat)
    requires i < |s|
    ensures Reversed(s)[i] == s[|s| - 1 - i]
  {
    if i < |s| - 1 {
      ReversedAt(s[1..], i);
    }
  }

  /** x was visited at some step i, when it was an spv_assign_type. */
  ghost predicate VisitedAsAssignType(visited: seq<Handle>, seen: seq<MachineInstr>, x: Handle) {
    exists i :: 0 <= i < |visited| && i < |seen| && visited[i] == x && IsSpvIntrinsic(seen[i], spv_assign_type)
  }

  /** Only spv_assign_type visits are reported for deletion. */
  ghost predicate DeletedSound(visited: seq<Handle>, seen: seq<MachineInstr>, deleted: seq<Handle>) {
    forall x :: x in deleted ==> VisitedAsAssignType(visited, seen, x)
  }

  /** Every spv_assign_type visit is reported for deletion. */
  ghost predicate DeletedComplete(visited: seq<Handle>, seen: seq<MachineInstr>, deleted: seq<Handle>) {
    forall i :: 0 <= i < |visited| && i < |seen| && IsSpvIntrinsic(seen[i], spv_assign_type) ==> visited[i] in deleted
  }

  /** Recording one more visit, of h when it was mi, keeps the deleted list in step. */
  lemma AppendVisits(visited: seq<Handle>, seen: seq<MachineInstr>, deleted: seq<Handle>,
                     vis: seq<Handle>, sn: seq<MachineInstr>, del: seq<Handle>)
    requires |seen| == |visited| && |sn| == |vis|
    requires DeletedSound(visited, seen, deleted) && DeletedSound(vis, sn, del)
    ensures DeletedSound(visited + vis, seen + sn, deleted + del)
    ensures DeletedComplete(visited, seen, deleted) && DeletedComplete(vis, sn, del) ==>
      DeletedComplete(visited + vis, seen + sn, deleted + del)
  {
    forall x | x in deleted + del
      ensures VisitedAsAssignType(visited + vis, seen + sn, x)
    {
      if x in deleted {
        var i :| 0 <= i < |visited| && i < |seen| && visited[i] == x && IsSpvIntrinsic(seen[i], spv_assign_type);
        assert (visited + vis)[i] == x && (seen + sn)[i] == seen[i];
      } else {
        assert VisitedAsAssignType(vis, sn, x);
        var i :| 0 <= i < |vis| && i < |sn| && vis[i] == x && IsSpvIntrinsic(sn[i], spv_assign_type);
        assert (visited + vis)[|visited| + i] == x && (seen + sn)[|visited| + i] == sn[i];
      }
    }
    if DeletedComplete(visited, seen, deleted) && DeletedComplete(vis, sn, del) {
      forall i | 0 <= i < |visited + vis| && i < |seen + sn| && IsSpvIntrinsic((seen + sn)[i], spv_assign_type)
        ensures (visited + vis)[i] in deleted + del
      {
        if i >= |visited| {
          assert (seen + sn)[i] == sn[i - |visited|] && (visited + vis)[i] == vis[i - |visited|];
        } else {
          assert (seen + sn)[i] == seen[i] && (visited + vis)[i] == visited[i];
        }
      }
    }
  }

  /** One visit as its own walk. */
  lemma OneVisit(h: Handle, mi: MachineInstr, delete: bool)
    requires delete <==> IsSpvIntrinsic(mi, spv_assign_type)
    ensures DeletedSound([h], [mi], if delete then [h] else [])
    ensures DeletedComplete([h], [mi], if delete then [h] else [])
  {
    if delete {
      assert [h][0] == h && [mi][0] == mi;
    }
  }

  /** The function as it stood when an instruction was visited. */
  datatype VisitState = VisitState(arena: seq<MachineInstr>, blocks: seq<seq<Handle>>)

  lemma GrowsRefl(a: seq<MachineInstr>, bs: seq<seq<Handle>>)
    ensures Grows(a, bs, a, bs)
  {
  }

  /**
   * Visit i happened in states[i], a state between (a0, bs0) and (a, bs):
   * handle visited[i] then held seen[i], and steps[i] is how the source's
   * cases classify it in that state.
   */
  ghost predicate VisitsAt(a0: seq<MachineInstr>, bs0: seq<seq<Handle>>, a: seq<MachineInstr>, bs: seq<seq<Handle>>,
                           states: seq<VisitState>, visited: seq<Handle>, seen: seq<MachineInstr>, steps: seq<AssignStep>) {
    |states| == |seen| && |visited| == |seen| && |steps| == |seen| &&
    forall i :: 0 <= i < |seen| ==> ClassifiedAt(a0, bs0, a, bs, states[i], visited[i], seen[i], steps[i])
  }

  ghost predicate ClassifiedAt(a0: seq<MachineInstr>, bs0: seq<seq<Handle>>, a: seq<MachineInstr>, bs: seq<seq<Handle>>,
                               st: VisitState, h: Handle, mi: MachineInstr, step: AssignStep) {
    Grows(a0, bs0, st.arena, st.blocks) && Grows(st.arena, st.blocks, a, bs) &&
    h < |st.arena| && mi == st.arena[h] && step == ClassifyForAssign(st.arena, Flatten(st.blocks), mi)
  }

  lemma VisitsAtGrown(a0: seq<MachineInstr>, bs0: seq<seq<Handle>>, a1: seq<MachineInstr>, bs1: seq<seq<Handle>>,
                      a2: seq<MachineInstr>, bs2: seq<seq<Handle>>, a3: seq<MachineInstr>, bs3: seq<seq<Handle>>,
                      states: seq<VisitState>, visited: seq<Handle>, seen: seq<MachineInstr>, steps: seq<AssignStep>)
    requires VisitsAt(a1, bs1, a2, bs2, states, visited, seen, steps)
    requires Grows(a0, bs0, a1, bs1) && Grows(a2, bs2, a3, bs3)
    ensures VisitsAt(a0, bs0, a3, bs3, states, visited, seen, steps)
  {
    forall i | 0 <= i < |seen|
      ensures ClassifiedAt(a0, bs0, a3, bs3, states[i], visited[i], seen[i], steps[i])
    {
      assert ClassifiedAt(a1, bs1, a2, bs2, states[i], visited[i], seen[i], steps[i]);
      GrowsTrans(a0, bs0, a1, bs1, states[i].arena, states[i].blocks);
      GrowsTrans(states[i].arena, states[i].blocks, a2, bs2, a3, bs3);
    }
  }

  lemma VisitsAtAppend(a0: seq<MachineInstr>, bs0: seq<seq<Handle>>, a: seq<MachineInstr>, bs: seq<seq<Handle>>,
                       states: seq<VisitState>, visited: seq<Handle>, seen: seq<MachineInstr>, steps: seq<AssignStep>,
                       sts: seq<VisitState>, vis: seq<Handle>, sn: seq<MachineInstr>, st: seq<AssignStep>)
    requires VisitsAt(a0, bs0, a, bs, states, visited, seen, steps) && VisitsAt(a0, bs0, a, bs, sts, vis, sn, st)
    ensures VisitsAt(a0, bs0, a, bs, states + sts, visited + vis, seen + sn, steps + st)
  {
    forall i | 0 <= i < |seen| + |sn|
      ensures ClassifiedAt(a0, bs0, a, bs, (states + sts)[i], (visited + vis)[i], (seen + sn)[i], (steps + st)[i])
    {
      if i < |seen| {
        assert (states + sts)[i] == states[i] && (visited + vis)[i] == visited[i];
        assert (seen + sn)[i] == seen[i] && (steps + st)[i] == steps[i];
      } else {
        var k := i - |seen|;
        assert (states + sts)[i] == sts[k] && (visited + vis)[i] == vis[k];
        assert (seen + sn)[i] == sn[k] && (steps + st)[i] == st[k];
        assert ClassifiedAt(a0, bs0, a, bs, sts[k], vis[k], sn[k], st[k]);
      }
    }
  }

  /**
   * What a walk has established since (a0, bs0, t0): the function only grew,
   * no type was lost, the deletions match the spv_assign_type visits, the
   * record of steps and placements holds in the current function, and each
   * step is the classification of its instruction in the state it was visited in.
   */
  ghost predicate Walked(a0: seq<MachineInstr>, bs0: seq<seq<Handle>>, t0: map<Reg, IRType>,
                         a: seq<MachineInstr>, bs: seq<seq<Handle>>, t: map<Reg, IRType>,
                         visited: seq<Handle>, seen: seq<MachineInstr>, deleted: seq<Handle>,
                         steps: seq<AssignStep>, placed: seq<Option<Placement>>, states: seq<VisitState>) {
    Grows(a0, bs0, a, bs) && t0.Keys <= t.Keys && |seen| == |visited| &&
    DeletedSound(visited, seen, deleted) && DeletedComplete(visited, seen, deleted) &&
    WalkRecord(a, bs, t, seen, steps, placed) && DeletedIntrinsics(a, deleted) &&
    VisitsAt(a0, bs0, a, bs, states, visited, seen, steps)
  }

  /** A walk followed by more of it, from where the first part left the function. */
  lemma WalkedAppend(a0: seq<MachineInstr>, bs0: seq<seq<Handle>>, t0: map<Reg, IRType>,
                     a1: seq<MachineInstr>, bs1: seq<seq<Handle>>, t1: map<Reg, IRType>,
                     a2: seq<MachineInstr>, bs2: seq<seq<Handle>>, t2: map<Reg, IRType>,
                     visited: seq<Handle>, seen: seq<MachineInstr>, deleted: seq<Handle>,
                     steps: seq<AssignStep>, placed: seq<Option<Placement>>,
                     states: seq<VisitState>, vis: seq<Handle>, sn: seq<MachineInstr>, del: seq<Handle>,
                     st: seq<AssignStep>, pl: seq<Option<Placement>>, sts: seq<VisitState>)
    requires Walked(a0, bs0, t0, a1, bs1, t1, visited, seen, deleted, steps, placed, states)
    requires Walked(a1, bs1, t1, a2, bs2, t2, vis, sn, del, st, pl, sts)
    ensures Walked(a0, bs0, t0, a2, bs2, t2, visited + vis, seen + sn, deleted + del, steps + st, placed + pl,
                   states + sts)
  {
    GrowsTrans(a0, bs0, a1, bs1, a2, bs2);
    GrowsRefl(a0, bs0);
    GrowsRefl(a2, bs2);
    VisitsAtGrown(a0, bs0, a0, bs0, a1, bs1, a2, bs2, states, visited, seen, steps);
    VisitsAtGrown(a0, bs0, a1, bs1, a2, bs2, a2, bs2, sts, vis, sn, st);
    VisitsAtAppend(a0, bs0, a2, bs2, states, visited, seen, steps, sts, vis, sn, st);
    DeletedIntrinsicsKept(a1, bs1, a2, bs2, deleted);
    WalkRecordKept(a1, bs1, t1, a2, bs2, t2, seen, steps, placed);
    WalkRecordAppend(a2, bs2, t2, seen, steps, placed, sn, st, pl);
    AppendVisits(visited, seen, deleted, vis, sn, del);
  }

  /** One visit of handle h, which was mi, as a walk of its own. */
  lemma VisitWalked(a1: seq<MachineInstr>, bs1: seq<seq<Handle>>, t1: map<Reg, IRType>,
                    a2: seq<MachineInstr>, bs2: seq<seq<Handle>>, t2: map<Reg, IRType>,
                    h: Handle, delete: bool, step: AssignStep, pl: Option<Placement>)
    requires h < |a1| && Grows(a1, bs1, a2, bs2) && t1.Keys <= t2.Keys
    requires delete <==> IsSpvIntrinsic(a1[h], spv_assign_type)
    requires step == ClassifyForAssign(a1, Flatten(bs1), a1[h])
    requires WalkRecord(a2, bs2, t2, [a1[h]], [step], [pl])
    ensures Walked(a1, bs1, t1, a2, bs2, t2, [h], [a1[h]], if delete then [h] else [], [step], [pl], [VisitState(a1, bs1)])
  {
    OneVisit(h, a1[h], delete);
    assert SameShape(a1[h], a2[h]);
    GrowsRefl(a1, bs1);
    assert ClassifiedAt(a1, bs1, a2, bs2, VisitState(a1, bs1), h, a1[h], step);
  }

  /** One visit of the walk, recorded after the visits made since (a0, bs0, t0). */
  method WalkVisit(mf: MachineFunction, gr: GlobalRegistry, h: Handle,
                   ghost a0: seq<MachineInstr>, ghost bs0: seq<seq<Handle>>, ghost t0: map<Reg, IRType>,
                   ghost visited: seq<Handle>, ghost seen: seq<MachineInstr>, ghost deleted: seq<Handle>,
                   ghost steps: seq<AssignStep>, ghost placed: seq<Option<Placement>>, ghost states: seq<VisitState>)
      returns (ok: bool, delete: bool, ghost mi: MachineInstr, ghost step: AssignStep, ghost pl: Option<Placement>,
               ghost st: VisitState)
    requires mf.Valid() && h < |mf.arena|
    requires Walked(a0, bs0, t0, mf.arena, mf.blocks, gr.vregTypes, visited, seen, deleted, steps, placed, states)
    modifies mf, gr
    ensures mf.Valid() && |mf.blocks| == |old(mf.blocks)|
    ensures !ok ==> Walked(a0, bs0, t0, mf.arena, mf.blocks, gr.vregTypes, visited, seen, deleted, steps, placed, states)
    ensures ok ==> mi == old(mf.arena)[h] && (delete <==> IsSpvIntrinsic(mi, spv_assign_type))
    ensures ok ==> Walked(a0, bs0, t0, mf.arena, mf.blocks, gr.vregTypes,
                          visited + [h], seen + [mi], deleted + (if delete then [h] else []), steps + [step], placed + [pl],
                          states + [st])
  {
    mi := mf.arena[h];
    ghost var a1, bs1, t1 := mf.arena, mf.blocks, gr.vregTypes;
    st := VisitState(a1, bs1);
    ok, delete, step, pl := VisitStep(mf, gr, h);
    if !ok {
      WalkedAppend(a0, bs0, t0, a1, bs1, t1, mf.arena, mf.blocks, gr.vregTypes,
                   visited, seen, deleted, steps, placed, states, [], [], [], [], [], []);
      assert visited + [] == visited && seen + [] == seen && deleted + [] == deleted;
      assert steps + [] == steps && placed + [] == placed && states + [] == states;
      return;
    }
    VisitWalked(a1, bs1, t1, mf.arena, mf.blocks, gr.vregTypes, h, delete, step, pl);
    WalkedAppend(a0, bs0, t0, a1, bs1, t1, mf.arena, mf.blocks, gr.vregTypes,
                 visited, seen, deleted, steps, placed, states, [h], [mi], if delete then [h] else [], [step], [pl], [st]);
  }

  /**
   * The walk of generateAssignInstrs over block b, last instruction to first,
   * with the cursor always moving on. It follows a snapshot of the block, so
   * the ASSIGN_TYPEs inserted during the walk (which match no case) are not
   * visited. seen[i] is visited[i]'s instruction when it was visited and
   * steps[i] what was done with it; the spv_assign_type instructions among
   * them are exactly the ones reported in deleted, and every inserting step
   * left its ASSIGN_TYPE in the function. It stops at the first visit where
   * the source asserts.
   */
  method WalkBlock(mf: MachineFunction, gr: GlobalRegistry, b: nat)
      returns (ok: bool, visited: seq<Handle>, deleted: seq<Handle>, ghost seen: seq<MachineInstr>,
               ghost steps: seq<AssignStep>, ghost placed: seq<Option<Placement>>, ghost states: seq<VisitState>)
    requires mf.Valid() && b < |mf.blocks|
    modifies mf, gr
    ensures mf.Valid() && |mf.blocks| == |old(mf.blocks)|
    ensures ok ==> visited == Reversed<Handle>(old(mf.blocks)[b])
    ensures Walked(old(mf.arena), old(mf.blocks), old(gr.vregTypes), mf.arena, mf.blocks, gr.vregTypes,
                   visited, seen, deleted, steps, placed, states)
  {
    var snapshot := mf.blocks[b];
    ghost var arena0, blocks0 := mf.arena, mf.blocks;
    assert forall k :: 0 <= k < |snapshot| ==> snapshot[k] < |mf.arena| by {
      forall k | 0 <= k < |snapshot| ensures snapshot[k] < |mf.arena| {
        InFlatten(mf.blocks, b, k);
        LiveBelow(mf.blocks, |mf.arena|, snapshot[k]);
      }
    }
    ok, visited, deleted, seen, steps, placed, states := true, [], [], [], [], [], [];
    ghost var types0 := gr.vregTypes;
    var c := if |snapshot| == 0 then Done else At(|snapshot| - 1);
    while c.At?
      invariant mf.Valid() && |mf.blocks| == |old(mf.blocks)| && ok
      invariant c.At? ==> c.k < |snapshot|
      invariant visited == Reversed<Handle>(snapshot[(if c.At? then c.k + 1 else 0)..])
      invariant Walked(arena0, blocks0, types0, mf.arena, mf.blocks, gr.vregTypes, visited, seen, deleted, steps, placed,
                       states)
      decreases if c.At? then c.k + 1 else 0
    {
      ok, visited, deleted, seen, steps, placed, states :=
        WalkAt(mf, gr, snapshot, c.k, arena0, blocks0, types0, visited, deleted, seen, steps, placed, states);
      if !ok {
        return;
      }
      c := NextCursor(c.k);
    }
    assert snapshot[0..] == snapshot;
  }

  /** WalkBlock's loop body: the visit of snapshot[k], appended to the walk's records. */
  method WalkAt(mf: MachineFunction, gr: GlobalRegistry, snapshot: seq<Handle>, k: nat,
                ghost a0: seq<MachineInstr>, ghost bs0: seq<seq<Handle>>, ghost t0: map<Reg, IRType>,
                visited: seq<Handle>, deleted: seq<Handle>, ghost seen: seq<MachineInstr>,
                ghost steps: seq<AssignStep>, ghost placed: seq<Option<Placement>>, ghost states: seq<VisitState>)
      returns (ok: bool, visited': seq<Handle>, deleted': seq<Handle>, ghost seen': seq<MachineInstr>,
               ghost steps': seq<AssignStep>, ghost placed': seq<Option<Placement>>, ghost states': seq<VisitState>)
    requires mf.Valid() && k < |snapshot| && snapshot[k] < |mf.arena|
    requires visited == Reversed<Handle>(snapshot[k + 1..])
    requires Walked(a0, bs0, t0, mf.arena, mf.blocks, gr.vregTypes, visited, seen, deleted, steps, placed, states)
    modifies mf, gr
    ensures mf.Valid() && |mf.blocks| == |old(mf.blocks)|
    ensures ok ==> visited' == Reversed<Handle>(snapshot[k..])
    ensures Walked(a0, bs0, t0, mf.arena, mf.blocks, gr.vregTypes, visited', seen', deleted', steps', placed', states')
  {
    var h := snapshot[k];
    var delete;
    ghost var mi, step, pl, st;
    ok, delete, mi, step, pl, st := WalkVisit(mf, gr, h, a0, bs0, t0, visited, seen, deleted, steps, placed, states);
    if !ok {
      visited', deleted', seen', steps', placed', states' := visited, deleted, seen, steps, placed, states;
      return;
    }
    assert visited + [snapshot[k]] == Reversed<Handle>(snapshot[k..]) by {
      assert snapshot[k..][1..] == snapshot[k + 1..];
    }
    visited', seen', steps', placed', states' := visited + [h], seen + [mi], steps + [step], placed + [pl], states + [st];
    deleted' := deleted + (if delete then [h] else []);
  }

  /** The blocks' snapshots each walked last to first, one after the other. */
  function ConcatReversed(snaps: seq<seq<Handle>>): seq<Handle>
    decreases |snaps|
  {
    if snaps == [] then [] else ConcatReversed(snaps[..|snaps| - 1]) + Reversed(snaps[|snaps| - 1])
  }

  /** An ASSIGN_TYPE is never an instruction reported for deletion, so erasing those keeps it. */
  lemma PlacedAfterErase(a: seq<MachineInstr>, bs: seq<seq<Handle>>, bs': seq<seq<Handle>>, t: map<Reg, IRType>,
                         deleted: seq<Handle>, seen: seq<MachineInstr>, steps: seq<AssignStep>, placed: seq<Option<Placement>>)
    requires WalkRecord(a, bs, t, seen, steps, placed) && DeletedIntrinsics(a, deleted)
    requires |bs'| == |bs| && forall b, x :: 0 <= b < |bs| && x in bs[b] && x !in deleted ==> x in bs'[b]
    ensures WalkRecord(a, bs', t, seen, steps, placed)
  {
    forall i | 0 <= i < |seen| && placed[i].Some?
      ensures Placed(a, bs', t, placed[i].value, steps[i].reg, steps[i].ty)
    {
      var p := placed[i].value;
      assert p.at !in deleted;
    }
  }

  /** One more block walked: its snapshot extends the visits and still holds the block's original instructions. */
  lemma SnapshotStep(bs0: seq<seq<Handle>>, n0: nat, order: seq<nat>, snapshots: seq<seq<Handle>>, snap: seq<Handle>,
                     visited: seq<Handle>, vis: seq<Handle>)
    requires HandlesIn(bs0, n0) && |snapshots| < |order| && forall i :: 0 <= i < |order| ==> order[i] < |bs0|
    requires Below(snap, n0) == Below(bs0[order[|snapshots|]], n0) && vis == Reversed<Handle>(snap)
    requires visited == ConcatReversed(snapshots)
    requires forall i :: 0 <= i < |snapshots| ==> Below(snapshots[i], n0) == bs0[order[i]]
    ensures visited + vis == ConcatReversed(snapshots + [snap])
    ensures forall i :: 0 <= i < |snapshots| + 1 ==> Below((snapshots + [snap])[i], n0) == bs0[order[i]]
  {
    var n := |snapshots|;
    assert (snapshots + [snap])[..n] == snapshots;
    assert Below(snap, n0) == bs0[order[n]] by {
      var s0 := bs0[order[n]];
      forall x | x in s0
        ensures x < n0
      {
        var i :| 0 <= i < |s0| && s0[i] == x;
      }
      BelowAll(s0, n0);
    }
    forall i | 0 <= i < n + 1
      ensures Below((snapshots + [snap])[i], n0) == bs0[order[i]]
    {
      if i < n {
        assert (snapshots + [snap])[i] == snapshots[i];
      }
    }
  }

  /** The walks of generateAssignInstrs, block after block in the given order, before the erasure. */
  method WalkOrder(mf: MachineFunction, gr: GlobalRegistry, order: seq<nat>)
      returns (ok: bool, deleted: seq<Handle>, ghost visited: seq<Handle>, ghost seen: seq<MachineInstr>,
               ghost steps: seq<AssignStep>, ghost placed: seq<Option<Placement>>, ghost snapshots: seq<seq<Handle>>,
               ghost states: seq<VisitState>)
    requires mf.Valid() && forall i :: 0 <= i < |order| ==> order[i] < |mf.blocks|
    modifies mf, gr
    ensures mf.Valid() && |mf.blocks| == |old(mf.blocks)|
    ensures Walked(old(mf.arena), old(mf.blocks), old(gr.vregTypes), mf.arena, mf.blocks, gr.vregTypes,
                   visited, seen, deleted, steps, placed, states)
    ensures ok ==> |snapshots| == |order| && visited == ConcatReversed(snapshots)
    ensures ok ==> forall i :: 0 <= i < |order| ==> Below(snapshots[i], |old(mf.arena)|) == old(mf.blocks)[order[i]]
  {
    ghost var a0, bs0, t0 := mf.arena, mf.blocks, gr.vregTypes;
    ok, deleted, visited, seen, steps, placed, snapshots, states := true, [], [], [], [], [], [], [];
    var j := 0;
    while j < |order|
      invariant mf.Valid() && |mf.blocks| == |old(mf.blocks)| && j <= |order|
      invariant Walked(a0, bs0, t0, mf.arena, mf.blocks, gr.vregTypes, visited, seen, deleted, steps, placed, states)
      invariant |snapshots| == j && visited == ConcatReversed(snapshots) && HandlesIn(bs0, |a0|)
      invariant forall i :: 0 <= i < j ==> Below(snapshots[i], |a0|) == bs0[order[i]]
    {
      ghost var a1, bs1, t1 := mf.arena, mf.blocks, gr.vregTypes;
      ghost var snap := mf.blocks[order[j]];
      var blockOk, vis, del;
      ghost var sn, st, pl, sts;
      blockOk, vis, del, sn, st, pl, sts := WalkBlock(mf, gr, order[j]);
      WalkedAppend(a0, bs0, t0, a1, bs1, t1, mf.arena, mf.blocks, gr.vregTypes,
                   visited, seen, deleted, steps, placed, states, vis, sn, del, st, pl, sts);
      if blockOk {
        assert Below(snap, |a0|) == Below(bs0[order[j]], |a0|) by {
          assert Grows(a0, bs0, a1, bs1);
        }
        SnapshotStep(bs0, |a0|, order, snapshots, snap, visited, vis);
      }
      visited, seen, deleted, steps, placed := visited + vis, seen + sn, deleted + del, steps + st, placed + pl;
      states := states + sts;
      if !blockOk {
        ok := false;
        return;
      }
      snapshots := snapshots + [snap];
      j := j + 1;
    }
  }

  /**
   * What the pass did with visit i, read off the state it was visited in:
   * an spv_assign_type got an ASSIGN_TYPE of its register to its type exactly
   * when that register's definition was not a G_GLOBAL_VALUE; a constant got
   * one of its result to its constant type exactly when its only use was not
   * already an spv_assign_type or spv_assign_name; nothing else got one.
   */
  lemma VisitOutcome(a0: seq<MachineInstr>, bs0: seq<seq<Handle>>, aw: seq<MachineInstr>, bsw: seq<seq<Handle>>,
                     a: seq<MachineInstr>, bs: seq<seq<Handle>>, t: map<Reg, IRType>,
                     states: seq<VisitState>, visited: seq<Handle>, seen: seq<MachineInstr>, steps: seq<AssignStep>,
                     placed: seq<Option<Placement>>, i: nat)
    requires VisitsAt(a0, bs0, aw, bsw, states, visited, seen, steps) && WalkRecord(a, bs, t, seen, steps, placed)
    requires i < |seen|
    ensures var st := states[i]; var live := Flatten(st.blocks); var mi := seen[i];
      IsSpvIntrinsic(mi, spv_assign_type) ==>
        |mi.ops| >= 3 && mi.ops[1].RegOp? && mi.ops[2].MetaOp? && mi.ops[2].md.TypeMD? &&
        DefIn(st.arena, live, mi.ops[1].reg).Some? &&
        (placed[i].Some? <==> st.arena[DefIn(st.arena, live, mi.ops[1].reg).value].opcode != G_GLOBAL_VALUE) &&
        (placed[i].Some? ==> Placed(a, bs, t, placed[i].value, mi.ops[1].reg, mi.ops[2].md.ty))
    ensures var st := states[i]; var live := Flatten(st.blocks); var mi := seen[i];
      IsConstantOpcode(mi.opcode) ==>
        |mi.ops| > 0 && mi.ops[0].RegOp? &&
        (placed[i].None? <==> TypedBySoleUse(st.arena, live, mi.ops[0].reg)) &&
        (placed[i].Some? ==>
          ConstantType(st.arena, live, mi).Some? &&
          Placed(a, bs, t, placed[i].value, mi.ops[0].reg, ConstantType(st.arena, live, mi).value))
    ensures !IsSpvIntrinsic(seen[i], spv_assign_type) && !IsConstantOpcode(seen[i].opcode) ==> placed[i].None?
  {
    assert ClassifiedAt(a0, bs0, aw, bsw, states[i], visited[i], seen[i], steps[i]);
    assert !steps[i].Malformed? && (placed[i].Some? <==> Inserts(steps[i]));
  }

  /**
   * generateAssignInstrs: walk the blocks in the given order (the CFG's post
   * order), then erase every spv_assign_type met. On success the walk covered
   * each listed block, last instruction to first (the block as it stood then:
   * its original instructions plus ASSIGN_TYPEs inserted by earlier blocks'
   * walks), every visited spv_assign_type and only those were erased, every
   * inserting step left its ASSIGN_TYPE in the function with both registers
   * typed, and each step is how the source's cases classify the instruction in
   * the state, between the start and the end of the walks, it was visited in.
   */
  method GenerateAssignInstrs(mf: MachineFunction, gr: GlobalRegistry, order: seq<nat>)
      returns (ok: bool, deleted: seq<Handle>, ghost visited: seq<Handle>, ghost seen: seq<MachineInstr>,
               ghost steps: seq<AssignStep>, ghost placed: seq<Option<Placement>>, ghost snapshots: seq<seq<Handle>>,
               ghost states: seq<VisitState>, ghost walked: VisitState)
    requires mf.Valid() && forall i :: 0 <= i < |order| ==> order[i] < |mf.blocks|
    modifies mf, gr
    ensures mf.Valid() && |seen| == |visited| && DeletedSound(visited, seen, deleted)
    ensures VisitsAt(old(mf.arena), old(mf.blocks), walked.arena, walked.blocks, states, visited, seen, steps)
    ensures mf.arena == walked.arena && |mf.blocks| == |walked.blocks|
    ensures forall b, x :: 0 <= b < |mf.blocks| ==> (x in mf.blocks[b] <==> x in walked.blocks[b] && (ok ==> x !in deleted))
    ensures ok ==> |snapshots| == |order| && visited == ConcatReversed(snapshots)
    ensures ok ==> forall i :: 0 <= i < |order| ==> Below(snapshots[i], |old(mf.arena)|) == old(mf.blocks)[order[i]]
    ensures ok ==> forall i :: 0 <= i < |visited| && IsSpvIntrinsic(seen[i], spv_assign_type) ==> Gone(mf.blocks, visited[i])
    ensures ok ==> forall x :: x in deleted ==> Gone(mf.blocks, x)
    ensures WalkRecord(mf.arena, mf.blocks, gr.vregTypes, seen, steps, placed)
  {
    ok, deleted, visited, seen, steps, placed, snapshots, states := WalkOrder(mf, gr, order);
    walked := VisitState(mf.arena, mf.blocks);
    if !ok {
      return;
    }
    ghost var bs2 := mf.blocks;
    EraseAll(mf, deleted);
    PlacedAfterErase(mf.arena, bs2, mf.blocks, gr.vregTypes, deleted, seen, steps, placed);
  }
}

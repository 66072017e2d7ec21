/**
 * Word-level literal encoding and the small lookup tables of the SPIR-V
 * backend's utility file.
 *
 * A literal string is carried as 32-bit immediates: its bytes, a NUL
 * terminator and zero padding up to a multiple of four bytes, four bytes per
 * word with the first byte in the lowest-order bits (section 2.2.1 of the
 * SPIR-V specification). A 64-bit literal is carried as two words, low-order
 * word first.
 */
module Utils {
  import opened Bits
  import opened Spirv
  import opened MIR

  // ---------------------------------------------------------------------
  // Byte groups and their little-endian value
  // ---------------------------------------------------------------------

  /** Byte i of s, or the terminator/padding byte 0 past its end. */
  function ByteAt(s: seq<Byte>, i: nat): Byte {
    if i < |s| then s[i] else 0
  }

  /** The four bytes that make up the word starting at byte i. */
  function Chunk(s: seq<Byte>, i: nat): (c: seq<Byte>)
    ensures |c| == 4
  {
    [ByteAt(s, i), ByteAt(s, i + 1), ByteAt(s, i + 2), ByteAt(s, i + 3)]
  }

  /** Little-endian value of a byte group: the first byte is the least significant. */
  function Pack(bs: seq<Byte>): nat {
    if bs == [] then 0 else bs[0] + 256 * Pack(bs[1..])
  }

  /** The n low-order bytes of w, least significant first. */
  function Unpack(w: nat, n: nat): (r: seq<Byte>)
    ensures |r| == n
  {
    if n == 0 then [] else [w % 256] + Unpack(w / 256, n - 1)
  }

  /** Byte j of w: bits 8j .. 8j+7. */
  function ByteOf(w: nat, j: nat): Byte {
    (w / Pow2(8 * j)) % 256
  }

  lemma Pow2Bytes()
    ensures Pow2(8) == 256 && Pow2(32) == WordBase && Pow2(64) == WordBase * WordBase
  {
    assert Pow2(2) == 4;
    assert Pow2(4) == 16 by {
      Pow2Add(2, 2);
    }
    assert Pow2(8) == 256 by {
      Pow2Add(4, 4);
    }
    assert Pow2(16) == 65536 by {
      Pow2Add(8, 8);
    }
    assert Pow2(32) == WordBase by {
      Pow2Add(16, 16);
    }
    assert Pow2(64) == WordBase * WordBase by {
      Pow2Add(32, 32);
    }
  }

  lemma {:induction false} PackBound(bs: seq<Byte>)
    ensures Pack(bs) < Pow2(8 * |bs|)
  {
    if bs != [] {
      PackBound(bs[1..]);
      Pow2Bytes();
      Pow2Add(8, 8 * (|bs| - 1));
      assert 8 * |bs| == 8 + 8 * (|bs| - 1);
    }
  }

  lemma {:induction false} PackSnoc(bs: seq<Byte>, c: Byte)
    ensures Pack(bs + [c]) == Pack(bs) + c * Pow2(8 * |bs|)
  {
    if bs == [] {
      assert [c][1..] == [];
    } else {
      var rest := bs[1..];
      assert (bs + [c])[1..] == rest + [c];
      PackSnoc(rest, c);
      var p := Pow2(8 * |rest|);
      assert Pow2(8 * |bs|) == 256 * p by {
        Pow2Bytes();
        Pow2Add(8, 8 * |rest|);
        assert 8 * |bs| == 8 + 8 * |rest|;
      }
      var q := Pack(rest);
      assert Pack(bs + [c]) == bs[0] + 256 * (q + c * p) by {
        assert (bs + [c])[0] == bs[0];
      }
      assert Pack(bs) == bs[0] + 256 * q;
      PackStepArith(bs[0], q, c, p);
    }
  }

  lemma PackStepArith(b0: int, q: int, c: int, p: int)
    ensures b0 + 256 * (q + c * p) == (b0 + 256 * q) + c * (256 * p)
  {
    assert 256 * (q + c * p) == 256 * q + 256 * (c * p);
    assert 256 * (c * p) == c * (256 * p);
  }

  lemma {:induction false} UnpackPack(bs: seq<Byte>)
    ensures Unpack(Pack(bs), |bs|) == bs
  {
    if bs != [] {
      var w := Pack(bs);
      DivModUnique(w, 256, Pack(bs[1..]), bs[0]);
      UnpackPack(bs[1..]);
    }
  }

  /** Byte j of a value read through Unpack is bits 8j .. 8j+7 of the value. */
  lemma {:induction false} UnpackAt(w: nat, n: nat, j: nat)
    requires j < n
    ensures Unpack(w, n)[j] == ByteOf(w, j)
  {
    if j > 0 {
      UnpackAt(w / 256, n - 1, j - 1);
      Pow2Bytes();
      Pow2Add(8, 8 * (j - 1));
      assert 8 * j == 8 + 8 * (j - 1);
      DivDiv(w, 256, Pow2(8 * (j - 1)));
    }
  }

  // ---------------------------------------------------------------------
  // getPaddedLen, convertCharsToWord, addStringImm
  // ---------------------------------------------------------------------

  /** `getPaddedLen`: the byte length of s with its terminator and padding. */
  function PaddedLen(s: seq<Byte>): (r: nat)
    ensures r % 4 == 0
    ensures |s| + 1 <= r < |s| + 5
  {
    var len := |s| + 1;
    if len % 4 == 0 then len else len + (4 - len % 4)
  }

  /** The word that packs bytes i .. i+3 of s, zero past the end. */
  function WordOf(s: seq<Byte>, i: nat): Word {
    PackBound(Chunk(s, i));
    Pow2Bytes();
    Pack(Chunk(s, i))
  }

  /** The words a literal string occupies. */
  function StringWords(s: seq<Byte>): (ws: seq<Word>)
    ensures |ws| == PaddedLen(s) / 4
  {
    seq(PaddedLen(s) / 4, k requires 0 <= k => WordOf(s, 4 * k))
  }

  /** Immediate machine operands holding the given words. */
  function ImmWords(ws: seq<int>): (r: seq<MachineOperand>)
    ensures |r| == |ws|
  {
    seq(|ws|, k requires 0 <= k < |ws| => ImmOp(ws[k]))
  }

  lemma ImmWordsAppend(ws: seq<int>, w: int)
    ensures ImmWords(ws + [w]) == ImmWords(ws) + [ImmOp(w)]
  {
  }

  /** `convertCharsToWord`: OR each byte into its place, lowest byte first. */
  method ConvertCharsToWord(s: seq<Byte>, i: nat) returns (w: Word)
    ensures w == WordOf(s, i)
  {
    var word: nat := 0;
    var wordIndex: nat := 0;
    while wordIndex < 4
      invariant wordIndex <= 4
      invariant word == Pack(Chunk(s, i)[..wordIndex])
    {
      var strIndex := i + wordIndex;
      var charToAdd: Byte := 0;
      if strIndex < |s| {
        charToAdd := s[strIndex];
      }
      ghost var done := Chunk(s, i)[..wordIndex];
      assert Chunk(s, i)[..wordIndex + 1] == done + [charToAdd];
      PackBound(done);
      MultipleOfPow2(charToAdd, 8 * wordIndex);
      BitOrDisjoint(word, charToAdd * Pow2(8 * wordIndex), 8 * wordIndex);
      PackSnoc(done, charToAdd);
      word := BitOr(word, charToAdd * Pow2(wordIndex * 8));
      wordIndex := wordIndex + 1;
    }
    assert Chunk(s, i)[..4] == Chunk(s, i);
    w := WordOf(s, i);
  }

  /**
   * `addStringImm`: append the string's words to the instruction under
   * construction, one immediate per four bytes of padded length.
   */
  method AddStringImm(s: seq<Byte>, mib: InstBuilder)
    modifies mib
    ensures mib.ops == old(mib.ops) + ImmWords(StringWords(s))
    ensures mib.opcode == old(mib.opcode) && mib.numDefs == old(mib.numDefs)
  {
    var paddedLen := PaddedLen(s);
    var i := 0;
    while i < paddedLen
      invariant i % 4 == 0 && i <= paddedLen
      invariant mib.ops == old(mib.ops) + ImmWords(StringWords(s)[..i / 4])
      invariant mib.opcode == old(mib.opcode) && mib.numDefs == old(mib.numDefs)
    {
      var w := ConvertCharsToWord(s, i);
      assert StringWords(s)[..i / 4 + 1] == StringWords(s)[..i / 4] + [w];
      ImmWordsAppend(StringWords(s)[..i / 4], w);
      mib.AddImm(w);
      i := i + 4;
    }
    assert StringWords(s)[..i / 4] == StringWords(s);
  }

  /** The number of words of a string is |s|/4 + 1, the count the printer steps over. */
  lemma StringWordCount(s: seq<Byte>)
    ensures |StringWords(s)| == |s| / 4 + 1
  {
    var n := |s| / 4 + 1;
    assert 4 * n == |s| - |s| % 4 + 4;
    assert PaddedLen(s) == 4 * n;
  }

  /** Bits 8j .. 8j+7 of word k are byte 4k+j of the string, or 0 past its end. */
  lemma WordByte(s: seq<Byte>, k: nat, j: nat)
    requires k < |StringWords(s)| && j < 4
    ensures ByteOf(StringWords(s)[k], j) == ByteAt(s, 4 * k + j)
  {
    var c := Chunk(s, 4 * k);
    UnpackPack(c);
    UnpackAt(Pack(c), 4, j);
  }

  /** The last word always ends in a zero byte, so the terminator is never lost. */
  lemma LastWordTopByteZero(s: seq<Byte>)
    ensures ByteOf(StringWords(s)[|StringWords(s)| - 1], 3) == 0
  {
    var n := |StringWords(s)|;
    StringWordCount(s);
    WordByte(s, n - 1, 3);
  }

  // ---------------------------------------------------------------------
  // Reading a string back
  // ---------------------------------------------------------------------

  /** The bytes of bs before its first zero byte. */
  function TakeToNul(bs: seq<Byte>): (r: seq<Byte>)
    ensures |r| <= |bs|
  {
    if bs == [] || bs[0] == 0 then [] else [bs[0]] + TakeToNul(bs[1..])
  }

  /**
   * The string held by a run of words: the bytes of each word's low 32 bits,
   * least significant first, up to the first zero byte.
   */
  function ReadString(ws: seq<int>): seq<Byte> {
    if ws == [] then []
    else
      var t := TakeToNul(Unpack(ws[0] % WordBase, 4));
      if |t| < 4 then t else t + ReadString(ws[1..])
  }

  predicate NulFree(s: seq<Byte>) {
    forall i :: 0 <= i < |s| ==> s[i] != 0
  }

  lemma {:induction false} TakeToNulAll(bs: seq<Byte>)
    requires NulFree(bs)
    ensures TakeToNul(bs) == bs
  {
    if bs != [] {
      TakeToNulAll(bs[1..]);
    }
  }

  lemma {:induction false} TakeToNulPrefix(a: seq<Byte>, b: seq<Byte>)
    requires NulFree(a) && b != [] && b[0] == 0
    ensures TakeToNul(a + b) == a
  {
    if a == [] {
    } else {
      assert (a + b)[1..] == a[1..] + b;
      TakeToNulPrefix(a[1..], b);
    }
  }

  /** The word at k decodes to the four bytes of its chunk. */
  lemma FirstWordChunk(s: seq<Byte>, k: nat, rest: seq<int>)
    requires k < |StringWords(s)|
    ensures Unpack((StringWords(s)[k..] + rest)[0] % WordBase, 4) == Chunk(s, 4 * k)
  {
    var c := Chunk(s, 4 * k);
    var w := StringWords(s)[k];
    assert (StringWords(s)[k..] + rest)[0] == w;
    assert w == WordOf(s, 4 * k) == Pack(c);
    assert w % WordBase == w;
    UnpackPack(c);
  }

  /** A word before the last holds four string bytes, none of them zero, and reading goes on. */
  lemma ReadStringInner(s: seq<Byte>, k: nat, rest: seq<int>)
    requires NulFree(s) && k + 1 < |StringWords(s)|
    ensures ReadString(StringWords(s)[k..] + rest) == s[4 * k .. 4 * k + 4] + ReadString(StringWords(s)[k + 1..] + rest)
    ensures s[4 * k..] == s[4 * k .. 4 * k + 4] + s[4 * (k + 1)..]
  {
    var ws := StringWords(s);
    var xs := ws[k..] + rest;
    var c := Chunk(s, 4 * k);
    FirstWordChunk(s, k, rest);
    StringWordCount(s);
    assert c == s[4 * k .. 4 * k + 4];
    TakeToNulAll(c);
    assert xs[1..] == ws[k + 1..] + rest;
  }

  /** The last word holds the string's tail and then zeros, so reading stops there. */
  lemma ReadStringLast(s: seq<Byte>, k: nat, rest: seq<int>)
    requires NulFree(s) && k + 1 == |StringWords(s)|
    ensures ReadString(StringWords(s)[k..] + rest) == s[4 * k..]
  {
    var c := Chunk(s, 4 * k);
    FirstWordChunk(s, k, rest);
    StringWordCount(s);
    var tail := s[4 * k..];
    assert |tail| < 4;
    assert c == tail + c[|tail|..];
    TakeToNulPrefix(tail, c[|tail|..]);
  }

  lemma {:induction false} ReadStringFrom(s: seq<Byte>, k: nat, rest: seq<int>)
    requires NulFree(s)
    requires k < |StringWords(s)|
    ensures ReadString(StringWords(s)[k..] + rest) == s[4 * k..]
    decreases |StringWords(s)| - k
  {
    if k + 1 < |StringWords(s)| {
      ReadStringInner(s, k, rest);
      ReadStringFrom(s, k + 1, rest);
    } else {
      ReadStringLast(s, k, rest);
    }
  }

  /**
   * Round trip: a NUL-free string is recovered from its words as the bytes
   * before the first zero, whatever operands follow them.
   */
  lemma StringRoundTrip(s: seq<Byte>, rest: seq<int>)
    requires NulFree(s)
    ensures ReadString(StringWords(s) + rest) == s
  {
    ReadStringFrom(s, 0, rest);
    assert StringWords(s)[0..] == StringWords(s);
  }

  // ---------------------------------------------------------------------
  // addNumImm
  // ---------------------------------------------------------------------

  /** The low and the high word of a 64-bit value: `v & 0xffffffff`, `(v >> 32) & 0xffffffff`. */
  function SplitWords(value: nat): (r: seq<Word>)
    requires value < WordBase * WordBase
    ensures |r| == 2 && BitOr(r[0], r[1] * WordBase) == value
  {
    SplitJoin(value);
    [value % WordBase, (value / WordBase) % WordBase]
  }

  /** The integer widths addNumImm knows how to encode. */
  predicate SupportedWidth(width: nat) {
    width == 1 || width == 8 || width == 16 || width == 32 || width == 64
  }

  /** The immediates addNumImm appends for a supported width. */
  function NumImmWords(width: nat, value: nat): (r: seq<Word>)
    requires SupportedWidth(width)
    requires value < Pow2(width)
    ensures width == 1 ==> r == []
    ensures width == 8 || width == 16 || width == 32 ==> r == [value]
    ensures width == 64 ==> |r| == 2 && BitOr(r[0], r[1] * Pow2(32)) == value
  {
    if width == 1 then []
    else if width == 64 then
      Pow2Bytes();
      SplitWords(value)
    else
      Pow2Bytes();
      Pow2Mono(width, 32);
      [value]
  }

  lemma {:induction false} Pow2Mono(a: nat, b: nat)
    requires a <= b
    ensures Pow2(a) <= Pow2(b)
  {
    if a < b {
      Pow2Mono(a, b - 1);
    }
  }

  /** `low | high << 32` re-assembles a 64-bit value from its two words. */
  lemma SplitJoin(value: nat)
    requires value < WordBase * WordBase
    ensures BitOr(value % WordBase, ((value / WordBase) % WordBase) * WordBase) == value
  {
    Pow2Bytes();
    var low := value % WordBase;
    var high := value / WordBase;
    assert high < WordBase;
    assert high % WordBase == high;
    MultipleOfPow2(high, 32);
    BitOrDisjoint(low, high * Pow2(32), 32);
  }

  /** The two words of a 64-bit value are its low and its high half. */
  lemma NumImmWords64(value: nat)
    requires value < Pow2(64)
    ensures NumImmWords(64, value) == [value % WordBase, (value / WordBase) % WordBase]
    ensures ImmWords(NumImmWords(64, value)) == [ImmOp(value % WordBase), ImmOp((value / WordBase) % WordBase)]
  {
    Pow2Bytes();
    assert NumImmWords(64, value) == SplitWords(value);
  }

  /** A constant of 8, 16 or 32 bits is one word, itself. */
  lemma NarrowWidthOneWord(width: nat, value: nat)
    requires width == 8 || width == 16 || width == 32
    requires value < Pow2(width)
    ensures value < WordBase && NumImmWords(width, value) == [value]
    ensures ImmWords(NumImmWords(width, value)) == [ImmOp(value)]
  {
    Pow2Bytes();
    Pow2Mono(width, 32);
  }

  /**
   * `addNumImm`: append the immediates of an integer constant of the given
   * width; ok is false exactly where the source reports a fatal error.
   */
  method AddNumImm(width: nat, value: nat, mib: InstBuilder) returns (ok: bool)
    requires value < Pow2(width)
    modifies mib
    ensures ok <==> SupportedWidth(width)
    ensures ok ==> mib.ops == old(mib.ops) + ImmWords(NumImmWords(width, value))
    ensures !ok ==> mib.ops == old(mib.ops)
    ensures mib.opcode == old(mib.opcode) && mib.numDefs == old(mib.numDefs)
  {
    if width == 1 {
      ok := true;
    } else if width == 8 || width == 16 || width == 32 {
      NarrowWidthOneWord(width, value);
      mib.AddImm(value);
      ok := true;
    } else if width == 64 {
      var fullImm := value;
      var lowBits := fullImm % WordBase;
      var highBits := (fullImm / WordBase) % WordBase;
      mib.AddImm(lowBits);
      mib.AddImm(highBits);
      NumImmWords64(value);
      assert mib.ops == old(mib.ops) + [ImmOp(lowBits), ImmOp(highBits)];
      ok := true;
    } else {
      ok := false;
    }
  }

  // ---------------------------------------------------------------------
  // buildOpName, buildOpDecorate
  // ---------------------------------------------------------------------

  /** The operands of an OpDecorate: target, decoration, string words, arguments. */
  function DecorateOperands(reg: Reg, dec: int, decArgs: seq<Word>, strImm: seq<Byte>): (r: seq<MachineOperand>)
    ensures |r| == 2 + (if strImm == [] then 0 else |StringWords(strImm)|) + |decArgs|
    ensures r[..2] == [RegOp(reg, false), ImmOp(dec)]
    ensures strImm == [] ==> r[2..] == ImmWords(decArgs)
    ensures strImm != [] ==>
      r[2..2 + |StringWords(strImm)|] == ImmWords(StringWords(strImm)) &&
      r[2 + |StringWords(strImm)|..] == ImmWords(decArgs)
  {
    [RegOp(reg, false), ImmOp(dec)]
      + (if strImm == [] then [] else ImmWords(StringWords(strImm)))
      + ImmWords(decArgs)
  }

  /** `buildOpName`: an OpName carrying the name, and nothing for an empty name. */
  method BuildOpName(target: Reg, name: seq<Byte>, mir: MIRBuilder)
    modifies mir
    ensures name == [] ==> mir.built == old(mir.built)
    ensures name != [] ==>
      mir.built == old(mir.built) + [MachineInstr(OpName, [RegOp(target, false)] + ImmWords(StringWords(name)), 0)]
  {
    if name != [] {
      var mib := new InstBuilder(OpName);
      mib.AddUse(target);
      AddStringImm(name, mib);
      assert mib.ops == [RegOp(target, false)] + ImmWords(StringWords(name));
      mir.Insert(mib.Instr());
    }
  }

  /** The decoration arguments, appended one immediate each. */
  method AddWordImms(ws: seq<Word>, mib: InstBuilder)
    modifies mib
    ensures mib.ops == old(mib.ops) + ImmWords(ws)
    ensures mib.opcode == old(mib.opcode) && mib.numDefs == old(mib.numDefs)
  {
    var i := 0;
    while i < |ws|
      invariant i <= |ws|
      invariant mib.ops == old(mib.ops) + ImmWords(ws[..i])
      invariant mib.opcode == old(mib.opcode) && mib.numDefs == old(mib.numDefs)
    {
      assert ws[..i + 1] == ws[..i] + [ws[i]];
      ImmWordsAppend(ws[..i], ws[i]);
      mib.AddImm(ws[i]);
      i := i + 1;
    }
    assert ws[..i] == ws;
  }

  /** `buildOpDecorate`: one OpDecorate whose operands are DecorateOperands. */
  method BuildOpDecorate(reg: Reg, mir: MIRBuilder, dec: int, decArgs: seq<Word>, strImm: seq<Byte>)
    modifies mir
    ensures mir.built == old(mir.built) + [MachineInstr(OpDecorate, DecorateOperands(reg, dec, decArgs, strImm), 0)]
  {
    var mib := new InstBuilder(OpDecorate);
    mib.AddUse(reg);
    mib.AddImm(dec);
    if strImm != [] {
      AddStringImm(strImm, mib);
    }
    ghost var prefix := mib.ops;
    assert prefix == [RegOp(reg, false), ImmOp(dec)]
      + (if strImm == [] then [] else ImmWords(StringWords(strImm)));
    AddWordImms(decArgs, mib);
    assert mib.ops == DecorateOperands(reg, dec, decArgs, strImm);
    mir.Insert(mib.Instr());
  }

  // ---------------------------------------------------------------------
  // Storage classes, address spaces, memory semantics
  // ---------------------------------------------------------------------

  /** The storage classes that have an LLVM address space. */
  predicate HasAddressSpace(sc: StorageClass) {
    sc in {Function, CrossWorkgroup, UniformConstant, Workgroup, Generic, Input}
  }

  /** The address spaces that name a storage class. */
  predicate IsKnownAddressSpace(addrSpace: nat) {
    addrSpace in {0, 1, 2, 3, 4, 7}
  }

  /** `addressSpaceToStorageClass`; any other address space is unreachable. */
  function AddressSpaceToStorageClass(addrSpace: nat): (sc: StorageClass)
    requires IsKnownAddressSpace(addrSpace)
    ensures HasAddressSpace(sc)
  {
    match addrSpace
    case 0 => Function
    case 1 => CrossWorkgroup
    case 2 => UniformConstant
    case 3 => Workgroup
    case 4 => Generic
    case 7 => Input
  }

  /** `storageClassToAddressSpace`: the inverse of AddressSpaceToStorageClass. */
  function StorageClassToAddressSpace(sc: StorageClass): (r: nat)
    requires HasAddressSpace(sc)
    ensures IsKnownAddressSpace(r)
    ensures AddressSpaceToStorageClass(r) == sc
  {
    match sc
    case Function => 0
    case CrossWorkgroup => 1
    case UniformConstant => 2
    case Workgroup => 3
    case Generic => 4
    case Input => 7
  }

  /** The other direction: mapping an address space to a storage class and back is the identity. */
  lemma AddressSpaceRoundTrip(addrSpace: nat)
    requires IsKnownAddressSpace(addrSpace)
    ensures StorageClassToAddressSpace(AddressSpaceToStorageClass(addrSpace)) == addrSpace
  {
  }

  /** The Memory Semantics values `getMemSemanticsForStorageClass` chooses from (section 3.25 of the SPIR-V specification). */
  datatype MemorySemantics =
    | SemanticsNone | UniformMemory | WorkgroupMemory | CrossWorkgroupMemory
    | AtomicCounterMemory | ImageMemory

  /** `getMemSemanticsForStorageClass`: total; the classes without their own memory get None. */
  function GetMemSemanticsForStorageClass(sc: StorageClass): (r: MemorySemantics)
    ensures r == UniformMemory <==> sc in {StorageBuffer, Uniform}
    ensures r == WorkgroupMemory <==> sc == Workgroup
    ensures r == CrossWorkgroupMemory <==> sc == CrossWorkgroup
    ensures r == AtomicCounterMemory <==> sc == AtomicCounter
    ensures r == ImageMemory <==> sc == Image
    ensures r == SemanticsNone <==> sc !in {StorageBuffer, Uniform, Workgroup, CrossWorkgroup, AtomicCounter, Image}
  {
    match sc
    case StorageBuffer | Uniform => UniformMemory
    case Workgroup => WorkgroupMemory
    case CrossWorkgroup => CrossWorkgroupMemory
    case AtomicCounter => AtomicCounterMemory
    case Image => ImageMemory
    case _ => SemanticsNone
  }
}

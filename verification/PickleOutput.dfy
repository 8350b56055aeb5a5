/** The class that writes pickle opcodes to a stream (cli/pickle.hpp).  Every method appends to
    `os` the assembled bytes of the instructions that PickleMachine gives a meaning to. */
module PickleOutput {
  import opened Bytes
  import opened PickleMachine
  import opened PickleInteger

  /** A string whose length a four-byte signed count can carry. */
  type Str = s: bytes | |s| < 0x8000_0000

  /** The eight bytes of a double as they lie in memory. */
  type DoubleImage = s: bytes | |s| == 8 witness [0, 0, 0, 0, 0, 0, 0, 0]

  type WStr = s: seq<int> | |s| < 0x8000_0000

  const BUILTIN: bytes := [95, 95, 98, 117, 105, 108, 116, 105, 110, 95, 95]
  const BYTEARRAY: bytes := [98, 121, 116, 101, 97, 114, 114, 97, 121]
  const UNPICKLE: bytes := [117, 110, 112, 105, 99, 107, 108, 101]
  const ADDRESS_CLASS: bytes := [80, 111, 105, 110, 116, 101, 114]

  predicate Spells(s: bytes, text: string) {
    |s| == |text| && forall k :: 0 <= k < |s| ==> s[k] == text[k] as int
  }

  lemma NamesOfGlobals()
    ensures Spells(BUILTIN, "__builtin__") && Spells(BYTEARRAY, "bytearray")
    ensures Spells(UNPICKLE, "unpickle") && Spells(ADDRESS_CLASS, "Pointer")
  {
  }

  /** A wide character outside ASCII is written as a question mark. */
  function Narrow(wc: int): (c: byte)
    ensures c < 128
  {
    if 0 <= wc < 0x80 then wc else 63
  }

  function NarrowAll(ws: seq<int>): (s: bytes)
    ensures |s| == |ws|
    ensures forall k :: 0 <= k < |s| ==> s[k] == Narrow(ws[k])
  {
    seq(|ws|, k requires 0 <= k < |ws| => Narrow(ws[k]))
  }

  function StrCode(s: Str): seq<Instr> {
    [if |s| < 256 then ShortBinString(s) else BinString(s), BinPut(1)]
  }

  function WStrCode(ws: WStr): seq<Instr> {
    [BinUnicode(NarrowAll(ws)), BinPut(1)]
  }

  function GlobalCode(mod: bytes, name: bytes): seq<Instr> {
    [Global(mod, name), BinPut(1)]
  }

  function ByteArrayCode(s: Str): seq<Instr> {
    GlobalCode(BUILTIN, BYTEARRAY) + StrCode(s) + [Tuple1, Reduce]
  }

  function PointerCode(addr: uint64): seq<Instr> {
    GlobalCode(UNPICKLE, ADDRESS_CLASS) + [UInt64Code(addr)] + [Tuple1, Reduce]
  }

  function BoolCode(b: bool): Instr { if b then NewTrue else NewFalse }

  /** Converting to an unsigned 32-bit number changes none of the four bytes. */
  lemma UnsignedImage(i: int, u: int)
    requires -0x8000_0000 <= i < 0x1_0000_0000
    requires u == if i < 0 then i + 0x1_0000_0000 else i
    ensures u % 256 == i % 256
    ensures u / 256 % 256 == i / 256 % 256
    ensures u / 0x1_0000 % 256 == i / 0x1_0000 % 256
    ensures u / 0x100_0000 == i / 0x100_0000 % 256
  {
    assert i < 0 ==> u / 256 == i / 256 + 0x100_0000;
    assert i < 0 ==> u / 0x1_0000 == i / 0x1_0000 + 0x1_0000;
    assert i < 0 ==> u / 0x100_0000 == i / 0x100_0000 + 0x100;
  }

  /** The bytes that putInt32 takes from an argument converted to an unsigned 32-bit number. */
  lemma Int32Bytes(i: int, u: int)
    requires -0x8000_0000 <= i < 0x1_0000_0000
    requires u == if i < 0 then i + 0x1_0000_0000 else i
    ensures LittleEndian(i, 4) == [u % 256, u / 256 % 256, u / 0x1_0000 % 256, u / 0x100_0000]
  {
    hide LittleEndian;
    FourBytes(i);
    UnsignedImage(i, u);
  }

  lemma FourBytes(i: int)
    ensures LittleEndian(i, 4) == [i % 256, i / 256 % 256, i / 0x1_0000 % 256, i / 0x100_0000 % 256]
  {
    hide LittleEndian;
    var a, b, c := i / 256, i / 0x1_0000, i / 0x100_0000;
    LittleEndianNext(i, 4);
    LittleEndianNext(a, 3);
    LittleEndianNext(b, 2);
    LittleEndianNext(c, 1);
  }

  lemma AsmOne(i: Instr)
    ensures AsmAll([i]) == Asm(i)
  {
    assert Asm(i) + AsmAll([]) == Asm(i);
  }

  /** Assembled code grows by one instruction. */
  lemma AsmSnoc(code: seq<Instr>, i: Instr)
    ensures AsmAll(code + [i]) == AsmAll(code) + Asm(i)
  {
    AsmAllConcat(code, [i]);
    AsmOne(i);
  }

  /** Two writes in a row write the two pieces of code in a row. */
  lemma AsmThen(before: bytes, between: bytes, after: bytes, x: seq<Instr>, y: seq<Instr>)
    requires between == before + AsmAll(x) && after == between + AsmAll(y)
    ensures after == before + AsmAll(x + y)
  {
    AsmAllConcat(x, y);
    ConcatAssoc(before, AsmAll(x), AsmAll(y));
  }

  lemma OneByte(n: int)
    requires 0 <= n < 256
    ensures LittleEndian(n, 1) == [n]
  {
    hide LittleEndian;
    LittleEndianNext(n, 1);
  }

  /** Appending opcode, length and text one after the other appends one instruction. */
  lemma AsmSized(before: bytes, op: byte, length: bytes, text: bytes)
    ensures before + [op] + length + text == before + ([op] + (length + text))
  {
  }

  lemma AsmPut1(i: Instr)
    ensures AsmAll([i, BinPut(1)]) == Asm(i) + [113, 1]
  {
    assert [i, BinPut(1)] == [i] + [BinPut(1)];
    AsmSnoc([i], BinPut(1));
    AsmOne(i);
  }

  lemma AsmTupleReduce()
    ensures AsmAll([Tuple1, Reduce]) == [0x85, 82]
  {
    assert [Tuple1, Reduce] == [Tuple1] + [Reduce];
    AsmSnoc([Tuple1], Reduce);
    assert AsmAll([Tuple1]) == [0x85];
  }

  class PickleWriter {
    var os: bytes

    constructor ()
      ensures os == []
    {
      os := [];
    }

    method Put(b: byte)
      modifies this
      ensures os == old(os) + [b]
    {
      os := os + [b];
    }

    method PutAll(s: bytes)
      modifies this
      ensures os == old(os) + s
    {
      os := os + s;
    }

    method Begin()
      modifies this
      ensures os == old(os) + AsmAll([Proto(2)])
    {
      Put(0x80);
      Put(2);
    }

    method End()
      modifies this
      ensures os == old(os) + AsmAll([Stop])
    {
      Put(46);
    }

    method BeginDict()
      modifies this
      ensures os == old(os) + AsmAll([EmptyDict, BinPut(1)])
    {
      Put(125);
      Put(113);
      Put(1);
    }

    method BeginItem(name: Str)
      modifies this
      ensures os == old(os) + AsmAll(StrCode(name))
    {
      WriteString(name);
    }

    method EndItem()
      modifies this
      ensures os == old(os) + AsmAll([SetItem])
    {
      Put(115);
    }

    method BeginList()
      modifies this
      ensures os == old(os) + AsmAll([EmptyList, BinPut(1), Mark])
    {
      Put(93);
      Put(113);
      Put(1);
      Put(40);
    }

    method EndList()
      modifies this
      ensures os == old(os) + AsmAll([Appends])
    {
      Put(101);
    }

    method BeginTuple()
      modifies this
      ensures os == old(os) + AsmAll([Mark])
    {
      Put(40);
    }

    method EndTuple()
      modifies this
      ensures os == old(os) + AsmAll([TupleOp])
    {
      Put(116);
    }

    /** A tuple of known length needs a MARK only from four elements on. */
    method BeginTupleOf(length: nat)
      modifies this
      ensures os == old(os) + AsmAll(if length >= 4 then [Mark] else [])
    {
      if length >= 4 {
        Put(40);
      }
    }

    method EndTupleOf(length: nat)
      modifies this
      ensures os == old(os) + AsmAll([if length < 4 then [EmptyTuple, Tuple1, Tuple2, Tuple3][length] else TupleOp])
    {
      var ops: bytes := [41, 0x85, 0x86, 0x87];
      Put(if length < 4 then ops[length] else 116);
    }

    method WriteString(s: Str)
      modifies this
      ensures os == old(os) + AsmAll(StrCode(s))
    {
      if |s| < 256 {
        Put(85);
        Put(|s|);
        OneByte(|s|);
        AsmSized(old(os), 85, [|s|], s);
      } else {
        Put(84);
        PutInt32(|s|);
        AsmSized(old(os), 84, LittleEndian(|s|, 4), s);
      }
      PutAll(s);
      PutBinPut1(if |s| < 256 then ShortBinString(s) else BinString(s));
    }

    /** Stores the top of the stack in memo slot 1, after the instruction `head`. */
    method PutBinPut1(ghost head: Instr)
      modifies this
      ensures forall before: bytes :: old(os) == before + Asm(head) ==> os == before + AsmAll([head, BinPut(1)])
    {
      Put(113);
      Put(1);
      AsmPut1(head);
    }

    method WriteWString(ws: WStr)
      modifies this
      ensures os == old(os) + AsmAll(WStrCode(ws))
    {
      ghost var narrow := NarrowAll(ws);
      Put(88);
      PutInt32(|ws|);
      PutNarrow(ws);
      AsmSized(old(os), 88, LittleEndian(|ws|, 4), narrow);
      PutBinPut1(BinUnicode(narrow));
    }

    method PutNarrow(ws: seq<int>)
      modifies this
      ensures os == old(os) + NarrowAll(ws)
    {
      ghost var narrow := NarrowAll(ws);
      for i := 0 to |ws|
        invariant os == old(os) + narrow[..i]
      {
        var wc := ws[i];
        Put(if wc >= 0 && wc < 0x80 then wc else 63);
        assert narrow[..i + 1] == narrow[..i] + [narrow[i]];
      }
      assert narrow[..|ws|] == narrow;
    }

    method WriteNone()
      modifies this
      ensures os == old(os) + AsmAll([NoneOp])
    {
      Put(78);
    }

    method WriteBool(b: bool)
      modifies this
      ensures os == old(os) + AsmAll([BoolCode(b)])
    {
      Put(if b then 0x88 else 0x89);
    }

    method WriteUInt8(i: byte)
      modifies this
      ensures os == old(os) + Asm(BinInt1(i))
    {
      Put(75);
      Put(i);
    }

    method WriteUInt16(i: int)
      requires 0 <= i < 0x1_0000
      modifies this
      ensures os == old(os) + Asm(UInt16Code(i))
    {
      if i < 0x100 {
        WriteUInt8(i);
      } else {
        Put(77);
        PutInt16(i);
      }
    }

    method WriteInt32(i: int32)
      modifies this
      ensures os == old(os) + Asm(Int32Code(i))
    {
      if 0 <= i && i < 0x1_0000 {
        WriteUInt16(i);
      } else {
        Put(74);
        PutInt32(i);
      }
    }

    method WriteUInt32(i: uint32)
      modifies this
      ensures os == old(os) + Asm(UInt32Code(i))
    {
      if i < 0x800_0000 {
        WriteInt32(i);
      } else {
        Pow256Values();
        WriteLong(i, 4, false);
      }
    }

    method WriteInt64(i: int64)
      modifies this
      ensures os == old(os) + Asm(Int64Code(i))
    {
      if -0x800_0000 <= i && i < 0x800_0000 {
        WriteInt32(i);
      } else {
        Pow256Values();
        WriteLong(i, 8, true);
      }
    }

    method WriteUInt64(i: uint64)
      modifies this
      ensures os == old(os) + Asm(UInt64Code(i))
    {
      if i < 0x800_0000 {
        WriteInt32(i);
      } else {
        Pow256Values();
        WriteLong(i, 8, false);
      }
    }

    /** The bytes in memory are put from the last to the first. */
    method WriteFloat(image: DoubleImage)
      modifies this
      ensures os == old(os) + AsmAll([BinFloat(Reverse(image))])
    {
      Put(71);
      ghost var start := os;
      var i := 8;
      while i > 0
        invariant 0 <= i <= 8
        invariant os == start + Reverse(image[i..])
      {
        i := i - 1;
        Put(image[i]);
        assert image[i..] == [image[i]] + image[i + 1..];
      }
      assert image[0..] == image;
    }

    /** The two names of a global, each on a line of its own. */
    method PutGlobal(mod: bytes, name: bytes)
      modifies this
      ensures os == old(os) + AsmAll(GlobalCode(mod, name))
    {
      Put(99);
      PutAll(mod + [NEWLINE] + name + [NEWLINE]);
      assert os == old(os) + Asm(Global(mod, name));
      PutBinPut1(Global(mod, name));
    }

    method PutTuple1Reduce()
      modifies this
      ensures os == old(os) + AsmAll([Tuple1, Reduce])
    {
      Put(0x85);
      Put(82);
      AsmTupleReduce();
    }

    method WriteByteArray(s: Str)
      modifies this
      ensures os == old(os) + AsmAll(ByteArrayCode(s))
    {
      ghost var start := os;
      PutGlobal(BUILTIN, BYTEARRAY);
      ghost var middle := os;
      WriteString(s);
      AsmThen(start, middle, os, GlobalCode(BUILTIN, BYTEARRAY), StrCode(s));
      middle := os;
      PutTuple1Reduce();
      AsmThen(start, middle, os, GlobalCode(BUILTIN, BYTEARRAY) + StrCode(s), [Tuple1, Reduce]);
    }

    method WritePointer(addr: uint64)
      modifies this
      ensures os == old(os) + AsmAll(PointerCode(addr))
    {
      ghost var start := os;
      PutGlobal(UNPICKLE, ADDRESS_CLASS);
      ghost var middle := os;
      WriteUInt64(addr);
      AsmOne(UInt64Code(addr));
      AsmThen(start, middle, os, GlobalCode(UNPICKLE, ADDRESS_CLASS), [UInt64Code(addr)]);
      middle := os;
      PutTuple1Reduce();
      AsmThen(start, middle, os, GlobalCode(UNPICKLE, ADDRESS_CLASS) + [UInt64Code(addr)], [Tuple1, Reduce]);
    }

    method PutInt16(i: int)
      requires 0 <= i < 0x1_0000
      modifies this
      ensures os == old(os) + LittleEndian(i, 2)
    {
      Put(i % 256);
      Put(i / 256);
    }

    /** The argument is converted to an unsigned 32-bit number first. */
    method PutInt32(i: int)
      requires -0x8000_0000 <= i < 0x1_0000_0000
      modifies this
      ensures os == old(os) + LittleEndian(i, 4)
    {
      var u := i % 0x1_0000_0000;
      Put(u % 256);
      Put(u / 256 % 256);
      Put(u / 0x1_0000 % 256);
      Put(u / 0x100_0000);
      Int32Bytes(i, u);
    }

    /** One instance of the template for each integer type: `size` bytes, signed or not. */
    method WriteLong(l: int, size: nat, signed: bool)
      requires 1 <= size < 256
      requires if signed then Fits(l, size) else 0 <= l < Pow256(size)
      modifies this
      ensures os == old(os) + Asm(Long1(LongPayload(l, size)))
    {
      ghost var payload := LongPayload(l, size);
      ShiftsOut(l, size, signed);
      ZeroPayload(size);
      hide Pow256, Fits, LongPayload, ShiftBytes, LittleEndian;
      Put(0x8a);
      if l == 0 {
        Put(0);
        OneByte(0);
        AsmSized(old(os), 0x8a, [0], payload);
        return;
      }

      var sign := if signed && l < 0 then -1 else 0;

      FirstShift(l);
      var sl, c := l / 256, 1;
      while sl != sign
        invariant os == old(os) + [0x8a]
        invariant 1 <= c <= size
        invariant sl == ShiftBytes(l, c)
        invariant c > 1 ==> ShiftBytes(l, c - 1) != sign
        decreases size - c
      {
        ShiftBytesNext(l, c);
        sl, c := sl / 256, c + 1;
      }
      CountedBytes(l, size, signed, c);

      if Bit(l, 8 * c - 1) != Bit(l, 8 * size - 1) {
        c := c + 1;
      }
      Put(c);

      ghost var start := os;
      var rest := l;
      for i := 0 to c
        invariant rest == ShiftBytes(l, i)
        invariant os == start + LittleEndian(l, i)
      {
        ShiftBytesNext(l, i);
        Put(rest % 256);
        rest := rest / 256;
      }
      OneByte(c);
      AsmSized(old(os), 0x8a, [c], payload);
    }

    static lemma ZeroPayload(size: nat)
      ensures LongPayload(0, size) == []
    {
    }

    static lemma FirstShift(l: int)
      ensures ShiftBytes(l, 0) == l && ShiftBytes(l, 1) == l / 256 && LittleEndian(l, 0) == []
    {
      ShiftBytesNext(l, 0);
    }

    /** Shifting by the type's size leaves only the sign. */
    static lemma ShiftsOut(l: int, size: nat, signed: bool)
      requires if signed then Fits(l, size) else 0 <= l < Pow256(size)
      ensures ShiftBytes(l, size) == if signed && l < 0 then -1 else 0
    {
      ShiftBytesSign(l, size);
    }

    /** The count and the test of the sign bits give the payload. */
    static lemma CountedBytes(l: int, size: nat, signed: bool, c: nat)
      requires if signed then Fits(l, size) else 0 <= l < Pow256(size)
      requires l != 0 && 1 <= c <= size
      requires var sign := if signed && l < 0 then -1 else 0;
        ShiftBytes(l, c) == sign && (c > 1 ==> ShiftBytes(l, c - 1) != sign)
      ensures var w := if Bit(l, 8 * c - 1) != Bit(l, 8 * size - 1) then c + 1 else c;
        w <= size && LongPayload(l, size) == LittleEndian(l, w)
    {
      ShiftBytesSign(l, c);
      if c > 1 {
        ShiftBytesSign(l, c - 1);
      }
      hide ShiftBytes, Bit, LittleEndian;
      CountIsLongWidth(l, size, c);
    }
  }
}

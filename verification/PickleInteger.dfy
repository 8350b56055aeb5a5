/** Integers in a pickle: the LONG1 payload and the choice of opcode by magnitude. */
module PickleInteger {
  import opened Options
  import opened Bytes
  import opened PickleMachine

  /** The least width from c on, and at most `size`, whose two's complement can hold l. */
  function LongWidth(l: int, c: nat, size: nat): (w: nat)
    requires c <= size
    ensures c <= w <= size
    ensures forall k :: c <= k < w ==> !Fits(l, k)
    ensures w < size ==> Fits(l, w)
    decreases size - c
  {
    if c == size || Fits(l, c) then c else LongWidth(l, c + 1, size)
  }

  /** What LONG1 carries for a value l of a type of `size` bytes. */
  function LongPayload(l: int, size: nat): bytes {
    LittleEndian(l, LongWidth(l, 0, size))
  }

  lemma FitsSigned(p: bytes)
    ensures Fits(Signed(p), |p|)
  {
  }

  lemma {:induction false} FitsMonotone(l: int, j: nat, k: nat)
    requires j <= k && Fits(l, j)
    ensures Fits(l, k)
    decreases k - j
  {
    if j < k {
      assert Pow256(j + 1) == 256 * Pow256(j);
      FitsMonotone(l, j + 1, k);
    }
  }

  /** The payload never exceeds the type's size, decodes to l exactly when l is below half the
      type's range, no shorter byte string decodes to l, and otherwise -- an unsigned l with its
      top bit set -- it decodes to l minus 256^size. */
  lemma LongPayloadMeaning(l: int, size: nat)
    requires Fits(l, size) || 0 <= l < Pow256(size)
    ensures |LongPayload(l, size)| <= size
    ensures Signed(LongPayload(l, size)) == l <==> Fits(l, size)
    ensures Signed(LongPayload(l, size)) == if Fits(l, size) then l else l - Pow256(size)
    ensures forall p: bytes :: Signed(p) == l ==> |LongPayload(l, size)| <= |p| || !Fits(l, size)
  {
    var w := LongWidth(l, 0, size);
    if Fits(l, size) {
      SignedRoundTrip(l, w);
      forall p: bytes | Signed(p) == l ensures w <= |p| {
        FitsSigned(p);
      }
    } else {
      if w < size {
        FitsMonotone(l, w, size);
      }
      UnsignedRoundTrip(l, size);
    }
  }

  // ----- shifts and bits -----

  /** l shifted right by c bytes. */
  function ShiftBytes(l: int, c: nat): int
    decreases c
  {
    if c == 0 then l else ShiftBytes(l / 256, c - 1)
  }

  /** Bit k of l's two's complement. */
  function Bit(l: int, k: nat): int
    decreases k
  {
    if k == 0 then l % 2 else Bit(l / 2, k - 1)
  }

  lemma {:induction false} ShiftBytesNext(l: int, c: nat)
    ensures ShiftBytes(l, c + 1) == ShiftBytes(l, c) / 256
    ensures LittleEndian(l, c + 1) == LittleEndian(l, c) + [ShiftBytes(l, c) % 256]
    decreases c
  {
    if c == 0 {
      assert LittleEndian(l / 256, 0) == [];
    } else {
      ShiftBytesNext(l / 256, c - 1);
    }
  }

  /** Shifting by c bytes leaves only the sign exactly when |l| is within 256^c. */
  lemma {:induction false} ShiftBytesSign(l: int, c: nat)
    ensures l >= 0 ==> (ShiftBytes(l, c) == 0 <==> l < Pow256(c))
    ensures l < 0 ==> (ShiftBytes(l, c) == -1 <==> l >= 0 - Pow256(c))
    decreases c
  {
    if c > 0 {
      ShiftBytesSign(l / 256, c - 1);
    }
  }

  lemma BitNextByte(l: int, k: nat)
    ensures Bit(l, k + 8) == Bit(l / 256, k)
  {
    assert Bit(l, k + 8) == Bit(l / 2, k + 7) == Bit(l / 2 / 2, k + 6);
    assert Bit(l / 2 / 2, k + 6) == Bit(l / 2 / 2 / 2, k + 5) == Bit(l / 2 / 2 / 2 / 2, k + 4);
    var h := l / 2 / 2 / 2 / 2;
    assert Bit(h, k + 4) == Bit(h / 2, k + 3) == Bit(h / 2 / 2, k + 2);
    assert Bit(h / 2 / 2, k + 2) == Bit(h / 2 / 2 / 2, k + 1) == Bit(h / 2 / 2 / 2 / 2, k);
    assert h / 2 / 2 / 2 / 2 == l / 256;
  }

  /** The top bit of the low c bytes tells whether l fits them, once l is within 256^c. */
  lemma {:induction false} TopBit(l: int, c: nat)
    requires c >= 1
    requires 0 - Pow256(c) <= l < Pow256(c)
    ensures Bit(l, 8 * c - 1) == (if l >= 0 then (if Fits(l, c) then 0 else 1)
                                  else (if Fits(l, c) then 1 else 0))
    decreases c
  {
    if c == 1 {
      assert Bit(l, 7) == Bit(l / 2 / 2 / 2 / 2, 3);
      assert l / 2 / 2 / 2 / 2 / 2 / 2 / 2 == l / 128;
    } else {
      BitNextByte(l, 8 * (c - 1) - 1);
      TopBit(l / 256, c - 1);
    }
  }

  /** The byte count that the writer computes: the bytes that hold l's magnitude, and one more
      when the sign bit does not match. */
  lemma CountIsLongWidth(l: int, size: nat, c: nat)
    requires Fits(l, size) || 0 <= l < Pow256(size)
    requires 1 <= c <= size
    requires l != 0
    requires 0 - Pow256(c) <= l < Pow256(c)
    requires c > 1 ==> !(0 - Pow256(c - 1) <= l < Pow256(c - 1))
    ensures Bit(l, 8 * c - 1) == Bit(l, 8 * size - 1) <==> LongWidth(l, 0, size) == c
    ensures Bit(l, 8 * c - 1) != Bit(l, 8 * size - 1) <==> LongWidth(l, 0, size) == c + 1
  {
    var w := LongWidth(l, 0, size);
    TopBit(l, c);
    Pow256Monotone(c, size);
    TopBit(l, size);
    if w < c {
      Pow256Monotone(w, c - 1);
      assert false;
    }
    if Fits(l, c) {
      FitsMonotone(l, c, size);
      assert w == c;
    } else if c < size {
      assert Pow256(c + 1) == 256 * Pow256(c);
      assert Fits(l, c + 1);
      FitsMonotone(l, c + 1, size);
      assert w <= c + 1;
      assert w != c;
    }
  }

  lemma {:induction false} Pow256Monotone(j: nat, k: nat)
    requires j <= k
    ensures Pow256(j) <= Pow256(k)
    decreases k - j
  {
    if j < k {
      Pow256Monotone(j + 1, k);
    }
  }

  // ----- the opcode of an integer, by the overload that writes it -----

  function UInt16Code(i: int): Instr {
    if i < 0x100 then BinInt1(if i < 0 then 0 else i) else BinInt2(i)
  }

  function Int32Code(i: int): Instr {
    if 0 <= i < 0x1_0000 then UInt16Code(i) else BinInt(i)
  }

  function UInt32Code(i: uint32): Instr {
    if i < 0x800_0000 then Int32Code(i) else Long1(LongPayload(i, 4))
  }

  function Int64Code(i: int64): Instr {
    if -0x800_0000 <= i < 0x800_0000 then Int32Code(i) else Long1(LongPayload(i, 8))
  }

  function UInt64Code(i: uint64): Instr {
    if i < 0x800_0000 then Int32Code(i) else Long1(LongPayload(i, 8))
  }

  /** What an unsigned value with `range` values decodes to: negative from half the range on. */
  function Wrapped(i: int, range: int): int {
    if 2 * i < range then i else i - range
  }

  ghost predicate Pushes(i: Instr, o: Obj) {
    Encodable(i) && forall m: Machine :: Do(i, m) == Some(m.Push(o))
  }

  lemma Long1Pushes(p: bytes)
    requires |p| < 256
    ensures Pushes(Long1(p), PyInt(Signed(p)))
  {
    hide Signed;
  }

  lemma LongPushes(l: int, size: nat)
    requires Fits(l, size) || 0 <= l < Pow256(size)
    requires size < 256
    ensures Pushes(Long1(LongPayload(l, size)), PyInt(if Fits(l, size) then l else l - Pow256(size)))
  {
    LongPayloadMeaning(l, size);
    hide *;
    Long1Pushes(LongPayload(l, size));
  }

  lemma Int32CodeMeaning(i: int32)
    ensures Pushes(Int32Code(i), PyInt(i))
  {
  }

  lemma Int64CodeMeaning(i: int64)
    ensures Pushes(Int64Code(i), PyInt(i))
  {
    Pow256Values();
    LongPushes(i, 8);
  }

  lemma UInt64CodeMeaning(i: uint64)
    ensures Pushes(UInt64Code(i), PyInt(Wrapped(i, 0x1_0000_0000_0000_0000)))
  {
    Pow256Values();
    LongPushes(i, 8);
  }

  lemma UInt32CodeMeaning(i: uint32)
    ensures Pushes(UInt32Code(i), PyInt(Wrapped(i, 0x1_0000_0000)))
  {
    Pow256Values();
    LongPushes(i, 4);
  }
}

/** Bytes and the two's-complement arithmetic shared by the pickle writer and the UBJSON reader.
    A machine integer is the unbounded `int` it denotes; shifts right are floor divisions. */
module Bytes {

  type byte = b: int | 0 <= b < 256
  type bytes = seq<byte>

  type int32 = i: int | -0x8000_0000 <= i < 0x8000_0000
  type uint32 = i: int | 0 <= i < 0x1_0000_0000
  type int64 = i: int | -0x8000_0000_0000_0000 <= i < 0x8000_0000_0000_0000
  type uint64 = i: int | 0 <= i < 0x1_0000_0000_0000_0000

  /** 2 to the power k. */
  function Pow2(k: nat): (p: nat)
    ensures p >= 1
  {
    if k == 0 then 1 else 2 * Pow2(k - 1)
  }

  /** 256 to the power k. */
  function Pow256(k: nat): (p: nat)
    ensures p >= 1
  {
    if k == 0 then 1 else 256 * Pow256(k - 1)
  }

  /** The k low bytes of n in two's complement, least significant first. */
  function LittleEndian(n: int, k: nat): (s: bytes)
    ensures |s| == k
    decreases k
  {
    if k == 0 then [] else [n % 256] + LittleEndian(n / 256, k - 1)
  }

  lemma LittleEndianNext(n: int, k: nat)
    requires k > 0
    ensures LittleEndian(n, k) == [n % 256] + LittleEndian(n / 256, k - 1)
    ensures LittleEndian(n, 0) == []
  {
  }

  /** The unsigned number whose little-endian digits are s. */
  function Unsigned(s: bytes): (n: nat)
    ensures n < Pow256(|s|)
  {
    if s == [] then 0 else s[0] + 256 * Unsigned(s[1..])
  }

  /** The two's-complement number whose little-endian digits are s; the empty sequence is 0. */
  function Signed(s: bytes): int {
    var u := Unsigned(s);
    if 2 * u >= Pow256(|s|) && s != [] then u - Pow256(|s|) else u
  }

  /** n is representable in k bytes of two's complement. */
  predicate Fits(n: int, k: nat) {
    0 - Pow256(k) <= 2 * n < Pow256(k)
  }

  /** Reading back k bytes of n gives n modulo 256^k: n minus a multiple of it. */
  lemma {:induction false} UnsignedLittleEndian(n: int, k: nat) returns (q: int)
    ensures Unsigned(LittleEndian(n, k)) == n - q * Pow256(k)
    decreases k
  {
    if k == 0 {
      q := n;
    } else {
      q := UnsignedLittleEndian(n / 256, k - 1);
      assert LittleEndian(n, k)[1..] == LittleEndian(n / 256, k - 1);
      assert q * Pow256(k) == 256 * (q * Pow256(k - 1));
    }
  }

  /** A multiple of p that lies strictly between -p and p is zero. */
  lemma SmallMultiple(q: int, p: int)
    requires -p < q * p < p
    ensures q == 0
  {
    assert q >= 1 ==> q * p >= p;
    assert q <= -1 ==> q * p <= -p;
  }

  /** A number that fits its width survives the trip through its bytes. */
  lemma SignedRoundTrip(n: int, k: nat)
    requires Fits(n, k)
    ensures Signed(LittleEndian(n, k)) == n
  {
    var q := UnsignedLittleEndian(n, k);
    var p := Pow256(k);
    if n >= 0 {
      SmallMultiple(q, p);
    } else {
      assert (q + 1) * p == q * p + p;
      SmallMultiple(q + 1, p);
    }
  }

  lemma UnsignedRoundTrip(n: int, k: nat)
    requires 0 <= n < Pow256(k)
    ensures Unsigned(LittleEndian(n, k)) == n
  {
    var q := UnsignedLittleEndian(n, k);
    SmallMultiple(q, Pow256(k));
  }

  lemma Pow256Values()
    ensures Pow256(1) == 0x100 && Pow256(2) == 0x1_0000 && Pow256(4) == 0x1_0000_0000
    ensures Pow256(8) == 0x1_0000_0000_0000_0000
  {
    assert Pow256(3) == 0x100_0000;
    assert Pow256(5) == 0x100_0000_0000;
    assert Pow256(6) == 0x1_0000_0000_0000;
    assert Pow256(7) == 0x100_0000_0000_0000;
  }

  lemma ConcatAssoc<T>(a: seq<T>, b: seq<T>, c: seq<T>)
    ensures a + b + c == a + (b + c)
  {
  }

  function Reverse<T>(s: seq<T>): (r: seq<T>)
    ensures |r| == |s|
  {
    if s == [] then [] else Reverse(s[1..]) + [s[0]]
  }

  lemma {:induction false} ReverseSnoc<T>(s: seq<T>, x: T)
    ensures Reverse(s + [x]) == [x] + Reverse(s)
  {
    if s == [] {
    } else {
      ReverseSnoc(s[1..], x);
      assert (s + [x])[1..] == s[1..] + [x];
    }
  }

  lemma {:induction false} ReverseAt<T>(s: seq<T>, k: nat)
    requires k < |s|
    ensures Reverse(s)[k] == s[|s| - 1 - k]
  {
    if k < |s| - 1 {
      ReverseAt(s[1..], k);
    }
  }

  lemma {:induction false} ReverseTwice<T>(s: seq<T>)
    ensures Reverse(Reverse(s)) == s
  {
    if s == [] {
    } else {
      ReverseTwice(s[1..]);
      ReverseSnoc(Reverse(s[1..]), s[0]);
    }
  }
}

/** Sizing text given as a number of characters: the UTF-8 and UTF-16 decoders of
    helpers/glsize.hpp against section 3 of RFC 3629 and section 2 of RFC 2781. */
module Utf {
  type Octet = bv8
  type Unit = bv16
  type CodePoint = bv32

  predicate IsScalar(c: CodePoint) { c <= 0x10FFFF && !(0xD800 <= c <= 0xDFFF) }

  /** A decoding step: the code point and how far to advance; an invalid sequence; or a read
      beyond the data. */
  datatype Decoded = Decoded(codePoint: CodePoint, length: nat) | Invalid | Beyond

  // ----- UTF-8 -----

  // The octets of sequences of two, three and four, and the number they carry.

  function Lead2(c: CodePoint): Octet
    requires c <= 0x7FF
  {
    (0xC0 | (c >> 6)) as Octet
  }

  function Lead3(c: CodePoint): Octet
    requires c <= 0xFFFF
  {
    (0xE0 | (c >> 12)) as Octet
  }

  function Lead4(c: CodePoint): Octet
    requires c <= 0x1FFFFF
  {
    (0xF0 | (c >> 18)) as Octet
  }

  function Continuation(c: CodePoint): Octet { (0x80 | (c & 0x3F)) as Octet }

  function Low6(o: Octet): CodePoint { (o & 0x3F) as CodePoint }

  function Join2(a: Octet, b: Octet): CodePoint {
    ((a & 0x1F) as CodePoint << 6) | Low6(b)
  }

  function Join3(a: Octet, b: Octet, c: Octet): CodePoint {
    ((a & 0x0F) as CodePoint << 12) | (Low6(b) << 6) | Low6(c)
  }

  function Join4(a: Octet, b: Octet, c: Octet, d: Octet): CodePoint {
    ((a & 0x07) as CodePoint << 18) | (Low6(b) << 12) | (Low6(c) << 6) | Low6(d)
  }

  predicate IsLead1(o: Octet) { o & 0x80 == 0 }
  predicate IsLead2(o: Octet) { o & 0xE0 == 0xC0 }
  predicate IsLead3(o: Octet) { o & 0xF0 == 0xE0 }
  predicate IsLead4(o: Octet) { o & 0xF8 == 0xF0 }
  predicate IsContinuation(o: Octet) { o & 0xC0 == 0x80 }

  /** The octets of a character number, by the table of section 3 of RFC 3629. */
  function Encode8(c: CodePoint): (s: seq<Octet>)
    requires IsScalar(c)
    ensures 1 <= |s| <= 4
  {
    if c <= 0x7F then [c as Octet]
    else if c <= 0x7FF then [Lead2(c), Continuation(c)]
    else if c <= 0xFFFF then [Lead3(c), Continuation(c >> 6), Continuation(c)]
    else [Lead4(c), Continuation(c >> 12), Continuation(c >> 6), Continuation(c)]
  }

  function Check2(c: CodePoint): (d: Decoded)
    ensures d.Decoded? ==> d == Decoded(c, 2) && c >= 128
  {
    if c < 128 then Invalid else Decoded(c, 2)
  }

  function Check3(c: CodePoint): (d: Decoded)
    ensures d.Decoded? ==> d == Decoded(c, 3) && c >= 2048 && !(55296 <= c <= 57343)
  {
    if c >= 55296 && c <= 57343 then Invalid
    else if c < 2048 then Invalid
    else Decoded(c, 3)
  }

  function Check4(c: CodePoint): (d: Decoded)
    ensures d == Decoded(c, 4)
  {
    if c < 65536 && c > 1114111 then Invalid else Decoded(c, 4)
  }

  /** What __glPathGetCodePointUTF8 makes of the octets from p[0] on. */
  function Decode8(p: seq<Octet>): Decoded {
    if |p| == 0 then Beyond
    else if IsLead1(p[0]) then Decoded(p[0] as CodePoint, 1)
    else if |p| == 1 then Beyond
    else if !IsContinuation(p[1]) then Invalid
    else if IsLead2(p[0]) then
      Check2(Join2(p[0], p[1]))
    else if |p| == 2 then Beyond
    else if !IsContinuation(p[2]) then Invalid
    else if IsLead3(p[0]) then
      Check3(Join3(p[0], p[1], p[2]))
    else if |p| == 3 then Beyond
    else if !IsContinuation(p[3]) then Invalid
    else if IsLead4(p[0]) then
      Check4(Join4(p[0], p[1], p[2], p[3]))
    else Invalid
  }

  lemma Octets1(c: CodePoint)
    requires c <= 0x7F
    ensures IsLead1(c as Octet) && (c as Octet) as CodePoint == c
  {
  }

  lemma Octets2(c: CodePoint)
    requires 0x80 <= c <= 0x7FF
    ensures !IsLead1(Lead2(c)) && IsLead2(Lead2(c)) && IsContinuation(Continuation(c))
    ensures Join2(Lead2(c), Continuation(c)) == c
  {
  }

  lemma Octets3(c: CodePoint)
    requires 0x800 <= c <= 0xFFFF
    ensures !IsLead1(Lead3(c)) && !IsLead2(Lead3(c)) && IsLead3(Lead3(c))
    ensures IsContinuation(Continuation(c >> 6)) && IsContinuation(Continuation(c))
    ensures Join3(Lead3(c), Continuation(c >> 6), Continuation(c)) == c
  {
  }

  lemma Octets4(c: CodePoint)
    requires 0x10000 <= c <= 0x1FFFFF
    ensures !IsLead1(Lead4(c)) && !IsLead2(Lead4(c)) && !IsLead3(Lead4(c)) && IsLead4(Lead4(c))
    ensures IsContinuation(Continuation(c >> 12)) && IsContinuation(Continuation(c >> 6))
    ensures IsContinuation(Continuation(c))
    ensures Join4(Lead4(c), Continuation(c >> 12), Continuation(c >> 6), Continuation(c)) == c
  {
  }

  lemma Back1(a: Octet)
    requires IsLead1(a)
    ensures a as CodePoint <= 0x7F && (a as CodePoint) as Octet == a
  {
  }

  lemma Back2(a: Octet, b: Octet)
    requires IsLead2(a) && IsContinuation(b)
    ensures Join2(a, b) <= 0x7FF
    ensures Lead2(Join2(a, b)) == a && Continuation(Join2(a, b)) == b
  {
  }

  lemma Back3(a: Octet, b: Octet, c: Octet)
    requires IsLead3(a) && IsContinuation(b) && IsContinuation(c)
    ensures Join3(a, b, c) <= 0xFFFF
    ensures Lead3(Join3(a, b, c)) == a
    ensures Continuation(Join3(a, b, c) >> 6) == b && Continuation(Join3(a, b, c)) == c
  {
  }

  lemma Back4(a: Octet, b: Octet, c: Octet, d: Octet)
    requires IsLead4(a) && IsContinuation(b) && IsContinuation(c) && IsContinuation(d)
    ensures Join4(a, b, c, d) <= 0x1FFFFF
    ensures Lead4(Join4(a, b, c, d)) == a && Continuation(Join4(a, b, c, d) >> 12) == b
    ensures Continuation(Join4(a, b, c, d) >> 6) == c && Continuation(Join4(a, b, c, d)) == d
  {
  }

  lemma OctetsOfJoin(a: Octet, b: Octet, c: Octet, d: Octet)
    requires IsLead4(a) && IsContinuation(b) && IsContinuation(c) && IsContinuation(d)
    ensures Octets(Join4(a, b, c, d), a, b, c, d)
  {
    Back4(a, b, c, d);
    hide Join4, Lead4, Continuation, IsLead4, IsContinuation;
  }

  /** A well-formed character is decoded, and never is anything read behind it. */
  lemma DecodeEncode8(c: CodePoint, rest: seq<Octet>)
    requires IsScalar(c)
    ensures Decode8(Encode8(c) + rest) == Decoded(c, |Encode8(c)|)
  {
    hide Join2, Join3, Join4, Lead2, Lead3, Lead4, Continuation, IsLead1, IsLead2, IsLead3, IsLead4, IsContinuation;
    if c <= 0x7F {
      Octets1(c);
    } else if c <= 0x7FF {
      Octets2(c);
    } else if c <= 0xFFFF {
      Octets3(c);
    } else {
      Octets4(c);
    }
  }

  lemma Accepted1(a: Octet)
    requires IsLead1(a)
    ensures IsScalar(a as CodePoint) && Encode8(a as CodePoint) == [a]
  {
    Back1(a);
  }

  lemma Accepted2(a: Octet, b: Octet)
    requires IsLead2(a) && IsContinuation(b) && Check2(Join2(a, b)).Decoded?
    ensures Check2(Join2(a, b)) == Decoded(Join2(a, b), 2)
    ensures IsScalar(Join2(a, b)) && Encode8(Join2(a, b)) == [a, b]
  {
    Back2(a, b);
  }

  lemma Accepted3(a: Octet, b: Octet, c: Octet)
    requires IsLead3(a) && IsContinuation(b) && IsContinuation(c) && Check3(Join3(a, b, c)).Decoded?
    ensures Check3(Join3(a, b, c)) == Decoded(Join3(a, b, c), 3)
    ensures IsScalar(Join3(a, b, c)) && Encode8(Join3(a, b, c)) == [a, b, c]
  {
    Back3(a, b, c);
  }

  /** The four octets that carry x. */
  predicate Octets(x: CodePoint, a: Octet, b: Octet, c: Octet, d: Octet) {
    x <= 0x1FFFFF && Lead4(x) == a && Continuation(x >> 12) == b && Continuation(x >> 6) == c && Continuation(x) == d
  }

  /** The numbers that section 3 of RFC 3629 writes with four octets. */
  predicate NeedsFour(c: CodePoint) { 0x10000 <= c <= 0x10FFFF }

  lemma Encodes4(x: CodePoint, a: Octet, b: Octet, c: Octet, d: Octet)
    requires NeedsFour(x) && Octets(x, a, b, c, d)
    ensures IsScalar(x) && Encode8(x) == [a, b, c, d]
  {
    hide Lead4, Continuation;
    Form4(x);
  }

  lemma Form4(c: CodePoint)
    requires NeedsFour(c)
    ensures IsScalar(c) && Encode8(c) == [Lead4(c), Continuation(c >> 12), Continuation(c >> 6), Continuation(c)]
  {
    hide Lead2, Lead3, Lead4, Continuation;
  }

  lemma Encodes4Only(x: CodePoint, a: Octet, b: Octet, c: Octet, d: Octet)
    requires IsScalar(x) && Encode8(x) == [a, b, c, d]
    ensures NeedsFour(x)
  {
    hide Lead2, Lead3, Lead4, Continuation;
  }

  /** The four-octet sequences of section 4 of RFC 3629 begin with F0 90 to F4 8F. */
  predicate InRange4(a: Octet, b: Octet) {
    a <= 0xF4 && (a == 0xF0 ==> b >= 0x90) && (a == 0xF4 ==> b <= 0x8F)
  }

  lemma RangeOfOctets(a: Octet, b: Octet, c: Octet, d: Octet)
    requires IsLead4(a) && IsContinuation(b) && IsContinuation(c) && IsContinuation(d)
    ensures NeedsFour(Join4(a, b, c, d)) <==> InRange4(a, b)
  {
  }

  lemma Encodes4Iff(x: CodePoint, a: Octet, b: Octet, c: Octet, d: Octet)
    requires Octets(x, a, b, c, d)
    ensures IsScalar(x) && Encode8(x) == [a, b, c, d] <==> NeedsFour(x)
  {
    hide Lead4, Continuation, Encode8, IsScalar;
    if NeedsFour(x) {
      Encodes4(x, a, b, c, d);
    } else if IsScalar(x) && Encode8(x) == [a, b, c, d] {
      Encodes4Only(x, a, b, c, d);
    }
  }

  lemma Accepted4(a: Octet, b: Octet, c: Octet, d: Octet)
    requires IsLead4(a) && IsContinuation(b) && IsContinuation(c) && IsContinuation(d)
    ensures Check4(Join4(a, b, c, d)) == Decoded(Join4(a, b, c, d), 4)
    ensures IsScalar(Join4(a, b, c, d)) && Encode8(Join4(a, b, c, d)) == [a, b, c, d] <==> InRange4(a, b)
  {
    hide *;
    RangeOfOctets(a, b, c, d);
    OctetsOfJoin(a, b, c, d);
    Encodes4Iff(Join4(a, b, c, d), a, b, c, d);
  }

  /** The way in which a sequence is accepted. */
  lemma AcceptedForm(p: seq<Octet>)
    requires Decode8(p).Decoded?
    ensures p != []
    ensures IsLead1(p[0]) ==> Decode8(p) == Decoded(p[0] as CodePoint, 1)
    ensures !IsLead1(p[0]) ==> |p| >= 2 && IsContinuation(p[1])
    ensures !IsLead1(p[0]) && IsLead2(p[0]) ==> Decode8(p) == Check2(Join2(p[0], p[1]))
    ensures !IsLead1(p[0]) && !IsLead2(p[0]) ==> |p| >= 3 && IsContinuation(p[2])
    ensures !IsLead1(p[0]) && !IsLead2(p[0]) && IsLead3(p[0]) ==> Decode8(p) == Check3(Join3(p[0], p[1], p[2]))
    ensures !IsLead1(p[0]) && !IsLead2(p[0]) && !IsLead3(p[0]) ==>
      |p| >= 4 && IsContinuation(p[3]) && IsLead4(p[0]) && Decode8(p) == Check4(Join4(p[0], p[1], p[2], p[3]))
  {
    hide Check2, Check3, Check4, Join2, Join3, Join4, IsLead1, IsLead2, IsLead3, IsLead4, IsContinuation;
  }

  /** What the decoder accepts is the encoding of a character if and only if a four-octet sequence
      begins with F0 90 to F4 8F: the decoder's range test joins its halves with `&&` and never fails. */
  lemma Accepted8(p: seq<Octet>)
    requires Decode8(p).Decoded?
    ensures var d := Decode8(p);
      && 0 < d.length <= |p|
      && (IsLead4(p[0]) ==> |p| >= 4)
      && ((IsScalar(d.codePoint) && Encode8(d.codePoint) == p[..d.length])
          <==> (IsLead4(p[0]) ==> InRange4(p[0], p[1])))
  {
    AcceptedForm(p);
    OneLead(p[0]);
    hide *;
    if IsLead1(p[0]) {
      Accepted1(p[0]);
      assert p[..1] == [p[0]];
    } else if IsLead2(p[0]) {
      Accepted2(p[0], p[1]);
      assert p[..2] == [p[0], p[1]];
    } else if IsLead3(p[0]) {
      Accepted3(p[0], p[1], p[2]);
      assert p[..3] == [p[0], p[1], p[2]];
    } else {
      Accepted4(p[0], p[1], p[2], p[3]);
      assert p[..4] == [p[0], p[1], p[2], p[3]];
    }
  }

  lemma OneLead(o: Octet)
    ensures IsLead4(o) ==> !IsLead1(o) && !IsLead2(o) && !IsLead3(o)
  {
  }

  /** Two sequences outside the range that the decoder accepts: above U+10FFFF, and an overlong NUL. */
  lemma AcceptedOutOfRange()
    ensures Decode8([0xF7, 0xBF, 0xBF, 0xBF]) == Decoded(0x1FFFFF, 4) && !IsScalar(0x1FFFFF)
    ensures Decode8([0xF0, 0x80, 0x80, 0x80]) == Decoded(0, 4) && Encode8(0) == [0]
  {
  }

  function EncodeAll8(cs: seq<CodePoint>): seq<Octet>
    requires forall k :: 0 <= k < |cs| ==> IsScalar(cs[k])
  {
    if cs == [] then [] else Encode8(cs[0]) + EncodeAll8(cs[1..])
  }

  /** The octets passed over by `count` decoding steps; an invalid sequence or the end of the data
      stops them. */
  function Passed8(p: seq<Octet>, count: nat): (n: nat)
    ensures n <= |p|
    decreases count
  {
    if count == 0 || !Decode8(p).Decoded? then 0
    else
      var n := Decode8(p).length;
      n + Passed8(p[n..], count - 1)
  }

  /** Well-formed text of at least `count` characters is as long as its first `count` encodings. */
  lemma {:induction false} SizeOfText8(cs: seq<CodePoint>, count: nat, rest: seq<Octet>)
    requires forall k :: 0 <= k < |cs| ==> IsScalar(cs[k])
    requires count <= |cs|
    ensures Passed8(EncodeAll8(cs) + rest, count) == |EncodeAll8(cs[..count])|
    decreases count
  {
    if count > 0 {
      var p := EncodeAll8(cs) + rest;
      var e, more := Encode8(cs[0]), EncodeAll8(cs[1..]) + rest;
      assert p == e + more;
      DecodeEncode8(cs[0], more);
      assert p[|e|..] == more;
      assert cs[..count][1..] == cs[1..][..count - 1];
      SizeOfText8(cs[1..], count - 1, rest);
    }
  }

  /** bytesOfSequence for UTF-8 text. */
  method BytesOfSequence8(count: nat, sequence: seq<Octet>) returns (size: nat)
    ensures size == Passed8(sequence, count)
  {
    hide Decode8;
    size := 0;
    assert sequence[0..] == sequence;
    for i := 0 to count
      invariant size <= |sequence|
      invariant size + Passed8(sequence[size..], count - i) == Passed8(sequence, count)
    {
      var d := Decode8(sequence[size..]);
      if !d.Decoded? {
        break;
      }
      assert sequence[size..][d.length..] == sequence[size + d.length..];
      size := size + d.length;
    }
  }

  // ----- UTF-16 -----

  /** The two integers for the 20 bits u above 0x10000. */
  function High(u: CodePoint): Unit
    requires u <= 0xFFFFF
  {
    (0xD800 | (u >> 10)) as Unit
  }

  function Low(u: CodePoint): Unit
    requires u <= 0xFFFFF
  {
    (0xDC00 | (u & 0x3FF)) as Unit
  }

  function Pair(w1: Unit, w2: Unit): CodePoint {
    ((w1 & 0x3FF) as CodePoint << 10) | ((w2 & 0x3FF) as CodePoint)
  }

  predicate IsWhole(w: Unit) { w < 0xDB00 || w > 0xDFFF }
  predicate IsHigh(w: Unit) { 0xDB00 <= w <= 0xDBFF }
  predicate IsLow(w: Unit) { 0xDC00 <= w <= 0xDFFF }

  /** The 16-bit integers of a character value, by section 2.1 of RFC 2781. */
  function Encode16(c: CodePoint): (s: seq<Unit>)
    requires IsScalar(c)
    ensures 1 <= |s| <= 2
  {
    if c < 0x10000 then [c as Unit] else [High(c - 0x10000), Low(c - 0x10000)]
  }

  /** What __glPathGetCodePointUTF16 makes of the integers from p[0] on. */
  function Decode16(p: seq<Unit>): Decoded {
    if |p| == 0 then Beyond
    else if IsWhole(p[0]) then Decoded(p[0] as CodePoint, 1)
    else if !IsHigh(p[0]) then Invalid
    else if |p| == 1 then Beyond
    else if !IsLow(p[1]) then Invalid
    else Decoded(Pair(p[0], p[1]) + 0x10000, 2)
  }

  lemma Whole16(c: CodePoint)
    requires IsScalar(c) && c < 0x10000
    ensures IsWhole(c as Unit) && (c as Unit) as CodePoint == c
  {
  }

  lemma PairJoins(u: CodePoint)
    requires u <= 0xFFFFF
    ensures Pair(High(u), Low(u)) == u && IsLow(Low(u))
  {
  }

  lemma HighSplits(u: CodePoint)
    requires u <= 0xFFFFF
    ensures u < 0xC0000 ==> IsWhole(High(u))
    ensures u >= 0xC0000 ==> !IsWhole(High(u)) && IsHigh(High(u))
  {
  }

  lemma Offset(c: CodePoint)
    requires 0x10000 <= c <= 0x10FFFF
    ensures c - 0x10000 <= 0xFFFFF && (c - 0x10000) + 0x10000 == c
    ensures c - 0x10000 < 0xC0000 <==> c < 0xD0000
  {
  }

  lemma DecodePair(w1: Unit, w2: Unit, rest: seq<Unit>)
    requires IsLow(w2) && (IsWhole(w1) || IsHigh(w1))
    ensures Decode16([w1, w2] + rest) ==
      if IsWhole(w1) then Decoded(w1 as CodePoint, 1) else Decoded(Pair(w1, w2) + 0x10000, 2)
  {
    hide Pair, IsWhole, IsHigh, IsLow;
  }

  /** Characters that one integer stands for, and those whose first integer is not below 0xDB00. */
  predicate OneUnit(c: CodePoint) { c < 0x10000 }
  predicate HighEnough(c: CodePoint) { c >= 0xD0000 }
  predicate Decodable(c: CodePoint) { OneUnit(c) || HighEnough(c) }

  lemma DecodeOneUnit(c: CodePoint, rest: seq<Unit>)
    requires IsScalar(c) && OneUnit(c)
    ensures Decode16(Encode16(c) + rest) == Decoded(c, 1) && |Encode16(c)| == 1
  {
    Whole16(c);
    hide IsWhole, IsHigh, IsLow;
  }

  lemma PairOf(c: CodePoint) returns (w1: Unit, w2: Unit)
    requires IsScalar(c) && !OneUnit(c)
    ensures Encode16(c) == [w1, w2] && IsLow(w2) && Pair(w1, w2) + 0x10000 == c
    ensures if HighEnough(c) then !IsWhole(w1) && IsHigh(w1) else IsWhole(w1)
  {
    Offset(c);
    PairJoins(c - 0x10000);
    HighSplits(c - 0x10000);
    w1, w2 := High(c - 0x10000), Low(c - 0x10000);
    hide High, Low, Pair, IsWhole, IsHigh, IsLow;
  }

  /** A character is decoded if and only if it is below 0x10000 or from 0xD0000 on: the decoder
      takes a leading integer below 0xDB00 for a character of its own, where section 2.2 of
      RFC 2781 says 0xD800. */
  lemma DecodeEncode16(c: CodePoint, rest: seq<Unit>)
    requires IsScalar(c)
    ensures Decode16(Encode16(c) + rest) == Decoded(c, |Encode16(c)|) <==> Decodable(c)
  {
    assert Decodable(c) <==> OneUnit(c) || HighEnough(c);
    hide *;
    if OneUnit(c) {
      DecodeOneUnit(c, rest);
    } else {
      var w1, w2 := PairOf(c);
      DecodePair(w1, w2, rest);
    }
  }

  /** U+10000 is read as its first integer alone, and behind that nothing more is read. */
  lemma Undecoded16()
    ensures Encode16(0x10000) == [0xD800, 0xDC00]
    ensures Decode16([0xD800, 0xDC00]) == Decoded(0xD800, 1) && Decode16([0xDC00]) == Invalid
  {
  }

  function EncodeAll16(cs: seq<CodePoint>): (s: seq<Unit>)
    requires forall k :: 0 <= k < |cs| ==> IsScalar(cs[k])
  {
    if cs == [] then [] else Encode16(cs[0]) + EncodeAll16(cs[1..])
  }

  /** The integers passed over by `count` decoding steps. */
  function Passed16(p: seq<Unit>, count: nat): (n: nat)
    ensures n <= |p|
    decreases count
  {
    if count == 0 || !Decode16(p).Decoded? then 0
    else
      var n := Decode16(p).length;
      n + Passed16(p[n..], count - 1)
  }

  /** A character that is not decodable is taken for one integer, and the next step fails. */
  lemma StopsAt(c: CodePoint, rest: seq<Unit>, count: nat)
    requires IsScalar(c) && !Decodable(c) && count > 0
    ensures |Encode16(c)| == 2 && Passed16(Encode16(c) + rest, count) == 1
  {
    var w1, w2 := PairOf(c);
    hide Pair, High, Low, IsHigh;
    assert Decode16([w1, w2] + rest) == Decoded(w1 as CodePoint, 1);
    assert ([w1, w2] + rest)[1..] == [w2] + rest;
    LowAlone(w2, rest);
  }

  lemma LowAlone(w: Unit, rest: seq<Unit>)
    requires IsLow(w)
    ensures Decode16([w] + rest) == Invalid
  {
  }

  /** The integers passed over are the encoded length of the first `count` characters if and only
      if every one of those is decodable. */
  lemma {:induction false} SizeOfText16Iff(cs: seq<CodePoint>, count: nat, rest: seq<Unit>)
    requires forall k :: 0 <= k < |cs| ==> IsScalar(cs[k])
    requires count <= |cs|
    ensures Passed16(EncodeAll16(cs) + rest, count) == |EncodeAll16(cs[..count])|
      <==> forall k :: 0 <= k < count ==> Decodable(cs[k])
    decreases count
  {
    if count > 0 {
      var c, e, more := cs[0], Encode16(cs[0]), EncodeAll16(cs[1..]) + rest;
      assert EncodeAll16(cs) + rest == e + more;
      assert cs[..count][1..] == cs[1..][..count - 1];
      assert |EncodeAll16(cs[..count])| == |e| + |EncodeAll16(cs[1..][..count - 1])|;
      hide Decode16, Encode16, Decodable;
      if Decodable(c) {
        DecodableStep(c, more, count);
        SizeOfText16Iff(cs[1..], count - 1, rest);
        FirstAndRest(cs, count);
      } else {
        StopsAt(c, more, count);
      }
    }
  }

  lemma DecodableStep(c: CodePoint, more: seq<Unit>, count: nat)
    requires IsScalar(c) && Decodable(c) && count > 0
    ensures Passed16(Encode16(c) + more, count) == |Encode16(c)| + Passed16(more, count - 1)
  {
    DecodeEncode16(c, more);
    hide Decode16, Encode16;
    assert (Encode16(c) + more)[|Encode16(c)|..] == more;
  }

  lemma FirstAndRest(cs: seq<CodePoint>, count: nat)
    requires 0 < count <= |cs|
    ensures (forall k :: 0 <= k < count ==> Decodable(cs[k]))
      <==> Decodable(cs[0]) && (forall k :: 0 <= k < count - 1 ==> Decodable(cs[1..][k]))
  {
    hide Decodable;
    var tail := cs[1..];
    if Decodable(cs[0]) && (forall k :: 0 <= k < count - 1 ==> Decodable(tail[k])) {
      forall k | 0 <= k < count ensures Decodable(cs[k]) {
        assert k > 0 ==> tail[k - 1] == cs[k];
      }
    }
  }

  /** bytesOfSequence for UTF-16 text: two bytes for every integer passed over. */
  method BytesOfSequence16(count: nat, sequence: seq<Unit>) returns (size: nat)
    ensures size == 2 * Passed16(sequence, count)
  {
    hide Decode16;
    var place: nat := 0;
    assert sequence[0..] == sequence;
    for i := 0 to count
      invariant place <= |sequence|
      invariant place + Passed16(sequence[place..], count - i) == Passed16(sequence, count)
    {
      var d := Decode16(sequence[place..]);
      if !d.Decoded? {
        break;
      }
      assert sequence[place..][d.length..] == sequence[place + d.length..];
      place := place + d.length;
    }
    size := 2 * place;
  }

  /** What the decoder accepts: one integer below 0xDB00 or above 0xDFFF, or an encoded pair. */
  lemma Accepted16(p: seq<Unit>)
    requires Decode16(p).Decoded?
    ensures var d := Decode16(p);
      || (d.length == 1 && p != [] && IsWhole(p[0]) && d.codePoint == p[0] as CodePoint)
      || (d.length == 2 && |p| >= 2 && IsHigh(p[0]) && IsLow(p[1])
          && IsScalar(d.codePoint) && Encode16(d.codePoint) == p[..2])
  {
    if !IsWhole(p[0]) {
      PairAccepted(p[0], p[1]);
      hide Pair, High, Low, IsWhole, IsHigh, IsLow;
      assert p[..2] == [p[0], p[1]];
    }
  }

  lemma PairAccepted(w1: Unit, w2: Unit)
    requires IsHigh(w1) && IsLow(w2)
    ensures Pair(w1, w2) <= 0xFFFFF
    ensures var c := Pair(w1, w2) + 0x10000; IsScalar(c) && Encode16(c) == [w1, w2]
  {
    PairSplits(w1, w2);
    var c := Pair(w1, w2) + 0x10000;
    assert c >= 0x10000 && c - 0x10000 == Pair(w1, w2) && c <= 0x10FFFF;
  }

  lemma PairSplits(w1: Unit, w2: Unit)
    requires IsHigh(w1) && IsLow(w2)
    ensures Pair(w1, w2) <= 0xFFFFF && High(Pair(w1, w2)) == w1 && Low(Pair(w1, w2)) == w2
  {
  }

  /** The characters of the examples in section 7 of RFC 3629, and U+10302, in both encodings. */
  lemma KnownEncodings()
    ensures Encode8(0x2262) == [0xE2, 0x89, 0xA2] && Encode8(0x391) == [0xCE, 0x91] && Encode8(0x2E) == [0x2E]
    ensures Encode8(0x233B4) == [0xF0, 0xA3, 0x8E, 0xB4]
    ensures Encode8(0x10302) == [0xF0, 0x90, 0x8C, 0x82] && Encode16(0x10302) == [0xD800, 0xDF02]
    ensures Encode16(0x2262) == [0x2262]
  {
  }
}

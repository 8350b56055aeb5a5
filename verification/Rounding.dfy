/** Products and quotients of natural numbers, rounded up, as the buffer sizes need them. */
module Rounding {

  function Times(a: nat, b: nat): nat {
    a * b
  }

  function CeilDiv(a: nat, b: nat): nat
    requires b > 0
  {
    (a + b - 1) / b
  }

  /** The bytes that hold so many bits. */
  function ByteCount(bits: nat): nat {
    (bits + 7) / 8
  }

  lemma TimesMono(a: nat, b: nat, c: nat)
    requires a <= b
    ensures Times(a, c) <= Times(b, c)
  {
  }

  lemma TimesUnits(a: nat)
    ensures Times(0, a) == 0 && Times(a, 0) == 0 && Times(1, a) == a && Times(a, 1) == a
  {
  }

  lemma TimesPositive(a: nat, b: nat)
    ensures Times(a, b) > 0 <==> a > 0 && b > 0
  {
  }

  lemma TimesSum(a: nat, b: nat, c: nat)
    ensures Times(a + b, c) == Times(a, c) + Times(b, c)
  {
  }

  lemma TimesCommutes(a: nat, b: nat)
    ensures Times(a, b) == Times(b, a)
  {
  }

  lemma TimesAssociates(a: nat, b: nat, c: nat)
    ensures Times(Times(a, b), c) == Times(a, Times(b, c))
  {
    assert a * b * c == a * (b * c);
  }

  lemma DivBounds(a: nat, b: nat)
    requires b > 0
    ensures Times(a / b, b) <= a < Times(a / b + 1, b)
  {
  }

  lemma QuotientIs(a: nat, b: nat, q: nat)
    requires b > 0 && Times(q, b) <= a < Times(q + 1, b)
    ensures a / b == q
  {
    hide Times;
    DivBounds(a, b);
    if a / b < q {
      TimesMono(a / b + 1, q, b);
    } else if a / b > q {
      TimesMono(q + 1, a / b, b);
    }
  }

  lemma DivMono(a: nat, b: nat, c: nat)
    requires a <= b && c > 0
    ensures a / c <= b / c
  {
    hide Times;
    DivBounds(a, c);
    DivBounds(b, c);
    if a / c > b / c {
      TimesMono(b / c + 1, a / c, c);
    }
  }

  /** The quotient of the last of a things is one less than the number of groups. */
  lemma LastGroup(a: nat, b: nat)
    requires a > 0 && b > 0
    ensures (a - 1) / b + 1 == CeilDiv(a, b)
  {
    var q := (a - 1) / b;
    hide Times;
    DivBounds(a - 1, b);
    TimesSum(q, 1, b);
    TimesSum(q + 1, 1, b);
    TimesUnits(b);
    QuotientIs(a + b - 1, b, q + 1);
  }

  lemma CeilDivZero(b: nat)
    requires b > 0
    ensures CeilDiv(0, b) == 0
  {
    TimesUnits(b);
    QuotientIs(b - 1, b, 0);
  }

  lemma DivTwice(a: nat, b: nat, c: nat)
    requires b > 0 && c > 0 && Times(b, c) > 0
    ensures a / b / c == a / Times(b, c)
  {
    var p, q := a / b, a / b / c;
    hide Times;
    DivBounds(a, b);
    DivBounds(p, c);
    TimesMono(Times(q, c), p, b);
    TimesMono(p + 1, Times(q + 1, c), b);
    TimesAssociates(q, c, b);
    TimesAssociates(q + 1, c, b);
    TimesCommutes(b, c);
    QuotientIs(a, Times(b, c), q);
  }

  /** Rounding up in two goes is rounding up once. */
  lemma CeilDivTwice(a: nat, b: nat, c: nat)
    requires b > 0 && c > 0 && Times(b, c) > 0
    ensures CeilDiv(CeilDiv(a, b), c) == CeilDiv(a, Times(b, c))
  {
    if a > 0 {
      LastGroup(a, b);
      var blocks := CeilDiv(a, b);
      hide Times, CeilDiv;
      LastGroup(blocks, c);
      LastGroup(a, Times(b, c));
      DivTwice(a - 1, b, c);
    } else {
      CeilDivZero(b);
      CeilDivZero(c);
      CeilDivZero(Times(b, c));
    }
  }
}

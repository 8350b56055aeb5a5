/** How a bitmask value is split into named flags, in the pickle and in the GUI. */
module BitmaskFlags {
  import opened Bytes
  import opened Rounding
  import opened PickleOutput

  /** A 64-bit word, as the set of the positions of its one bits: `&` is intersection, `|` is
      union, `a & ~b` is difference and 0 is the empty set. */
  type Word = w: set<nat> | forall b :: b in w ==> b < 64

  /** The number that the bits of w below position k stand for. */
  function LowBits(w: set<nat>, k: nat): (n: nat)
    ensures n < Pow2(k)
    decreases k, w
  {
    if k == 0 then 0 else LowBits(w, k - 1) + (if k - 1 in w then Pow2(k - 1) else 0)
  }

  /** The unsigned number that w stands for. */
  function Number(w: Word): uint64 {
    assert Pow2(64) == 0x1_0000_0000_0000_0000 by { Pow2Of64(); }
    LowBits(w, 64)
  }

  lemma Pow2Of64()
    ensures Pow2(64) == 0x1_0000_0000_0000_0000
  {
    assert Pow2(4) == 16;
    Pow2Square(4, 0x10);
    Pow2Square(8, 0x100);
    Pow2Square(16, 0x1_0000);
    Pow2Square(32, 0x1_0000_0000);
  }

  lemma Pow2Square(h: nat, v: nat)
    requires Pow2(h) == v
    ensures Pow2(2 * h) == v * v
  {
    Pow2Sum(h, h);
  }

  lemma {:induction false} Pow2Sum(j: nat, k: nat)
    ensures Pow2(j + k) == Pow2(j) * Pow2(k)
  {
    if j > 0 {
      Pow2Sum(j - 1, k);
    }
  }

  lemma {:induction false} LowBitsInjective(v: set<nat>, w: set<nat>, k: nat)
    requires LowBits(v, k) == LowBits(w, k)
    ensures forall b :: 0 <= b < k ==> (b in v <==> b in w)
  {
    if k > 0 {
      LowBitsInjective(v, w, k - 1);
    }
  }

  /** Different words are different numbers, so the word is the number. */
  lemma NumberInjective(v: Word, w: Word)
    requires Number(v) == Number(w)
    ensures v == w
  {
    LowBitsInjective(v, w, 64);
  }

  /** The bit of n with the value p is one. */
  predicate HasBit(n: nat, p: nat)
    requires p > 0
  {
    n / p % 2 == 1
  }

  /** A bit of the number is one if and only if its position is in the word. */
  lemma BitsOfNumber(w: Word, b: nat)
    ensures HasBit(Number(w), Pow2(b)) <==> b in w
  {
    if b < 64 {
      BitOf(w, 64, b);
    } else {
      assert Number(w) < Pow2(64) by { Pow2Of64(); }
      Pow2Grows(64, b);
      hide Pow2, Number;
      NoBit(Number(w), Pow2(b));
    }
  }

  lemma NoBit(n: nat, p: nat)
    requires n < p
    ensures !HasBit(n, p)
  {
    TimesUnits(p);
    hide Times;
    QuotientIs(n, p, 0);
  }

  lemma {:induction false} Pow2Grows(j: nat, k: nat)
    requires j <= k
    ensures Pow2(j) <= Pow2(k)
    decreases k
  {
    if j < k {
      Pow2Grows(j, k - 1);
    }
  }

  lemma {:induction false} BitOf(w: set<nat>, k: nat, b: nat)
    requires b < k
    ensures HasBit(LowBits(w, k), Pow2(b)) <==> b in w
    decreases k, b
  {
    hide *;
    var low, p := LowBits(w, k - 1), Pow2(b);
    LowBitsNext(w, k);
    TimesUnits(p);
    if b == k - 1 {
      TopBitIs(low, p, if b in w then 1 else 0);
    } else {
      var e := Pow2(k - 2 - b);
      HigherPower(k - 1, b, e);
      HigherBits(low, p, if k - 1 in w then e else 0);
      BitOf(w, k - 1, b);
    }
  }

  lemma TopBitIs(low: nat, p: nat, d: nat)
    requires low < p && d <= 1
    ensures HasBit(low + Times(d, p), p) <==> d == 1
  {
    TimesUnits(p);
    TimesSum(d, 1, p);
    hide Times;
    QuotientIs(low + Times(d, p), p, d);
  }

  lemma HigherBits(low: nat, p: nat, e: nat)
    requires p > 0
    ensures HasBit(low + Times(2 * e, p), p) <==> HasBit(low, p)
  {
    AddMultiple(low, p, 2 * e);
    hide Times;
  }

  lemma LowBitsNext(w: set<nat>, k: nat)
    requires k > 0
    ensures LowBits(w, k) == LowBits(w, k - 1) + if k - 1 in w then Pow2(k - 1) else 0
  {
  }

  lemma HigherPower(k: nat, b: nat, e: nat)
    requires b < k && e == Pow2(k - 1 - b)
    ensures Pow2(k) == Times(2 * e, Pow2(b))
  {
    Pow2Sum(b + 1, k - 1 - b);
    Regroup(Pow2(b), e);
  }

  lemma Regroup(p: nat, e: nat)
    ensures 2 * p * e == Times(2 * e, p)
  {
  }

  lemma AddMultiple(n: nat, p: nat, e: nat)
    requires p > 0
    ensures (n + Times(e, p)) / p == n / p + e
  {
    hide Times;
    var q := n / p;
    DivBounds(n, p);
    TimesSum(q, e, p);
    TimesSum(q + 1, e, p);
    QuotientIs(n + Times(e, p), p, q + e);
  }

  datatype Flag = Flag(name: Str, value: Word)

  /** The flags chosen, in order, and the bits that none of them covers. */
  datatype Selection = Selection(flags: seq<Flag>, rest: Word)

  predicate Chosen(f: Flag, value: Word) {
    (f.value != {} && value * f.value == f.value) || (f.value == {} && value == {})
  }

  /** The selection that the flags from position i on make in `value`. */
  function SelectFrom(table: seq<Flag>, i: nat, value: Word): Selection
    requires i <= |table|
    decreases |table| - i
  {
    if i == |table| then Selection([], value)
    else
      var picked := if Chosen(table[i], value) then [table[i]] else [];
      var value' := if Chosen(table[i], value) then value - table[i].value else value;
      if value' == {} then Selection(picked, {})
      else
        var tail := SelectFrom(table, i + 1, value');
        Selection(picked + tail.flags, tail.rest)
  }

  function Select(table: seq<Flag>, value: Word): Selection {
    SelectFrom(table, 0, value)
  }

  function Union(flags: seq<Flag>): set<nat> {
    if flags == [] then {} else flags[0].value + Union(flags[1..])
  }

  /** No bit belongs to two of the flags. */
  predicate Disjoint(flags: seq<Flag>) {
    flags == [] || (flags[0].value !! Union(flags[1..]) && Disjoint(flags[1..]))
  }

  /** s is what is left of table after deleting some of its entries. */
  predicate Subsequence(s: seq<Flag>, table: seq<Flag>) {
    if s == [] then true
    else if table == [] then false
    else if s[0] == table[0] then Subsequence(s[1..], table[1..])
    else Subsequence(s, table[1..])
  }

  lemma {:induction false} SelectPartitions(table: seq<Flag>, i: nat, value: Word)
    requires i <= |table|
    ensures var s := SelectFrom(table, i, value);
      Disjoint(s.flags) && Union(s.flags) + s.rest == value && Union(s.flags) !! s.rest
    decreases |table| - i
  {
    if i < |table| {
      var s := SelectFrom(table, i, value);
      var value' := if Chosen(table[i], value) then value - table[i].value else value;
      if value' != {} {
        SelectPartitions(table, i + 1, value');
      }
      if Chosen(table[i], value) {
        assert s.flags[1..] == if value' == {} then [] else SelectFrom(table, i + 1, value').flags;
      } else if value' != {} {
        assert s.flags == SelectFrom(table, i + 1, value').flags;
      }
    }
  }

  lemma {:induction false} NothingFits(table: seq<Flag>, i: nat, value: Word, k: nat)
    requires i <= k < |table| && table[k].value != {}
    ensures !(table[k].value <= SelectFrom(table, i, value).rest)
    decreases |table| - i
  {
    var value' := if Chosen(table[i], value) then value - table[i].value else value;
    if value' != {} {
      if i < k {
        NothingFits(table, i + 1, value', k);
      } else {
        SelectPartitions(table, i + 1, value');
        var f, rest := table[k].value, SelectFrom(table, i + 1, value').rest;
        assert rest <= value';
        assert f <= value ==> value * f == f;
      }
    }
  }

  lemma {:induction false} SelectKeepsOrder(table: seq<Flag>, i: nat, value: Word)
    requires i <= |table|
    ensures Subsequence(SelectFrom(table, i, value).flags, table[i..])
    decreases |table| - i
  {
    if i < |table| {
      var s := SelectFrom(table, i, value);
      var value' := if Chosen(table[i], value) then value - table[i].value else value;
      assert table[i..] == [table[i]] + table[i + 1..];
      if value' != {} {
        var t := SelectFrom(table, i + 1, value');
        SelectKeepsOrder(table, i + 1, value');
        if Chosen(table[i], value) {
          assert s.flags[1..] == t.flags;
        } else {
          assert s.flags == t.flags;
          SubsequenceSkip(t.flags, table[i], table[i + 1..]);
        }
      }
    }
  }

  lemma {:induction false} SubsequenceSkip(s: seq<Flag>, f: Flag, table: seq<Flag>)
    requires Subsequence(s, table)
    ensures Subsequence(s, [f] + table)
    decreases |table|, 1
  {
    assert ([f] + table)[1..] == table;
    if s != [] && s[0] == f {
      SubsequenceTail(s, table);
    }
  }

  lemma {:induction false} SubsequenceTail(s: seq<Flag>, table: seq<Flag>)
    requires s != [] && Subsequence(s, table)
    ensures Subsequence(s[1..], table)
    decreases |table|, 0
  {
    assert [table[0]] + table[1..] == table;
    if s[0] != table[0] {
      SubsequenceTail(s, table[1..]);
    }
    SubsequenceSkip(s[1..], table[0], table[1..]);
  }

  /** The chosen flags keep the table's order and share no bit, together with the rest they make
      up the value, the rest overlaps none of them, and no non-zero flag of the table fits
      inside the rest. */
  lemma SelectDecomposes(table: seq<Flag>, value: Word)
    ensures var s := Select(table, value);
      && Subsequence(s.flags, table)
      && Disjoint(s.flags)
      && Union(s.flags) + s.rest == value
      && Union(s.flags) !! s.rest
      && forall f :: f in table && f.value != {} ==> !(f.value <= s.rest)
  {
    SelectPartitions(table, 0, value);
    SelectKeepsOrder(table, 0, value);
    assert table[0..] == table;
    forall f | f in table && f.value != {}
      ensures !(f.value <= Select(table, value).rest)
    {
      var k :| 0 <= k < |table| && table[k] == f;
      NothingFits(table, 0, value, k);
    }
  }

  predicate HasZeroFlag(flags: seq<Flag>) {
    exists k :: 0 <= k < |flags| && flags[k].value == {}
  }

  lemma {:induction false} NoZeroFlag(table: seq<Flag>, i: nat, value: Word)
    requires i <= |table| && value != {}
    ensures !HasZeroFlag(SelectFrom(table, i, value).flags)
    decreases |table| - i
  {
    if i < |table| {
      var value' := if Chosen(table[i], value) then value - table[i].value else value;
      if value' != {} {
        NoZeroFlag(table, i + 1, value');
      }
    }
  }

  /** A flag whose own value is zero is chosen only for the value zero, and then only when it
      opens the table: after any other first flag the search has already stopped. */
  lemma ZeroFlagOnlyFirst(table: seq<Flag>, value: Word)
    ensures HasZeroFlag(Select(table, value).flags) <==> value == {} && table != [] && table[0].value == {}
  {
    if value != {} {
      NoZeroFlag(table, 0, value);
    } else if table != [] && table[0].value == {} {
      assert value - table[0].value == {};
      assert Select(table, value).flags == [table[0]];
      assert Select(table, value).flags[0].value == {};
    }
  }

  /** A zero flag behind another flag is not named, even for the value zero. */
  lemma SecondZeroFlag(one: Flag, zero: Flag)
    requires one.value != {} && zero.value == {}
    ensures Select([one, zero], {}) == Selection([], {})
    ensures Select([zero, one], {}) == Selection([zero], {})
  {
  }

  // ----- the assertion of the GUI's loop -----

  /** What the loop asserts at every flag it looks at from i on: a zero flag comes before the first
      named one. */
  predicate AssertsFrom(table: seq<Flag>, i: nat, value: Word, first: bool)
    requires i <= |table|
    decreases |table| - i
  {
    if i == |table| then true
    else
      var chosen := Chosen(table[i], value);
      var value' := if chosen then value - table[i].value else value;
      (table[i].value != {} || first) && (value' == {} || AssertsFrom(table, i + 1, value', first && !chosen))
  }

  /** One more flag at the end of the table. */
  lemma {:induction false} SelectSnoc(table: seq<Flag>, f: Flag, i: nat, value: Word)
    requires i <= |table|
    ensures var s := SelectFrom(table, i, value);
      SelectFrom(table + [f], i, value) ==
        if i < |table| && s.rest == {} then s
        else if Chosen(f, s.rest) then Selection(s.flags + [f], s.rest - f.value)
        else s
    decreases |table| - i
  {
    if i < |table| {
      var value' := if Chosen(table[i], value) then value - table[i].value else value;
      if value' != {} {
        SelectSnoc(table, f, i + 1, value');
      }
    } else {
      assert SelectFrom(table + [f], i + 1, if Chosen(f, value) then value - f.value else value).flags == [];
    }
  }

  /** No flag is named before flag k, or none of the bits is left for it. */
  predicate Unnamed(table: seq<Flag>, k: nat, value: Word)
    requires k <= |table|
  {
    Select(table[..k], value).flags == [] || Select(table[..k], value).rest == {}
  }

  /** Once no bits are left, nothing changes any more. */
  lemma {:induction false} StaysEmpty(table: seq<Flag>, i: nat, k: nat, value: Word)
    requires 0 < i <= k <= |table| && Select(table[..i], value).rest == {}
    ensures Select(table[..k], value).rest == {}
    decreases k
  {
    if i < k {
      StaysEmpty(table, i, k - 1, value);
      assert table[..k] == table[..k - 1] + [table[k - 1]];
      SelectSnoc(table[..k - 1], table[k - 1], 0, value);
    }
  }

  lemma {:induction false} AssertsFromIff(table: seq<Flag>, i: nat, value: Word)
    requires i <= |table|
    requires i == 0 || Select(table[..i], value).rest != {}
    ensures var s := Select(table[..i], value);
      AssertsFrom(table, i, s.rest, s.flags == []) <==>
        (forall k :: i <= k < |table| && table[k].value == {} ==> Unnamed(table, k, value))
    decreases |table| - i
  {
    if i < |table| {
      var s, s' := Select(table[..i], value), Select(table[..i + 1], value);
      assert table[..i + 1] == table[..i] + [table[i]];
      SelectSnoc(table[..i], table[i], 0, value);
      hide Select, SelectFrom, Chosen;
      if s'.rest == {} {
        forall k | i + 1 <= k < |table| ensures Unnamed(table, k, value) {
          StaysEmpty(table, i + 1, k, value);
        }
      } else {
        AssertsFromIff(table, i + 1, value);
      }
    }
  }

  /** A flag is named if one with bits fits the value. */
  lemma {:induction false} NamedIff(table: seq<Flag>, i: nat, value: Word)
    requires i <= |table| && value != {}
    ensures SelectFrom(table, i, value).flags != [] <==>
      exists j :: i <= j < |table| && table[j].value != {} && table[j].value <= value
    decreases |table| - i
  {
    if i < |table| {
      assert value * table[i].value == table[i].value <==> table[i].value <= value;
      if !Chosen(table[i], value) {
        NamedIff(table, i + 1, value);
      }
    }
  }

  /** None of the first k flags has bits and fits the value. */
  predicate NoneFits(table: seq<Flag>, k: nat, value: Word)
    requires k <= |table|
  {
    forall j :: 0 <= j < k && table[j].value != {} ==> !(table[j].value <= value)
  }

  /** The assertion holds throughout if and only if, before each zero flag of the table, no flag with
      bits fits the value or the flags named there leave none of its bits. */
  lemma AssertsIff(table: seq<Flag>, value: Word)
    ensures AssertsFrom(table, 0, value, true) <==>
      (forall k :: 0 <= k < |table| && table[k].value == {} ==>
         NoneFits(table, k, value) || Select(table[..k], value).rest == {})
  {
    assert Select(table[..0], value) == Selection([], value);
    AssertsFromIff(table, 0, value);
    forall k | 0 <= k < |table|
      ensures Unnamed(table, k, value) <==> NoneFits(table, k, value) || Select(table[..k], value).rest == {}
    {
      var prefix := table[..k];
      if value == {} {
        assert Select(prefix, value).rest == {};
      } else {
        NamedIff(prefix, 0, value);
        assert forall j :: 0 <= j < k ==> prefix[j] == table[j];
      }
    }
  }

  /** A zero flag behind a named one, with bits left, fails the assertion. */
  lemma AssertionFails(one: Flag, zero: Flag, value: Word)
    requires one.value != {} && one.value <= value && one.value != value && zero.value == {}
    ensures !AssertsFrom([one, zero], 0, value, true)
  {
    assert value * one.value == one.value;
    assert value - one.value != {} by {
      var b :| b in value && b !in one.value;
      assert b in value - one.value;
    }
    assert !AssertsFrom([one, zero], 1, value - one.value, false);
  }

  // ----- the GUI's text -----

  type text = string

  function Hex(n: nat): text {
    var digit := "0123456789abcdef"[n % 16];
    if n < 16 then [digit] else Hex(n / 16) + [digit]
  }

  function Digit(c: char): int {
    if '0' <= c <= '9' then c as int - '0' as int
    else if 'a' <= c <= 'f' then c as int - 'a' as int + 10
    else -1
  }

  /** The number that hexadecimal digits stand for. */
  function HexValue(s: text): int {
    if s == [] then 0 else 16 * HexValue(s[..|s| - 1]) + Digit(s[|s| - 1])
  }

  lemma DigitIs(k: nat)
    requires k < 16
    ensures Digit("0123456789abcdef"[k]) == k && (k > 0 ==> "0123456789abcdef"[k] != '0')
  {
  }

  /** Hex gives the digits of the number, without a zero in front. */
  lemma {:induction false} HexMeaning(n: nat)
    ensures HexValue(Hex(n)) == n && Hex(n) != []
    ensures forall k :: 0 <= k < |Hex(n)| ==> Digit(Hex(n)[k]) >= 0
    ensures n > 0 ==> Hex(n)[0] != '0'
  {
    var d := "0123456789abcdef"[n % 16];
    DigitIs(n % 16);
    if n >= 16 {
      HexMeaning(n / 16);
      var high := Hex(n / 16);
      assert Hex(n) == high + [d];
      hide Digit, Hex;
      assert (high + [d])[..|high|] == high;
    } else {
      assert Hex(n) == [d] && [d][..0] == [];
      hide Digit;
    }
  }

  function Join(parts: seq<text>): text {
    if parts == [] then ""
    else if |parts| == 1 then parts[0]
    else Join(parts[..|parts| - 1]) + " | " + parts[|parts| - 1]
  }

  /** Names are Latin-1: one character for each byte. */
  function Latin1(s: bytes): text {
    seq(|s|, k requires 0 <= k < |s| => s[k] as char)
  }

  function Names(flags: seq<Flag>): seq<text> {
    seq(|flags|, k requires 0 <= k < |flags| => Latin1(flags[k].name))
  }

  function HexText(w: Word): text { "0x" + Hex(Number(w)) }

  /** The chosen names and, if bits are left or nothing was chosen, the rest in hexadecimal. */
  function Shown(s: Selection): seq<text> {
    Names(s.flags) + (if s.rest != {} || s.flags == [] then [HexText(s.rest)] else [])
  }

  lemma JoinSnoc(parts: seq<text>, x: text)
    ensures Join(parts + [x]) == if parts == [] then x else Join(parts) + " | " + x
  {
    assert (parts + [x])[..|parts|] == parts;
  }

  lemma ShowName(flags: seq<Flag>, f: Flag) returns (more: seq<Flag>)
    ensures more == flags + [f]
    ensures Join(Names(more)) == if flags == [] then Latin1(f.name) else Join(Names(flags)) + " | " + Latin1(f.name)
  {
    more := flags + [f];
    NamesSnoc(flags, f);
    JoinSnoc(Names(flags), Latin1(f.name));
  }

  lemma NamesSnoc(flags: seq<Flag>, f: Flag)
    ensures Names(flags + [f]) == Names(flags) + [Latin1(f.name)]
  {
  }

  lemma ShownText(flags: seq<Flag>, rest: Word)
    ensures Join(Shown(Selection(flags, rest))) ==
      if rest == {} && flags != [] then Join(Names(flags))
      else if flags == [] then HexText(rest)
      else Join(Names(flags)) + " | " + HexText(rest)
  {
    if rest == {} && flags != [] {
      assert Shown(Selection(flags, rest)) == Names(flags);
    } else {
      JoinSnoc(Names(flags), HexText(rest));
    }
  }

  /** ApiBitmask: the value and the table it was recorded with. */
  class ApiBitmask {
    const m_sig: seq<Flag>
    const m_value: Word

    constructor (table: seq<Flag>, value: Word)
      ensures m_sig == table && m_value == value
    {
      m_sig, m_value := table, value;
    }

    /** One turn of the loop: the text and the flags picked so far after looking at flag i. */
    static lemma Turn(table: seq<Flag>, i: nat, value: Word, picked: seq<Flag>, all: Selection)
        returns (picked': seq<Flag>, value': Word)
      requires i < |table|
      requires all.flags == picked + SelectFrom(table, i, value).flags
      requires all.rest == SelectFrom(table, i, value).rest
      ensures value' == if Chosen(table[i], value) then value - table[i].value else value
      ensures picked' == if Chosen(table[i], value) then picked + [table[i]] else picked
      ensures value' == {} ==> all == Selection(picked', {})
      ensures value' != {} ==> all.flags == picked' + SelectFrom(table, i + 1, value').flags
      ensures value' != {} ==> all.rest == SelectFrom(table, i + 1, value').rest
    {
      picked' := if Chosen(table[i], value) then picked + [table[i]] else picked;
      value' := if Chosen(table[i], value) then value - table[i].value else value;
      if value' != {} && Chosen(table[i], value) {
        ConcatAssoc(picked, [table[i]], SelectFrom(table, i + 1, value').flags);
      }
    }

    /** The loop's variables before it looks at flag i; held: every assertion so far held. */
    ghost predicate Before(i: nat, value: Word, picked: seq<Flag>, str: text, held: bool) {
      && i <= |m_sig|
      && str == Join(Names(picked))
      && Select(m_sig, m_value).flags == picked + SelectFrom(m_sig, i, value).flags
      && Select(m_sig, m_value).rest == SelectFrom(m_sig, i, value).rest
      && (AssertsFrom(m_sig, 0, m_value, true) <==> held && AssertsFrom(m_sig, i, value, picked == []))
    }

    /** The loop's variables behind it. */
    ghost predicate Behind(value: Word, picked: seq<Flag>, str: text, held: bool) {
      && str == Join(Names(picked))
      && Select(m_sig, m_value) == Selection(picked, value)
      && (AssertsFrom(m_sig, 0, m_value, true) <==> held)
    }

    lemma BeforeFirst()
      ensures Before(0, m_value, [], "", true)
    {
    }

    lemma BehindLast(value: Word, picked: seq<Flag>, str: text, held: bool)
      requires Before(|m_sig|, value, picked, str, held)
      ensures Behind(value, picked, str, held)
    {
    }

    lemma AfterTurn(i: nat, value: Word, picked: seq<Flag>, str: text, held: bool)
      requires i < |m_sig| && Before(i, value, picked, str, held)
      ensures var it := m_sig[i];
        var chosen := Chosen(it, value);
        var value' := if chosen then value - it.value else value;
        var picked' := if chosen then picked + [it] else picked;
        var str' := if !chosen then str else (if picked == [] then str else str + " | ") + Latin1(it.name);
        var held' := held && (it.value != {} || picked == []);
        if value' == {} then Behind(value', picked', str', held') else Before(i + 1, value', picked', str', held')
    {
      var picked', value' := Turn(m_sig, i, value, picked, Select(m_sig, m_value));
      var more := ShowName(picked, m_sig[i]);
      hide Select, Join, Names, Latin1;
    }

    /** `held`: every assertion on the way held. */
    method ToString() returns (str: text, held: bool)
      ensures str == Join(Shown(Select(m_sig, m_value)))
      ensures held <==> AssertsFrom(m_sig, 0, m_value, true)
    {
      hide Before, Behind, Join, Shown, Select, AssertsFrom, Latin1, HexText, Names;
      str, held := "", true;
      var value: Word := m_value;
      var first := true;
      ghost var picked: seq<Flag> := [];
      BeforeFirst();
      var i := 0;
      while i < |m_sig|
        invariant 0 <= i <= |m_sig|
        invariant first <==> picked == []
        invariant Before(i, value, picked, str, held)
      {
        var it := m_sig[i];
        AfterTurn(i, value, picked, str, held);
        held := held && (it.value != {} || first);
        if (it.value != {} && value * it.value == it.value) || (it.value == {} && value == {}) {
          if !first {
            str := str + " | ";
          }
          str := str + Latin1(it.name);
          value := value - it.value;
          first := false;
          picked := picked + [it];
        }
        if value == {} {
          break;
        }
        i := i + 1;
      }
      if value != {} || i == |m_sig| {
        BehindLast(value, picked, str, held);
      }
      BehindIs(value, picked, str, held);
      ShownText(picked, value);
      if value != {} || first {
        if !first {
          str := str + " | ";
        }
        str := str + HexText(value);
      }
    }

    lemma BehindIs(value: Word, picked: seq<Flag>, str: text, held: bool)
      requires Behind(value, picked, str, held)
      ensures Select(m_sig, m_value) == Selection(picked, value) && str == Join(Names(picked))
      ensures held <==> AssertsFrom(m_sig, 0, m_value, true)
    {
    }
  }
}

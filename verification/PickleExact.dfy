/** When the pickled object is the recorded one: exactly when no unsigned number that is
    actually delivered has its top bit set and every wide string is ASCII. */
module PickleExact {
  import opened Bytes
  import opened PickleMachine
  import opened PickleOutput
  import opened BitmaskFlags
  import opened PickleCode

  predicate Below(u: nat, range: int) { 2 * u < range }

  predicate Clean(v: Value, symbolic: bool)
    decreases v
  {
    match v
    case UInt(u) => Below(u, RANGE64)
    case WString(ws) => forall k :: 0 <= k < |ws| ==> 0 <= ws[k] < 0x80
    case Bitmask(table, bits) =>
      Below(Number(if symbolic then Select(table, bits).rest else bits), RANGE64)
    case Struct(ms) => CleanMembers(ms, symbolic, {})
    case Array(vs) => CleanAll(vs, symbolic)
    case Pointer(a) => Below(a, RANGE64)
    case Repr(h, m) => if symbolic then Clean(h, symbolic) else Clean(m, symbolic)
    case _ => true
  }

  predicate CleanAll(vs: seq<Value>, symbolic: bool)
    decreases vs
  {
    vs == [] || (CleanAll(vs[..|vs| - 1], symbolic) && Clean(vs[|vs| - 1], symbolic))
  }

  /** Members that a later member of the same name replaces (the names in `replaced`) do not count. */
  predicate CleanMembers(ms: seq<Member>, symbolic: bool, replaced: set<bytes>)
    decreases ms
  {
    if ms == [] then true
    else
      var last := ms[|ms| - 1];
      && (last.name in replaced || Clean(last.value, symbolic))
      && CleanMembers(ms[..|ms| - 1], symbolic, replaced + {last.name})
  }

  lemma EmptyIsZero(k: nat)
    ensures LowBits({}, k) == 0
  {
  }

  lemma UIntExact(u: nat, range: int)
    requires range > 0
    ensures UIntObj(u, range, false) == UIntObj(u, range, true) <==> Below(u, range)
  {
  }

  lemma WStringExact(ws: WStr)
    ensures NarrowAll(ws) == ws <==> forall k :: 0 <= k < |ws| ==> 0 <= ws[k] < 0x80
  {
    forall k | 0 <= k < |ws| ensures NarrowAll(ws)[k] == ws[k] <==> 0 <= ws[k] < 0x80 {
      assert NarrowAll(ws)[k] == Narrow(ws[k]);
    }
  }

  lemma BitmaskExact(s: Selection)
    ensures BitmaskItems(s, false) == BitmaskItems(s, true) <==> Below(Number(s.rest), RANGE64)
  {
    if s.rest == {} {
      EmptyIsZero(64);
    } else {
      var k := |s.flags|;
      assert BitmaskItems(s, false)[k] == UIntObj(Number(s.rest), RANGE64, false);
      assert BitmaskItems(s, true)[k] == UIntObj(Number(s.rest), RANGE64, true);
    }
  }

  /** The machine delivers the recorded value itself if and only if the value is clean. */
  lemma {:induction false} ExactIffClean(v: Value, symbolic: bool)
    ensures Denote(v, symbolic, false) == Denote(v, symbolic, true) <==> Clean(v, symbolic)
    decreases v
  {
    match v
    case UInt(u) => UIntExact(u, RANGE64);
    case WString(ws) => WStringExact(ws);
    case Bitmask(table, bits) =>
      if symbolic {
        BitmaskExact(Select(table, bits));
      } else {
        UIntExact(Number(bits), RANGE64);
      }
    case Struct(ms) =>
      MembersExact(ms, symbolic);
    case Array(vs) => AllExact(vs, symbolic);
    case Pointer(a) => UIntExact(a, RANGE64);
    case Repr(h, m) =>
      if symbolic { ExactIffClean(h, symbolic); } else { ExactIffClean(m, symbolic); }
    case _ =>
  }

  lemma {:induction false} AllExact(vs: seq<Value>, symbolic: bool)
    ensures DenoteAll(vs, symbolic, false) == DenoteAll(vs, symbolic, true) <==> CleanAll(vs, symbolic)
    decreases vs
  {
    if vs != [] {
      var init, last := vs[..|vs| - 1], vs[|vs| - 1];
      AllExact(init, symbolic);
      ExactIffClean(last, symbolic);
      var a, b := DenoteAll(vs, symbolic, false), DenoteAll(vs, symbolic, true);
      assert a[..|init|] == DenoteAll(init, symbolic, false);
      assert b[..|init|] == DenoteAll(init, symbolic, true);
      assert a[|init|] == Denote(last, symbolic, false) && b[|init|] == Denote(last, symbolic, true);
    }
  }

  ghost predicate AgreeOutside(a: map<bytes, Obj>, b: map<bytes, Obj>, replaced: set<bytes>) {
    forall k :: k in a && k !in replaced ==> k in b && a[k] == b[k]
  }

  lemma {:induction false} SameKeys(ms: seq<Member>, symbolic: bool)
    ensures DenoteMembers(ms, symbolic, false).Keys == DenoteMembers(ms, symbolic, true).Keys
    decreases ms
  {
    if ms != [] {
      SameKeys(ms[..|ms| - 1], symbolic);
    }
  }

  lemma {:induction false} MembersAgree(ms: seq<Member>, symbolic: bool, replaced: set<bytes>)
    ensures AgreeOutside(DenoteMembers(ms, symbolic, false), DenoteMembers(ms, symbolic, true), replaced)
      <==> CleanMembers(ms, symbolic, replaced)
    decreases ms, 0
  {
    if ms != [] {
      var init, last := ms[..|ms| - 1], ms[|ms| - 1];
      SameKeys(init, symbolic);
      MembersAgree(init, symbolic, replaced + {last.name});
      ExactIffClean(last.value, symbolic);
      var a, b := DenoteMembers(ms, symbolic, false), DenoteMembers(ms, symbolic, true);
      var a', b' := DenoteMembers(init, symbolic, false), DenoteMembers(init, symbolic, true);
      assert forall k :: k != last.name ==> (k in a <==> k in a') && (k in a ==> a[k] == a'[k]);
      assert forall k :: k != last.name ==> (k in b <==> k in b') && (k in b ==> b[k] == b'[k]);
      assert AgreeOutside(a, b, replaced) <==>
        (last.name in replaced || a[last.name] == b[last.name]) && AgreeOutside(a', b', replaced + {last.name});
    }
  }

  lemma MembersExact(ms: seq<Member>, symbolic: bool)
    ensures DenoteMembers(ms, symbolic, false) == DenoteMembers(ms, symbolic, true)
      <==> CleanMembers(ms, symbolic, {})
    decreases ms, 1
  {
    hide CleanMembers, DenoteMembers;
    MembersAgree(ms, symbolic, {});
    SameKeys(ms, symbolic);
    var a, b := DenoteMembers(ms, symbolic, false), DenoteMembers(ms, symbolic, true);
    if AgreeOutside(a, b, {}) {
      assert a == b;
    }
  }

  /** Two values that do not come back: 2^63 and the character U+00E9. */
  lemma Unclean(symbolic: bool, m: Machine)
    ensures Yields(Code(UInt(0x8000_0000_0000_0000), symbolic), m, [PyInt(-0x8000_0000_0000_0000)])
    ensures Yields(Code(WString([0xE9]), symbolic), m, [PyUnicode([63])])
  {
    CodeMeaning(UInt(0x8000_0000_0000_0000), symbolic, m);
    CodeMeaning(WString([0xE9]), symbolic, m);
    assert NarrowAll([0xE9]) == [63];
    hide Code, Yields;
  }
}

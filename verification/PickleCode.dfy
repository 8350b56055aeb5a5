/** Trace values, the Python objects they stand for, and the pickle code that builds them. */
module PickleCode {
  import opened Options
  import opened Bytes
  import opened PickleMachine
  import opened PickleInteger
  import opened PickleOutput
  import opened BitmaskFlags

  datatype EnumName = EnumName(name: Str, value: int64)
  datatype Member = Member(name: Str, value: Value)

  /** A recorded value (lib/trace/trace_model.hpp).  C strings are given without their
      terminator, doubles as the eight bytes in memory. */
  datatype Value =
    | Null
    | Bool(b: bool)
    | SInt(i: int64)
    | UInt(u: uint64)
    | Float(f: DoubleImage)
    | Double(d: DoubleImage)
    | String(s: Str)
    | WString(ws: WStr)
    | Enum(value: int64, names: seq<EnumName>)
    | Bitmask(table: seq<Flag>, bits: Word)
    | Struct(members: seq<Member>)
    | Array(values: seq<Value>)
    | Blob(data: Str)
    | Pointer(address: uint64)
    | Repr(human: Value, machine: Value)

  /** The first name recorded for an enum value. */
  function Lookup(names: seq<EnumName>, value: int64): (r: Option<Str>)
  {
    if names == [] then None
    else if names[0].value == value then Some(names[0].name)
    else Lookup(names[1..], value)
  }

  /** The name is that of the first entry with the value; none exactly if no entry has it. */
  lemma {:induction false} LookupIff(names: seq<EnumName>, value: int64, name: Str)
    ensures Lookup(names, value) == Some(name) <==>
      exists k :: 0 <= k < |names| && names[k] == EnumName(name, value) && NoneBefore(names, value, k)
    ensures Lookup(names, value) == None <==> NoneBefore(names, value, |names|)
  {
    if names != [] {
      var tail := names[1..];
      LookupIff(tail, value, name);
      if names[0].value != value {
        forall k | 0 <= k <= |tail| ensures NoneBefore(names, value, k + 1) <==> NoneBefore(tail, value, k) {
          assert forall j :: 0 < j < k + 1 ==> names[j] == tail[j - 1];
          assert forall j :: 0 <= j < k ==> tail[j] == names[j + 1];
        }
        if k :| 0 <= k < |tail| && tail[k] == EnumName(name, value) && NoneBefore(tail, value, k) {
          assert names[k + 1] == tail[k] && NoneBefore(names, value, k + 1);
        }
        if k :| 0 <= k < |names| && names[k] == EnumName(name, value) && NoneBefore(names, value, k) {
          assert k > 0 && tail[k - 1] == names[k] && NoneBefore(tail, value, k - 1);
        }
      } else {
        assert NoneBefore(names, value, 0);
        assert !NoneBefore(names, value, |names|);
      }
    }
  }

  /** None of the first k entries has the value. */
  predicate NoneBefore(names: seq<EnumName>, value: int64, k: nat)
    requires k <= |names|
  {
    forall j :: 0 <= j < k ==> names[j].value != value
  }

  const RANGE32 := 0x1_0000_0000
  const RANGE64 := 0x1_0000_0000_0000_0000

  // ----- the object a value stands for -----

  function FlagNames(flags: seq<Flag>): (os: seq<Obj>)
    ensures |os| == |flags|
  {
    seq(|flags|, k requires 0 <= k < |flags| => PyStr(flags[k].name))
  }

  /** The names of the selected flags and, if bits are left over, their number. */
  function BitmaskItems(s: Selection, exact: bool): seq<Obj> {
    FlagNames(s.flags) + (if s.rest == {} then [] else [UIntObj(Number(s.rest), RANGE64, exact)])
  }

  /** An unsigned number: itself if `exact`, else as LONG1 delivers it. */
  function UIntObj(u: nat, range: int, exact: bool): Obj {
    PyInt(if exact then u else Wrapped(u, range))
  }

  /** The object that a value stands for.  With `exact`, every unsigned number and every wide
      character stands for itself; without it, for what the pickle delivers: a number that is
      negative from half its range on, and a question mark outside ASCII. */
  function Denote(v: Value, symbolic: bool, exact: bool): Obj
    decreases v
  {
    match v
    case Null => PyInt(0)
    case Bool(b) => PyBool(b)
    case SInt(i) => PyInt(i)
    case UInt(u) => UIntObj(u, RANGE64, exact)
    case Float(f) => PyFloat(f)
    case Double(d) => PyFloat(d)
    case String(s) => PyStr(s)
    case WString(ws) => PyUnicode(if exact then ws else NarrowAll(ws))
    case Enum(i, names) =>
      if symbolic && Lookup(names, i).Some? then PyStr(Lookup(names, i).value) else PyInt(i)
    case Bitmask(table, bits) =>
      if symbolic then PyTuple(BitmaskItems(Select(table, bits), exact))
      else UIntObj(Number(bits), RANGE64, exact)
    case Struct(ms) => PyDict(DenoteMembers(ms, symbolic, exact))
    case Array(vs) => PyList(DenoteAll(vs, symbolic, exact))
    case Blob(s) => Applied(PyGlobal(BUILTIN, BYTEARRAY), [PyStr(s)])
    case Pointer(a) => Applied(PyGlobal(UNPICKLE, ADDRESS_CLASS), [UIntObj(a, RANGE64, exact)])
    case Repr(h, m) => if symbolic then Denote(h, symbolic, exact) else Denote(m, symbolic, exact)
  }

  function DenoteAll(vs: seq<Value>, symbolic: bool, exact: bool): (os: seq<Obj>)
    ensures |os| == |vs|
    decreases vs
  {
    if vs == [] then []
    else DenoteAll(vs[..|vs| - 1], symbolic, exact) + [Denote(vs[|vs| - 1], symbolic, exact)]
  }

  /** A dictionary: of two members with one name, the later stays. */
  function DenoteMembers(ms: seq<Member>, symbolic: bool, exact: bool): map<bytes, Obj>
    decreases ms
  {
    if ms == [] then map[]
    else
      var last := ms[|ms| - 1];
      DenoteMembers(ms[..|ms| - 1], symbolic, exact)[last.name := Denote(last.value, symbolic, exact)]
  }

  /** A list's objects are those of its elements, in order. */
  lemma {:induction false} DenoteAllAt(vs: seq<Value>, symbolic: bool, exact: bool, k: nat)
    requires k < |vs|
    ensures DenoteAll(vs, symbolic, exact)[k] == Denote(vs[k], symbolic, exact)
    decreases |vs|
  {
    if k < |vs| - 1 {
      DenoteAllAt(vs[..|vs| - 1], symbolic, exact, k);
    }
  }

  /** A dictionary has exactly the names of the members, each with the value of its last member. */
  lemma {:induction false} DenoteMembersIff(ms: seq<Member>, symbolic: bool, exact: bool, name: Str, o: Obj)
    ensures name in DenoteMembers(ms, symbolic, exact) && DenoteMembers(ms, symbolic, exact)[name] == o <==>
      exists k :: 0 <= k < |ms| && ms[k].name == name && LastOf(ms, k) && Denote(ms[k].value, symbolic, exact) == o
    decreases |ms|
  {
    if ms != [] {
      var init, last := ms[..|ms| - 1], ms[|ms| - 1];
      hide Denote;
      if last.name == name {
        assert LastOf(ms, |ms| - 1);
        assert forall k :: 0 <= k < |ms| - 1 && ms[k].name == name ==> !LastOf(ms, k);
      } else {
        DenoteMembersIff(init, symbolic, exact, name, o);
        forall k | 0 <= k < |init| && ms[k].name == name ensures LastOf(ms, k) <==> LastOf(init, k) {
          assert forall j :: k < j < |init| ==> ms[j] == init[j];
        }
      }
    }
  }

  /** No later member has the name of member k. */
  predicate LastOf(ms: seq<Member>, k: nat)
    requires k < |ms|
  {
    forall j :: k < j < |ms| ==> ms[j].name != ms[k].name
  }

  // ----- the code -----

  function FlagsCode(flags: seq<Flag>): seq<Instr> {
    if flags == [] then [] else FlagsCode(flags[..|flags| - 1]) + StrCode(flags[|flags| - 1].name)
  }

  function BitmaskCode(s: Selection): seq<Instr> {
    [Mark] + FlagsCode(s.flags) + (if s.rest == {} then [] else [UInt64Code(Number(s.rest))]) + [TupleOp]
  }

  function Code(v: Value, symbolic: bool): seq<Instr>
    decreases v
  {
    match v
    case Null => [Int32Code(0)]
    case Bool(b) => [BoolCode(b)]
    case SInt(i) => [Int64Code(i)]
    case UInt(u) => [UInt64Code(u)]
    case Float(f) => [BinFloat(Reverse(f))]
    case Double(d) => [BinFloat(Reverse(d))]
    case String(s) => StrCode(s)
    case WString(ws) => WStrCode(ws)
    case Enum(i, names) =>
      if symbolic && Lookup(names, i).Some? then StrCode(Lookup(names, i).value) else [Int64Code(i)]
    case Bitmask(table, bits) =>
      if symbolic then BitmaskCode(Select(table, bits)) else [UInt64Code(Number(bits))]
    case Struct(ms) => [EmptyDict, BinPut(1)] + MembersCode(ms, symbolic)
    case Array(vs) => [EmptyList, BinPut(1), Mark] + AllCode(vs, symbolic) + [Appends]
    case Blob(s) => ByteArrayCode(s)
    case Pointer(a) => PointerCode(a)
    case Repr(h, m) => if symbolic then Code(h, symbolic) else Code(m, symbolic)
  }

  function AllCode(vs: seq<Value>, symbolic: bool): seq<Instr>
    decreases vs
  {
    if vs == [] then []
    else AllCode(vs[..|vs| - 1], symbolic) + Code(vs[|vs| - 1], symbolic)
  }

  function MembersCode(ms: seq<Member>, symbolic: bool): seq<Instr>
    decreases ms
  {
    if ms == [] then []
    else
      var last := ms[|ms| - 1];
      MembersCode(ms[..|ms| - 1], symbolic) + MemberCode(last, symbolic)
  }

  function MemberCode(m: Member, symbolic: bool): seq<Instr>
    decreases m
  {
    StrCode(m.name) + Code(m.value, symbolic) + [SetItem]
  }

  // ----- running the code -----

  /** The memos agree outside slot 1. */
  ghost predicate SameMemo(a: map<byte, Obj>, b: map<byte, Obj>) {
    forall k: byte :: k != 1 ==> (k in a <==> k in b) && (k in a ==> a[k] == b[k])
  }

  /** m' is m after `objs` were pushed: nothing below, no mark and no memo slot but 1 changed. */
  ghost predicate Pushed(m: Machine, m': Machine, objs: seq<Obj>) {
    m'.stack == m.stack + objs && m'.marks == m.marks && SameMemo(m.memo, m'.memo)
  }

  ghost predicate Valid(code: seq<Instr>) {
    forall k :: 0 <= k < |code| ==> Encodable(code[k])
  }

  /** From m, the code runs, can be assembled, and pushes objs. */
  ghost predicate Yields(code: seq<Instr>, m: Machine, objs: seq<Obj>) {
    Valid(code) && Run(code, m).Some? && Pushed(m, Run(code, m).value, objs)
  }

  lemma YieldsOne(i: Instr, o: Obj, m: Machine)
    requires Encodable(i) && Do(i, m) == Some(m.Push(o))
    ensures Yields([i], m, [o])
  {
    assert Run([i], m) == Run([], m.Push(o));
  }

  /** An instruction that pushes an object, which is then stored in slot 1. */
  lemma YieldsStored(i: Instr, o: Obj, m: Machine)
    requires Encodable(i) && Do(i, m) == Some(m.Push(o))
    ensures Yields([i, BinPut(1)], m, [o])
  {
    var m' := m.Push(o);
    assert [i, BinPut(1)][1..] == [BinPut(1)];
    assert Run([BinPut(1)], m') == Run([], m'.(memo := m'.memo[1 := o]));
  }

  lemma YieldsThen(a: seq<Instr>, b: seq<Instr>, m: Machine, x: seq<Obj>, y: seq<Obj>)
    requires Yields(a, m, x)
    requires Yields(b, Run(a, m).value, y)
    ensures Yields(a + b, m, x + y)
  {
    RunConcat(a, b, m);
    ConcatAssoc(m.stack, x, y);
  }

  lemma StrMeaning(s: Str, m: Machine)
    ensures Yields(StrCode(s), m, [PyStr(s)])
  {
    YieldsStored(if |s| < 256 then ShortBinString(s) else BinString(s), PyStr(s), m);
  }

  lemma Tuple1Meaning(m: Machine, below: seq<Obj>, o: Obj)
    requires m.stack == below + [o]
    ensures Do(Tuple1, m) == Some(Machine(below + [PyTuple([o])], m.marks, m.memo))
  {
    assert m.stack[|m.stack| - 1..] == [o];
    assert m.stack[..|m.stack| - 1] == below;
  }

  lemma ReduceMeaning(m: Machine, below: seq<Obj>, f: Obj, args: seq<Obj>)
    requires m.stack == below + [f, PyTuple(args)] && f.PyGlobal?
    ensures Do(Reduce, m) == Some(Machine(below + [Applied(f, args)], m.marks, m.memo))
  {
    assert m.stack[..|m.stack| - 2] == below;
  }

  /** A global, one argument, TUPLE1 and REDUCE apply the global to the argument. */
  lemma ApplyMeaning(mod: bytes, name: bytes, arg: seq<Instr>, o: Obj, m: Machine)
    requires Encodable(Global(mod, name))
    requires forall k: Machine :: Yields(arg, k, [o])
    ensures Yields(GlobalCode(mod, name) + arg + [Tuple1, Reduce], m, [Applied(PyGlobal(mod, name), [o])])
  {
    var f := PyGlobal(mod, name);
    var head := GlobalCode(mod, name) + arg;
    YieldsStored(Global(mod, name), f, m);
    YieldsThen(GlobalCode(mod, name), arg, m, [f], [o]);
    assert [f] + [o] == [f, o];
    forall k: Machine | k.stack == m.stack + [f, o] && k.marks == m.marks
      ensures Do(Tuple1, k) == Some(Machine(m.stack + [f, PyTuple([o])], k.marks, k.memo))
    {
      assert k.stack == m.stack + [f] + [o];
      Tuple1Meaning(k, m.stack + [f], o);
      assert m.stack + [f] + [PyTuple([o])] == m.stack + [f, PyTuple([o])];
    }
    RunConcat(head, [Tuple1, Reduce], m);
    var k := Run(head, m).value;
    var k' := Do(Tuple1, k).value;
    assert [Tuple1, Reduce][1..] == [Reduce];
    ReduceMeaning(k', m.stack, f, [o]);
    assert Run([Reduce], k') == Run([], Do(Reduce, k').value);
  }

  lemma BytearrayMeaning(s: Str, m: Machine)
    ensures Yields(ByteArrayCode(s), m, [Applied(PyGlobal(BUILTIN, BYTEARRAY), [PyStr(s)])])
  {
    forall k: Machine ensures Yields(StrCode(s), k, [PyStr(s)]) {
      StrMeaning(s, k);
    }
    ApplyMeaning(BUILTIN, BYTEARRAY, StrCode(s), PyStr(s), m);
  }

  lemma PointerMeaning(a: uint64, m: Machine)
    ensures Yields(PointerCode(a), m, [Applied(PyGlobal(UNPICKLE, ADDRESS_CLASS), [UIntObj(a, RANGE64, false)])])
  {
    UInt64CodeMeaning(a);
    var o := UIntObj(a, RANGE64, false);
    forall k: Machine ensures Yields([UInt64Code(a)], k, [o]) {
      YieldsOne(UInt64Code(a), o, k);
    }
    ApplyMeaning(UNPICKLE, ADDRESS_CLASS, [UInt64Code(a)], o, m);
  }

  /** MARK, code that pushes items, TUPLE: one tuple of the items. */
  lemma TupleMeaning(code: seq<Instr>, items: seq<Obj>, m: Machine)
    requires Yields(code, Machine([], m.marks + [m.stack], m.memo), items)
    ensures Yields([Mark] + code + [TupleOp], m, [PyTuple(items)])
  {
    var inner := Machine([], m.marks + [m.stack], m.memo);
    var k := Run(code, inner).value;
    assert Run([Mark], m) == Run([], inner);
    RunConcat([Mark], code, m);
    RunConcat([Mark] + code, [TupleOp], m);
    assert [] + items == items;
    assert Front(k.marks) == m.marks;
    assert Run([TupleOp], k) == Run([], Do(TupleOp, k).value);
  }

  lemma OpenList(m: Machine) returns (inner: Machine)
    ensures Run([EmptyList, BinPut(1), Mark], m) == Some(inner)
    ensures inner.stack == [] && inner.marks == m.marks + [m.stack + [PyList([])]]
    ensures SameMemo(m.memo, inner.memo)
  {
    YieldsStored(EmptyList, PyList([]), m);
    var below := Run([EmptyList, BinPut(1)], m).value;
    inner := Machine([], below.marks + [below.stack], below.memo);
    RunConcat([EmptyList, BinPut(1)], [Mark], m);
    assert Run([Mark], below) == Run([], inner);
    assert [EmptyList, BinPut(1)] + [Mark] == [EmptyList, BinPut(1), Mark];
  }

  lemma CloseList(k: Machine, marks: seq<seq<Obj>>, below: seq<Obj>)
    requires k.marks == marks + [below + [PyList([])]]
    ensures Run([Appends], k) == Some(Machine(below + [PyList(k.stack)], marks, k.memo))
  {
    assert Front(k.marks) == marks;
    assert Front(Last(k.marks)) == below;
    assert [] + k.stack == k.stack;
    assert Run([Appends], k) == Run([], Do(Appends, k).value);
  }

  /** An empty list stored in slot 1, MARK, code that pushes items, APPENDS: one list. */
  lemma ListMeaning(code: seq<Instr>, items: seq<Obj>, m: Machine)
    requires forall memo: map<byte, Obj> :: Yields(code, Machine([], m.marks + [m.stack + [PyList([])]], memo), items)
    ensures Yields([EmptyList, BinPut(1), Mark] + code + [Appends], m, [PyList(items)])
  {
    var inner := OpenList(m);
    assert inner == Machine([], m.marks + [m.stack + [PyList([])]], inner.memo);
    var k := Run(code, inner).value;
    RunConcat([EmptyList, BinPut(1), Mark], code, m);
    RunConcat([EmptyList, BinPut(1), Mark] + code, [Appends], m);
    assert [] + items == items;
    CloseList(k, m.marks, m.stack);
  }

  lemma SetItemMeaning(m: Machine, below: seq<Obj>, d: map<bytes, Obj>, key: bytes, o: Obj)
    requires m.stack == below + [PyDict(d), PyStr(key), o]
    ensures Do(SetItem, m) == Some(Machine(below + [PyDict(d[key := o])], m.marks, m.memo))
  {
    assert m.stack[..|m.stack| - 3] == below;
  }

  lemma {:induction false} FlagsMeaning(flags: seq<Flag>, m: Machine)
    ensures Yields(FlagsCode(flags), m, FlagNames(flags))
  {
    if flags == [] {
      assert m.stack + [] == m.stack;
    } else {
      var init, last := flags[..|flags| - 1], flags[|flags| - 1];
      FlagsMeaning(init, m);
      StrMeaning(last.name, Run(FlagsCode(init), m).value);
      YieldsThen(FlagsCode(init), StrCode(last.name), m, FlagNames(init), [PyStr(last.name)]);
      assert FlagNames(flags) == FlagNames(init) + [PyStr(last.name)];
    }
  }

  lemma BitmaskMeaning(s: Selection, m: Machine)
    ensures Yields(BitmaskCode(s), m, [PyTuple(BitmaskItems(s, false))])
  {
    var inner := Machine([], m.marks + [m.stack], m.memo);
    FlagsMeaning(s.flags, inner);
    if s.rest == {} {
      assert FlagsCode(s.flags) + [] == FlagsCode(s.flags);
      assert BitmaskItems(s, false) == FlagNames(s.flags);
      TupleMeaning(FlagsCode(s.flags), FlagNames(s.flags), m);
      assert BitmaskCode(s) == [Mark] + FlagsCode(s.flags) + [TupleOp];
    } else {
      var i, o := UInt64Code(Number(s.rest)), UIntObj(Number(s.rest), RANGE64, false);
      UInt64CodeMeaning(Number(s.rest));
      YieldsOne(i, o, Run(FlagsCode(s.flags), inner).value);
      YieldsThen(FlagsCode(s.flags), [i], inner, FlagNames(s.flags), [o]);
      TupleMeaning(FlagsCode(s.flags) + [i], BitmaskItems(s, false), m);
      assert BitmaskCode(s) == [Mark] + (FlagsCode(s.flags) + [i]) + [TupleOp];
    }
  }

  lemma OpenDict(m: Machine) returns (inside: Machine)
    ensures Valid([EmptyDict, BinPut(1)]) && Run([EmptyDict, BinPut(1)], m) == Some(inside)
    ensures Pushed(m, inside, [PyDict(map[])])
  {
    YieldsStored(EmptyDict, PyDict(map[]), m);
    inside := Run([EmptyDict, BinPut(1)], m).value;
  }

  /** An empty dictionary stored in slot 1, and code that fills it. */
  lemma DictMeaning(code: seq<Instr>, d: Obj, m: Machine, inside: Machine)
    requires Valid([EmptyDict, BinPut(1)]) && Run([EmptyDict, BinPut(1)], m) == Some(inside)
    requires Valid(code) && Run(code, inside).Some? && Pushed(m, Run(code, inside).value, [d])
    ensures Yields([EmptyDict, BinPut(1)] + code, m, [d])
  {
    RunConcat([EmptyDict, BinPut(1)], code, m);
  }

  /** The code of a value pushes exactly the value's object. */
  lemma {:induction false} CodeMeaning(v: Value, symbolic: bool, m: Machine)
    ensures Yields(Code(v, symbolic), m, [Denote(v, symbolic, false)])
    decreases v
  {
    hide Yields, Run, Valid, Pushed, Encodable, Select, BitmaskCode, StrCode, ByteArrayCode, PointerCode, UInt64Code;
    match v
    case Null =>
      Int32CodeMeaning(0);
      YieldsOne(Int32Code(0), PyInt(0), m);
    case Bool(b) => YieldsOne(BoolCode(b), PyBool(b), m);
    case SInt(i) =>
      Int64CodeMeaning(i);
      YieldsOne(Int64Code(i), PyInt(i), m);
    case UInt(u) =>
      UInt64CodeMeaning(u);
      YieldsOne(UInt64Code(u), UIntObj(u, RANGE64, false), m);
    case Float(f) =>
      ReverseTwice(f);
      YieldsOne(BinFloat(Reverse(f)), PyFloat(f), m);
    case Double(d) =>
      ReverseTwice(d);
      YieldsOne(BinFloat(Reverse(d)), PyFloat(d), m);
    case String(s) => StrMeaning(s, m);
    case WString(ws) => YieldsStored(BinUnicode(NarrowAll(ws)), PyUnicode(NarrowAll(ws)), m);
    case Enum(i, names) =>
      if symbolic && Lookup(names, i).Some? {
        StrMeaning(Lookup(names, i).value, m);
      } else {
        Int64CodeMeaning(i);
        YieldsOne(Int64Code(i), PyInt(i), m);
      }
    case Bitmask(table, bits) =>
      if symbolic {
        BitmaskMeaning(Select(table, bits), m);
      } else {
        UInt64CodeMeaning(Number(bits));
        YieldsOne(UInt64Code(Number(bits)), UIntObj(Number(bits), RANGE64, false), m);
      }
    case Struct(ms) =>
      var inside := OpenDict(m);
      MembersMeaning(ms, symbolic, m, inside);
      DictMeaning(MembersCode(ms, symbolic), PyDict(DenoteMembers(ms, symbolic, false)), m, inside);
    case Array(vs) =>
      forall memo: map<byte, Obj>
        ensures Yields(AllCode(vs, symbolic), Machine([], m.marks + [m.stack + [PyList([])]], memo),
                       DenoteAll(vs, symbolic, false))
      {
        AllMeaning(vs, symbolic, Machine([], m.marks + [m.stack + [PyList([])]], memo));
      }
      ListMeaning(AllCode(vs, symbolic), DenoteAll(vs, symbolic, false), m);
    case Blob(s) => BytearrayMeaning(s, m);
    case Pointer(a) => PointerMeaning(a, m);
    case Repr(h, k) =>
      if symbolic { CodeMeaning(h, symbolic, m); } else { CodeMeaning(k, symbolic, m); }
  }

  lemma {:induction false} AllMeaning(vs: seq<Value>, symbolic: bool, m: Machine)
    ensures Yields(AllCode(vs, symbolic), m, DenoteAll(vs, symbolic, false))
    decreases vs
  {
    if vs == [] {
      assert m.stack + [] == m.stack;
    } else {
      var init, last := vs[..|vs| - 1], vs[|vs| - 1];
      AllMeaning(init, symbolic, m);
      CodeMeaning(last, symbolic, Run(AllCode(init, symbolic), m).value);
      YieldsThen(AllCode(init, symbolic), Code(last, symbolic), m,
                 DenoteAll(init, symbolic, false), [Denote(last, symbolic, false)]);
    }
  }

  /** With an empty dictionary on top of `base`, the members' code fills that dictionary. */
  lemma {:induction false} MembersMeaning(ms: seq<Member>, symbolic: bool, base: Machine, m: Machine)
    requires Pushed(base, m, [PyDict(map[])])
    ensures Valid(MembersCode(ms, symbolic)) && Run(MembersCode(ms, symbolic), m).Some?
    ensures Pushed(base, Run(MembersCode(ms, symbolic), m).value, [PyDict(DenoteMembers(ms, symbolic, false))])
    decreases ms
  {
    if ms != [] {
      var init, last := ms[..|ms| - 1], ms[|ms| - 1];
      MembersMeaning(init, symbolic, base, m);
      var m1 := Run(MembersCode(init, symbolic), m).value;
      StrMeaning(last.name, m1);
      CodeMeaning(last.value, symbolic, Run(StrCode(last.name), m1).value);
      var o := Denote(last.value, symbolic, false);
      YieldsThen(StrCode(last.name), Code(last.value, symbolic), m1, [PyStr(last.name)], [o]);
      ItemMeaning(StrCode(last.name) + Code(last.value, symbolic), base, m1,
                  DenoteMembers(init, symbolic, false), last.name, o);
      RunConcat(MembersCode(init, symbolic), MemberCode(last, symbolic), m);
    }
  }

  /** With a dictionary on top of `base`, code for a key and a value, and SETITEM. */
  lemma ItemMeaning(item: seq<Instr>, base: Machine, m: Machine, d: map<bytes, Obj>, key: Str, o: Obj)
    requires Pushed(base, m, [PyDict(d)]) && Yields(item, m, [PyStr(key)] + [o])
    ensures Valid(item + [SetItem]) && Run(item + [SetItem], m).Some?
    ensures Pushed(base, Run(item + [SetItem], m).value, [PyDict(d[key := o])])
  {
    var m' := Run(item, m).value;
    assert m'.stack == base.stack + [PyDict(d), PyStr(key), o];
    SetItemMeaning(m', base.stack, d, key, o);
    RunConcat(item, [SetItem], m);
    assert Run([SetItem], m') == Run([], Do(SetItem, m').value);
  }

  /** The pickle of a value means the value: the machine, in any state and with any bytes
      following, consumes exactly the value's bytes and pushes exactly its object. */
  lemma PickleMeaning(v: Value, symbolic: bool, m: Machine, rest: bytes)
    ensures var code := Code(v, symbolic);
      var r := Steps(AsmAll(code) + rest, m, |code|);
      r.Some? && r.value.0 == rest && Pushed(m, r.value.1, [Denote(v, symbolic, false)])
  {
    CodeMeaning(v, symbolic, m);
    StepsAsm(Code(v, symbolic), rest, m);
  }

  // ----- what is pushed, kind by kind -----

  /** Null is the number zero; numbers, truth values, doubles and texts are themselves. */
  lemma PlainMeaning(b: bool, i: int64, d: DoubleImage, s: Str, symbolic: bool, m: Machine)
    ensures Yields(Code(Null, symbolic), m, [PyInt(0)])
    ensures Yields(Code(Bool(b), symbolic), m, [PyBool(b)])
    ensures Yields(Code(SInt(i), symbolic), m, [PyInt(i)])
    ensures Yields(Code(Float(d), symbolic), m, [PyFloat(d)]) && Yields(Code(Double(d), symbolic), m, [PyFloat(d)])
    ensures Yields(Code(String(s), symbolic), m, [PyStr(s)])
  {
    CodeMeaning(Null, symbolic, m);
    CodeMeaning(Bool(b), symbolic, m);
    CodeMeaning(SInt(i), symbolic, m);
    CodeMeaning(Float(d), symbolic, m);
    CodeMeaning(Double(d), symbolic, m);
    CodeMeaning(String(s), symbolic, m);
    hide Code, Yields;
  }

  /** An enum value is pickled by the first name recorded for it, if names are wanted and there is one;
      else by its number. */
  lemma EnumMeaning(value: int64, names: seq<EnumName>, symbolic: bool, m: Machine)
    ensures forall k :: 0 <= k < |names| && symbolic && names[k].value == value && NoneBefore(names, value, k) ==>
      Yields(Code(Enum(value, names), symbolic), m, [PyStr(names[k].name)])
    ensures !symbolic || NoneBefore(names, value, |names|) ==>
      Yields(Code(Enum(value, names), symbolic), m, [PyInt(value)])
  {
    CodeMeaning(Enum(value, names), symbolic, m);
    forall k | 0 <= k < |names| && names[k].value == value && NoneBefore(names, value, k)
      ensures Lookup(names, value) == Some(names[k].name)
    {
      assert names[k] == EnumName(names[k].name, value);
      LookupIff(names, value, names[k].name);
    }
    var none: Str := [];
    LookupIff(names, value, none);
    hide Code, Yields, Lookup;
  }

  /** A value with two representations is pickled as the human one if names are wanted. */
  lemma ReprMeaning(human: Value, machine: Value, m: Machine)
    ensures Yields(Code(Repr(human, machine), true), m, [Denote(human, true, false)])
    ensures Yields(Code(Repr(human, machine), false), m, [Denote(machine, false, false)])
  {
    CodeMeaning(Repr(human, machine), true, m);
    CodeMeaning(Repr(human, machine), false, m);
    hide Code, Yields;
  }
}

/** Call records, the stream of records, and the visitor that writes them (cli/cli_pickle.cpp). */
module PickleStream {
  import opened Options
  import opened Bytes
  import opened PickleMachine
  import opened PickleInteger
  import opened PickleOutput
  import opened BitmaskFlags
  import opened PickleCode
  import opened PickleExact

  /** A recorded call: its number, the names of its signature, and its arguments, which may be
      more than the signature names and may be missing. */
  datatype Call = Call(
    no: uint32, name: Str, argNames: seq<Str>, args: seq<Option<Value>>, ret: Option<Value>, flags: uint32)

  // ----- meaning -----

  function DenoteOption(v: Option<Value>, symbolic: bool, exact: bool): Obj {
    match v case None => PyNone case Some(x) => Denote(x, symbolic, exact)
  }

  function DenoteArg(c: Call, i: nat, symbolic: bool, exact: bool): Obj
    requires i < |c.args|
  {
    PyTuple([if i < |c.argNames| then PyStr(c.argNames[i]) else PyNone, DenoteOption(c.args[i], symbolic, exact)])
  }

  function DenoteArgs(c: Call, n: nat, symbolic: bool, exact: bool): (os: seq<Obj>)
    requires n <= |c.args|
    ensures |os| == n
  {
    seq(n, i requires 0 <= i < n => DenoteArg(c, i, symbolic, exact))
  }

  /** The 5-tuple (number, name, arguments, result, flags). */
  function DenoteCall(c: Call, symbolic: bool, exact: bool): Obj {
    PyTuple([
      UIntObj(c.no, RANGE32, exact),
      PyStr(c.name),
      PyList(DenoteArgs(c, |c.args|, symbolic, exact)),
      DenoteOption(c.ret, symbolic, exact),
      UIntObj(c.flags, RANGE32, exact)])
  }

  // ----- code -----

  function OptionCode(v: Option<Value>, symbolic: bool): seq<Instr> {
    match v case None => [NoneOp] case Some(x) => Code(x, symbolic)
  }

  function ArgCode(c: Call, i: nat, symbolic: bool): seq<Instr>
    requires i < |c.args|
  {
    (if i < |c.argNames| then StrCode(c.argNames[i]) else [NoneOp])
    + OptionCode(c.args[i], symbolic) + [Tuple2]
  }

  function ArgsCode(c: Call, n: nat, symbolic: bool): seq<Instr>
    requires n <= |c.args|
  {
    if n == 0 then [] else ArgsCode(c, n - 1, symbolic) + ArgCode(c, n - 1, symbolic)
  }

  function ListCode(c: Call, symbolic: bool): seq<Instr> {
    [EmptyList, BinPut(1), Mark] + ArgsCode(c, |c.args|, symbolic) + [Appends]
  }

  function CallBody(c: Call, symbolic: bool): seq<Instr> {
    [UInt32Code(c.no)] + StrCode(c.name) + ListCode(c, symbolic) + OptionCode(c.ret, symbolic) + [UInt32Code(c.flags)]
  }

  function CallCode(c: Call, symbolic: bool): seq<Instr> {
    [Mark] + CallBody(c, symbolic) + [TupleOp]
  }

  /** One record of the stream. */
  function Record(c: Call, symbolic: bool): bytes {
    AsmAll([Proto(2)] + CallCode(c, symbolic) + [Stop])
  }

  function Stream(calls: seq<Call>, symbolic: bool): bytes {
    if calls == [] then [] else Stream(calls[..|calls| - 1], symbolic) + Record(calls[|calls| - 1], symbolic)
  }

  // ----- proofs -----

  lemma OptionMeaning(v: Option<Value>, symbolic: bool, m: Machine)
    ensures Yields(OptionCode(v, symbolic), m, [DenoteOption(v, symbolic, false)])
  {
    match v
    case None => YieldsOne(NoneOp, PyNone, m);
    case Some(x) => CodeMeaning(x, symbolic, m);
  }

  lemma ArgMeaning(c: Call, i: nat, symbolic: bool, m: Machine)
    requires i < |c.args|
    ensures Yields(ArgCode(c, i, symbolic), m, [DenoteArg(c, i, symbolic, false)])
  {
    var nameCode := if i < |c.argNames| then StrCode(c.argNames[i]) else [NoneOp];
    var name := if i < |c.argNames| then PyStr(c.argNames[i]) else PyNone;
    if i < |c.argNames| {
      StrMeaning(c.argNames[i], m);
    } else {
      YieldsOne(NoneOp, PyNone, m);
    }
    var o := DenoteOption(c.args[i], symbolic, false);
    OptionMeaning(c.args[i], symbolic, Run(nameCode, m).value);
    YieldsThen(nameCode, OptionCode(c.args[i], symbolic), m, [name], [o]);
    PairMeaning(nameCode + OptionCode(c.args[i], symbolic), m, name, o);
  }

  lemma PairMeaning(code: seq<Instr>, m: Machine, a: Obj, b: Obj)
    requires Yields(code, m, [a] + [b])
    ensures Yields(code + [Tuple2], m, [PyTuple([a, b])])
  {
    RunConcat(code, [Tuple2], m);
    var k := Run(code, m).value;
    assert k.stack[..|k.stack| - 2] == m.stack && k.stack[|k.stack| - 2..] == [a, b];
    assert Run([Tuple2], k) == Run([], Do(Tuple2, k).value);
  }

  lemma NoArgs(c: Call, symbolic: bool, m: Machine)
    ensures Yields(ArgsCode(c, 0, symbolic), m, DenoteArgs(c, 0, symbolic, false))
  {
    assert m.stack + [] == m.stack;
  }

  lemma ArgsNext(c: Call, n: nat, symbolic: bool)
    requires n < |c.args|
    ensures ArgsCode(c, n + 1, symbolic) == ArgsCode(c, n, symbolic) + ArgCode(c, n, symbolic)
    ensures DenoteArgs(c, n + 1, symbolic, false)
      == DenoteArgs(c, n, symbolic, false) + [DenoteArg(c, n, symbolic, false)]
  {
    hide ArgCode, DenoteArg;
  }

  lemma {:induction false} ArgsMeaning(c: Call, n: nat, symbolic: bool, m: Machine)
    requires n <= |c.args|
    ensures Yields(ArgsCode(c, n, symbolic), m, DenoteArgs(c, n, symbolic, false))
    decreases n
  {
    hide ArgsCode, DenoteArgs, ArgCode, DenoteArg, Run, Valid, Pushed;
    if n == 0 {
      NoArgs(c, symbolic, m);
    } else {
      var code := ArgsCode(c, n - 1, symbolic);
      ArgsMeaning(c, n - 1, symbolic, m);
      ArgMeaning(c, n - 1, symbolic, Run(code, m).value);
      YieldsThen(code, ArgCode(c, n - 1, symbolic), m,
                 DenoteArgs(c, n - 1, symbolic, false), [DenoteArg(c, n - 1, symbolic, false)]);
      ArgsNext(c, n - 1, symbolic);
    }
  }

  lemma ListCodeMeaning(c: Call, symbolic: bool, m: Machine)
    ensures Yields(ListCode(c, symbolic), m, [PyList(DenoteArgs(c, |c.args|, symbolic, false))])
  {
    var code, items := ArgsCode(c, |c.args|, symbolic), DenoteArgs(c, |c.args|, symbolic, false);
    forall memo: map<byte, Obj>
      ensures Yields(code, Machine([], m.marks + [m.stack + [PyList([])]], memo), items)
    {
      ArgsMeaning(c, |c.args|, symbolic, Machine([], m.marks + [m.stack + [PyList([])]], memo));
    }
    ListMeaning(code, items, m);
  }

  lemma UInt32Meaning(i: uint32, m: Machine)
    ensures Yields([UInt32Code(i)], m, [UIntObj(i, RANGE32, false)])
  {
    UInt32CodeMeaning(i);
    YieldsOne(UInt32Code(i), UIntObj(i, RANGE32, false), m);
  }

  lemma CallBodyMeaning(c: Call, symbolic: bool, m: Machine)
    ensures Yields(CallBody(c, symbolic), m, DenoteCall(c, symbolic, false).items)
  {
    var no, flags := UIntObj(c.no, RANGE32, false), UIntObj(c.flags, RANGE32, false);
    var args, ret := PyList(DenoteArgs(c, |c.args|, symbolic, false)), DenoteOption(c.ret, symbolic, false);
    var code := [UInt32Code(c.no)];
    hide Valid, Pushed, Run, UInt32Code, StrCode, ListCode, OptionCode, DenoteOption, DenoteArgs;
    UInt32Meaning(c.no, m);
    StrMeaning(c.name, Run(code, m).value);
    YieldsThen(code, StrCode(c.name), m, [no], [PyStr(c.name)]);
    code := code + StrCode(c.name);
    ListCodeMeaning(c, symbolic, Run(code, m).value);
    YieldsThen(code, ListCode(c, symbolic), m, [no] + [PyStr(c.name)], [args]);
    code := code + ListCode(c, symbolic);
    OptionMeaning(c.ret, symbolic, Run(code, m).value);
    YieldsThen(code, OptionCode(c.ret, symbolic), m, [no] + [PyStr(c.name)] + [args], [ret]);
    code := code + OptionCode(c.ret, symbolic);
    UInt32Meaning(c.flags, Run(code, m).value);
    YieldsThen(code, [UInt32Code(c.flags)], m, [no] + [PyStr(c.name)] + [args] + [ret], [flags]);
    assert [no] + [PyStr(c.name)] + [args] + [ret] + [flags] == DenoteCall(c, symbolic, false).items;
  }

  lemma CallMeaning(c: Call, symbolic: bool, m: Machine)
    ensures Yields(CallCode(c, symbolic), m, [DenoteCall(c, symbolic, false)])
  {
    CallBodyMeaning(c, symbolic, Machine([], m.marks + [m.stack], m.memo));
    TupleMeaning(CallBody(c, symbolic), DenoteCall(c, symbolic, false).items, m);
  }

  /** A record delimits itself: whatever bytes follow, loading it returns its call and stops
      exactly behind it. */
  lemma RecordLoads(c: Call, symbolic: bool, rest: bytes)
    ensures Load(Record(c, symbolic) + rest, EmptyMachine) == Some((DenoteCall(c, symbolic, false), rest))
  {
    var code := [Proto(2)] + CallCode(c, symbolic);
    var m := EmptyMachine;
    CallMeaning(c, symbolic, m);
    assert Run([Proto(2)], m) == Run([], m);
    RunConcat([Proto(2)], CallCode(c, symbolic), m);
    var m' := Run(code, m).value;
    assert m'.stack == [DenoteCall(c, symbolic, false)];
    assert Valid(code);
    hide Run, CallCode, DenoteCall, Pushed, Yields, AsmAll;
    AsmAllConcat(code, [Stop]);
    AsmOne(Stop);
    assert Record(c, symbolic) + rest == AsmAll(code) + (Asm(Stop) + rest);
    StepsAsm(code, Asm(Stop) + rest, m);
    LoadSteps(AsmAll(code) + (Asm(Stop) + rest), m, |code|);
    DecodeAsm(Stop, rest);
  }

  /** What a record loads to, part by part. */
  lemma RecordShape(c: Call, symbolic: bool, rest: bytes) returns (no: Obj, args: seq<Obj>, ret: Obj, flags: Obj)
    ensures Load(Record(c, symbolic) + rest, EmptyMachine) ==
      Some((PyTuple([no, PyStr(c.name), PyList(args), ret, flags]), rest))
    ensures no == PyInt(Wrapped(c.no, RANGE32)) && flags == PyInt(Wrapped(c.flags, RANGE32))
    ensures ret == if c.ret.Some? then Denote(c.ret.value, symbolic, false) else PyNone
    ensures |args| == |c.args|
    ensures forall i :: 0 <= i < |c.args| ==> args[i] == PyTuple([
      if i < |c.argNames| then PyStr(c.argNames[i]) else PyNone,
      if c.args[i].Some? then Denote(c.args[i].value, symbolic, false) else PyNone])
  {
    RecordLoads(c, symbolic, rest);
    no, flags := UIntObj(c.no, RANGE32, false), UIntObj(c.flags, RANGE32, false);
    args, ret := DenoteArgs(c, |c.args|, symbolic, false), DenoteOption(c.ret, symbolic, false);
    hide Load, Record, Denote;
  }

  lemma {:induction false} StreamCons(calls: seq<Call>, symbolic: bool)
    requires calls != []
    ensures Stream(calls, symbolic) == Record(calls[0], symbolic) + Stream(calls[1..], symbolic)
  {
    if |calls| == 1 {
      assert Stream(calls[..0], symbolic) == [];
    } else {
      var init, last := calls[..|calls| - 1], calls[|calls| - 1];
      StreamCons(init, symbolic);
      assert init[1..] == calls[1..][..|calls| - 2];
      ConcatAssoc(Record(init[0], symbolic), Stream(init[1..], symbolic), Record(last, symbolic));
    }
  }

  function DenoteCalls(calls: seq<Call>, symbolic: bool, exact: bool): seq<Obj> {
    seq(|calls|, i requires 0 <= i < |calls| => DenoteCall(calls[i], symbolic, exact))
  }

  lemma DenoteCallsCons(calls: seq<Call>, symbolic: bool, exact: bool)
    requires calls != []
    ensures DenoteCalls(calls, symbolic, exact)
      == [DenoteCall(calls[0], symbolic, exact)] + DenoteCalls(calls[1..], symbolic, exact)
  {
  }

  lemma LoadAllCons(code: bytes, o: Obj, rest: bytes, os: seq<Obj>)
    requires Load(code, EmptyMachine) == Some((o, rest)) && LoadAll(rest) == Some(os)
    ensures LoadAll(code) == Some([o] + os)
  {
  }

  /** Unpickling the stream record by record returns the calls, in order, whatever bytes their
      payloads contain. */
  lemma {:induction false} StreamLoads(calls: seq<Call>, symbolic: bool)
    ensures LoadAll(Stream(calls, symbolic)) == Some(DenoteCalls(calls, symbolic, false))
  {
    if calls == [] {
      assert DenoteCalls(calls, symbolic, false) == [];
    } else {
      var tail := Stream(calls[1..], symbolic);
      StreamCons(calls, symbolic);
      RecordLoads(calls[0], symbolic, tail);
      StreamLoads(calls[1..], symbolic);
      LoadAllCons(Record(calls[0], symbolic) + tail, DenoteCall(calls[0], symbolic, false), tail,
                  DenoteCalls(calls[1..], symbolic, false));
      DenoteCallsCons(calls, symbolic, false);
    }
  }

  // ----- exactness -----

  predicate CleanOption(v: Option<Value>, symbolic: bool) {
    v.Some? ==> Clean(v.value, symbolic)
  }

  predicate CleanCall(c: Call, symbolic: bool) {
    && Below(c.no, RANGE32)
    && Below(c.flags, RANGE32)
    && CleanOption(c.ret, symbolic)
    && forall i :: 0 <= i < |c.args| ==> CleanOption(c.args[i], symbolic)
  }

  lemma OptionExact(v: Option<Value>, symbolic: bool)
    ensures DenoteOption(v, symbolic, false) == DenoteOption(v, symbolic, true) <==> CleanOption(v, symbolic)
  {
    if v.Some? {
      ExactIffClean(v.value, symbolic);
    }
  }

  lemma ArgsExact(c: Call, symbolic: bool)
    ensures DenoteArgs(c, |c.args|, symbolic, false) == DenoteArgs(c, |c.args|, symbolic, true)
      <==> forall i :: 0 <= i < |c.args| ==> CleanOption(c.args[i], symbolic)
  {
    var a, b := DenoteArgs(c, |c.args|, symbolic, false), DenoteArgs(c, |c.args|, symbolic, true);
    forall i | 0 <= i < |c.args|
      ensures a[i] == b[i] <==> CleanOption(c.args[i], symbolic)
    {
      OptionExact(c.args[i], symbolic);
      assert a[i].items[1] == DenoteOption(c.args[i], symbolic, false);
      assert b[i].items[1] == DenoteOption(c.args[i], symbolic, true);
    }
    if forall i :: 0 <= i < |c.args| ==> CleanOption(c.args[i], symbolic) {
      assert a == b;
    }
  }

  /** A call unpickles to itself if and only if its number, flags, result and arguments carry no
      unsigned number with the top bit set and no wide character outside ASCII. */
  lemma CallExactIffClean(c: Call, symbolic: bool)
    ensures DenoteCall(c, symbolic, false) == DenoteCall(c, symbolic, true) <==> CleanCall(c, symbolic)
  {
    var a, b := DenoteCall(c, symbolic, false).items, DenoteCall(c, symbolic, true).items;
    UIntExact(c.no, RANGE32);
    UIntExact(c.flags, RANGE32);
    OptionExact(c.ret, symbolic);
    ArgsExact(c, symbolic);
    assert a[0] == UIntObj(c.no, RANGE32, false) && b[0] == UIntObj(c.no, RANGE32, true);
    assert a[2].elems == DenoteArgs(c, |c.args|, symbolic, false);
    assert b[2].elems == DenoteArgs(c, |c.args|, symbolic, true);
    assert a[3] == DenoteOption(c.ret, symbolic, false) && b[3] == DenoteOption(c.ret, symbolic, true);
    assert a[4] == UIntObj(c.flags, RANGE32, false) && b[4] == UIntObj(c.flags, RANGE32, true);
  }

  // ----- the visitor -----

  class PickleVisitor {
    const writer: PickleWriter
    const symbolic: bool

    constructor (w: PickleWriter, s: bool)
      ensures writer == w && symbolic == s
    {
      writer, symbolic := w, s;
    }

    /** visit() of every kind of value. */
    method Visit(node: Value)
      modifies writer
      ensures writer.os == old(writer.os) + AsmAll(Code(node, symbolic))
      decreases node, 0
    {
      hide AsmAll, Asm, Select, BitmaskCode, AllCode, MembersCode;
      match node
      case Null =>
        writer.WriteInt32(0);
        AsmOne(Int32Code(0));
      case Bool(b) => writer.WriteBool(b);
      case SInt(i) =>
        writer.WriteInt64(i);
        AsmOne(Int64Code(i));
      case UInt(u) =>
        writer.WriteUInt64(u);
        AsmOne(UInt64Code(u));
      case Float(f) => writer.WriteFloat(f);
      case Double(d) => writer.WriteFloat(d);
      case String(s) => writer.WriteString(s);
      case WString(ws) => writer.WriteWString(ws);
      case Enum(i, names) =>
        if symbolic {
          var it := Lookup(names, i);
          if it.Some? {
            writer.WriteString(it.value);
            return;
          }
        }
        writer.WriteInt64(i);
        AsmOne(Int64Code(i));
      case Bitmask(table, bits) => VisitBitmask(table, bits);
      case Struct(ms) => VisitStruct(ms);
      case Array(vs) => VisitArray(vs);
      case Blob(s) => writer.WriteByteArray(s);
      case Pointer(a) => writer.WritePointer(a);
      case Repr(h, m) =>
        if symbolic {
          Visit(h);
        } else {
          Visit(m);
        }
    }

    method VisitBitmask(table: seq<Flag>, bits: Word)
      modifies writer
      ensures writer.os == old(writer.os) + AsmAll(Code(Bitmask(table, bits), symbolic))
    {
      if symbolic {
        ghost var start := writer.os;
        ghost var all := Select(table, bits);
        var value: Word := bits;
        writer.BeginTuple();
        ghost var picked: seq<Flag> := [];
        ghost var code := [Mark];
        assert code + FlagsCode([]) == code;
        var i := 0;
        while i < |table|
          invariant 0 <= i <= |table|
          invariant writer.os == start + AsmAll(code + FlagsCode(picked))
          invariant all.flags == picked + SelectFrom(table, i, value).flags
          invariant all.rest == SelectFrom(table, i, value).rest
        {
          var it := table[i];
          ghost var picked', value' := ApiBitmask.Turn(table, i, value, picked, all);
          if (it.value != {} && value * it.value == it.value) || (it.value == {} && value == {}) {
            ghost var before := writer.os;
            writer.WriteString(it.name);
            AsmThen(start, before, writer.os, code + FlagsCode(picked), StrCode(it.name));
            FlagsCodeSnoc(picked, it);
            ConcatAssoc(code, FlagsCode(picked), StrCode(it.name));
            value := value - it.value;
          }
          picked := picked';
          if value == {} {
            assert all == Selection(picked, value);
            break;
          }
          i := i + 1;
        }
        assert all == Selection(picked, value);
        code := code + FlagsCode(picked);
        if value != {} {
          ghost var before := writer.os;
          writer.WriteUInt64(Number(value));
          AsmOne(UInt64Code(Number(value)));
          AsmThen(start, before, writer.os, code, [UInt64Code(Number(value))]);
          code := code + [UInt64Code(Number(value))];
        } else {
          assert code + [] == code;
        }
        ghost var before := writer.os;
        writer.EndTuple();
        AsmThen(start, before, writer.os, code, [TupleOp]);
      } else {
        writer.WriteUInt64(Number(bits));
        AsmOne(UInt64Code(Number(bits)));
      }
    }

    static lemma FlagsCodeSnoc(flags: seq<Flag>, f: Flag)
      ensures FlagsCode(flags + [f]) == FlagsCode(flags) + StrCode(f.name)
    {
      assert (flags + [f])[..|flags|] == flags;
    }

    method VisitStruct(ms: seq<Member>)
      modifies writer
      ensures writer.os == old(writer.os) + AsmAll(Code(Struct(ms), symbolic))
      decreases ms, 1
    {
      ghost var start := writer.os;
      writer.BeginDict();
      ghost var head := [EmptyDict, BinPut(1)];
      assert head + MembersCode([], symbolic) == head;
      hide AsmAll, MembersCode, MemberCode, Code;
      for i := 0 to |ms|
        invariant writer.os == start + AsmAll(head + MembersCode(ms[..i], symbolic))
      {
        ghost var before := writer.os;
        VisitMember(ms[i]);
        ghost var item := MemberCode(ms[i], symbolic);
        AsmThen(start, before, writer.os, head + MembersCode(ms[..i], symbolic), item);
        MembersCodeNext(ms, i, symbolic);
        ConcatAssoc(head, MembersCode(ms[..i], symbolic), item);
      }
      assert ms[..|ms|] == ms;
      StructCode(ms, symbolic);
    }

    static lemma MembersCodeNext(ms: seq<Member>, i: nat, symbolic: bool)
      requires i < |ms|
      ensures MembersCode(ms[..i + 1], symbolic) == MembersCode(ms[..i], symbolic) + MemberCode(ms[i], symbolic)
    {
      hide MemberCode;
      assert ms[..i + 1][..i] == ms[..i];
    }

    static lemma StructCode(ms: seq<Member>, symbolic: bool)
      ensures Code(Struct(ms), symbolic) == [EmptyDict, BinPut(1)] + MembersCode(ms, symbolic)
    {
      hide MembersCode;
    }

    method VisitMember(m: Member)
      modifies writer
      ensures writer.os == old(writer.os) + AsmAll(MemberCode(m, symbolic))
      decreases m, 0
    {
      ghost var start := writer.os;
      ghost var item := StrCode(m.name);
      writer.BeginItem(m.name);
      ghost var before := writer.os;
      Visit(m.value);
      AsmThen(start, before, writer.os, item, Code(m.value, symbolic));
      item := item + Code(m.value, symbolic);
      before := writer.os;
      writer.EndItem();
      AsmThen(start, before, writer.os, item, [SetItem]);
    }

    method VisitArray(vs: seq<Value>)
      modifies writer
      ensures writer.os == old(writer.os) + AsmAll(Code(Array(vs), symbolic))
      decreases vs, 1
    {
      ghost var start := writer.os;
      writer.BeginList();
      ghost var head := [EmptyList, BinPut(1), Mark];
      assert head + AllCode([], symbolic) == head;
      hide AsmAll, AllCode, Code;
      for i := 0 to |vs|
        invariant writer.os == start + AsmAll(head + AllCode(vs[..i], symbolic))
      {
        ghost var before := writer.os;
        Visit(vs[i]);
        AsmThen(start, before, writer.os, head + AllCode(vs[..i], symbolic), Code(vs[i], symbolic));
        AllCodeNext(vs, i, symbolic);
        ConcatAssoc(head, AllCode(vs[..i], symbolic), Code(vs[i], symbolic));
      }
      assert vs[..|vs|] == vs;
      ghost var before := writer.os;
      writer.EndList();
      AsmThen(start, before, writer.os, head + AllCode(vs, symbolic), [Appends]);
      ArrayCode(vs, symbolic);
    }

    static lemma AllCodeNext(vs: seq<Value>, i: nat, symbolic: bool)
      requires i < |vs|
      ensures AllCode(vs[..i + 1], symbolic) == AllCode(vs[..i], symbolic) + Code(vs[i], symbolic)
    {
      hide Code;
      assert vs[..i + 1][..i] == vs[..i];
    }

    static lemma ArrayCode(vs: seq<Value>, symbolic: bool)
      ensures Code(Array(vs), symbolic) == [EmptyList, BinPut(1), Mark] + AllCode(vs, symbolic) + [Appends]
    {
      hide AllCode;
    }

    method VisitOption(v: Option<Value>)
      modifies writer
      ensures writer.os == old(writer.os) + AsmAll(OptionCode(v, symbolic))
    {
      if v.Some? {
        Visit(v.value);
      } else {
        writer.WriteNone();
      }
    }

    method VisitArg(c: Call, i: nat)
      requires i < |c.args|
      modifies writer
      ensures writer.os == old(writer.os) + AsmAll(ArgCode(c, i, symbolic))
    {
      ghost var start := writer.os;
      writer.BeginTupleOf(2);
      assert writer.os == start;
      ghost var code := if i < |c.argNames| then StrCode(c.argNames[i]) else [NoneOp];
      if i < |c.argNames| {
        writer.WriteString(c.argNames[i]);
      } else {
        writer.WriteNone();
      }
      ghost var before := writer.os;
      VisitOption(c.args[i]);
      AsmThen(start, before, writer.os, code, OptionCode(c.args[i], symbolic));
      before := writer.os;
      writer.EndTupleOf(2);
      AsmThen(start, before, writer.os, code + OptionCode(c.args[i], symbolic), [Tuple2]);
    }

    method VisitArgs(c: Call)
      modifies writer
      ensures writer.os == old(writer.os) + AsmAll(ListCode(c, symbolic))
    {
      ghost var start := writer.os;
      writer.BeginList();
      ghost var head := [EmptyList, BinPut(1), Mark];
      assert head + ArgsCode(c, 0, symbolic) == head;
      hide AsmAll, ArgCode, ArgsCode, ListCode, StrCode;
      for i := 0 to |c.args|
        invariant writer.os == start + AsmAll(head + ArgsCode(c, i, symbolic))
      {
        ghost var before := writer.os;
        VisitArg(c, i);
        AsmThen(start, before, writer.os, head + ArgsCode(c, i, symbolic), ArgCode(c, i, symbolic));
        ArgsNext(c, i, symbolic);
        ConcatAssoc(head, ArgsCode(c, i, symbolic), ArgCode(c, i, symbolic));
      }
      ghost var before := writer.os;
      writer.EndList();
      AsmThen(start, before, writer.os, head + ArgsCode(c, |c.args|, symbolic), [Appends]);
      ListCodeIs(c, symbolic);
    }

    static lemma ListCodeIs(c: Call, symbolic: bool)
      ensures ListCode(c, symbolic) == [EmptyList, BinPut(1), Mark] + ArgsCode(c, |c.args|, symbolic) + [Appends]
    {
      hide ArgsCode;
    }

    method VisitCall(c: Call)
      modifies writer
      ensures writer.os == old(writer.os) + AsmAll(CallCode(c, symbolic))
    {
      ghost var start := writer.os;
      writer.BeginTuple();
      ghost var inner := writer.os;
      ghost var code := [UInt32Code(c.no)];
      writer.WriteUInt32(c.no);
      AsmOne(UInt32Code(c.no));
      ghost var before := writer.os;
      writer.WriteString(c.name);
      AsmThen(inner, before, writer.os, code, StrCode(c.name));
      code := code + StrCode(c.name);
      before := writer.os;
      VisitArgs(c);
      AsmThen(inner, before, writer.os, code, ListCode(c, symbolic));
      code := code + ListCode(c, symbolic);
      before := writer.os;
      VisitOption(c.ret);
      AsmThen(inner, before, writer.os, code, OptionCode(c.ret, symbolic));
      code := code + OptionCode(c.ret, symbolic);
      before := writer.os;
      writer.WriteUInt32(c.flags);
      AsmOne(UInt32Code(c.flags));
      AsmThen(inner, before, writer.os, code, [UInt32Code(c.flags)]);
      AsmThen(start, inner, writer.os, [Mark], CallBody(c, symbolic));
      before := writer.os;
      writer.EndTuple();
      AsmThen(start, before, writer.os, [Mark] + CallBody(c, symbolic), [TupleOp]);
    }
  }

  function Selected(calls: seq<Call>, contains: Call -> bool): seq<Call> {
    if calls == [] then []
    else
      var last := calls[|calls| - 1];
      Selected(calls[..|calls| - 1], contains) + (if contains(last) then [last] else [])
  }

  /** The positions, in ascending order, of exactly the calls in the call set. */
  ghost predicate ArePlaces(places: seq<nat>, calls: seq<Call>, contains: Call -> bool) {
    && (forall k :: 0 <= k < |places| ==> places[k] < |calls|)
    && (forall j, k :: 0 <= j < k < |places| ==> places[j] < places[k])
    && (forall i :: i in places <==> 0 <= i < |calls| && contains(calls[i]))
  }

  /** The selected calls are the calls at those positions, in order. */
  lemma {:induction false} SelectedIs(calls: seq<Call>, contains: Call -> bool) returns (places: seq<nat>)
    ensures ArePlaces(places, calls, contains)
    ensures |Selected(calls, contains)| == |places|
    ensures forall k :: 0 <= k < |places| ==> Selected(calls, contains)[k] == calls[places[k]]
    decreases |calls|
  {
    if calls == [] {
      places := [];
    } else {
      var init, n := calls[..|calls| - 1], |calls| - 1;
      var before := SelectedIs(init, contains);
      places := before + if contains(calls[n]) then [n] else [];
      forall k | 0 <= k < |before| ensures before[k] < n && calls[before[k]] == init[before[k]] {
        assert before[k] in before;
      }
      forall i: int ensures i in places <==> 0 <= i < |calls| && contains(calls[i]) {
        assert i in before <==> 0 <= i < |init| && contains(init[i]);
      }
    }
  }

  /** What the command writes unpickles, record by record, to the calls in the call set, in order. */
  lemma CommandLoads(calls: seq<Call>, symbolic: bool, contains: Call -> bool)
      returns (places: seq<nat>, objects: seq<Obj>)
    ensures ArePlaces(places, calls, contains)
    ensures LoadAll(Stream(Selected(calls, contains), symbolic)) == Some(objects)
    ensures |objects| == |places|
    ensures forall k :: 0 <= k < |places| ==> objects[k] == DenoteCall(calls[places[k]], symbolic, false)
  {
    places := SelectedIs(calls, contains);
    var selected := Selected(calls, contains);
    StreamLoads(selected, symbolic);
    objects := DenoteCalls(selected, symbolic, false);
    forall k | 0 <= k < |places| ensures objects[k] == DenoteCall(calls[places[k]], symbolic, false) {
      assert selected[k] == calls[places[k]];
    }
  }

  /** The loop of the pickle command over the calls that the parser returns; `contains` is the
      call set given on the command line. */
  method Command(writer: PickleWriter, calls: seq<Call>, symbolic: bool, contains: Call -> bool)
    modifies writer
    ensures writer.os == old(writer.os) + Stream(Selected(calls, contains), symbolic)
  {
    var visitor := new PickleVisitor(writer, symbolic);
    hide AsmAll, CallCode;
    for i := 0 to |calls|
      invariant writer.os == old(writer.os) + Stream(Selected(calls[..i], contains), symbolic)
    {
      assert calls[..i + 1][..i] == calls[..i];
      ghost var done := Selected(calls[..i], contains);
      if contains(calls[i]) {
        ghost var start := writer.os;
        writer.Begin();
        ghost var before := writer.os;
        visitor.VisitCall(calls[i]);
        AsmThen(start, before, writer.os, [Proto(2)], CallCode(calls[i], symbolic));
        before := writer.os;
        writer.End();
        AsmThen(start, before, writer.os, [Proto(2)] + CallCode(calls[i], symbolic), [Stop]);
        assert (done + [calls[i]])[..|done|] == done;
        ConcatAssoc(old(writer.os), Stream(done, symbolic), Record(calls[i], symbolic));
      } else {
        assert done + [] == done;
      }
    }
    assert calls[..|calls|] == calls;
  }
}

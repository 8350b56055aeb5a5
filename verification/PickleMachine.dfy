/** The part of Python's pickle machine (protocol 2 of PEP 307) that a trace pickle exercises,
    plus BINGET, so that what BINPUT stores can be observed.  Where the real machine does
    something that this one does not know, this one stops: a run that succeeds here is a run
    that succeeds there. */
module PickleMachine {
  import opened Options
  import opened Bytes

  /** Objects the machine builds.  A dictionary is keyed by byte strings only, a unicode string
      is read only if its bytes are ASCII, a float is its eight bytes as laid out in memory, and
      REDUCE is kept symbolic: `Applied(f, args)` is whatever the callable f returns. */
  datatype Obj =
    | PyNone
    | PyBool(b: bool)
    | PyInt(i: int)
    | PyFloat(image: bytes)
    | PyStr(s: bytes)
    | PyUnicode(codePoints: seq<int>)
    | PyTuple(items: seq<Obj>)
    | PyList(elems: seq<Obj>)
    | PyDict(entries: map<bytes, Obj>)
    | PyGlobal(modul: bytes, name: bytes)
    | Applied(callable: Obj, args: seq<Obj>)

  /** One instruction with its argument. */
  datatype Instr =
    | Proto(version: byte)
    | Stop
    | Mark
    | NoneOp
    | BinInt1(n1: nat)
    | BinInt2(n2: nat)
    | BinInt(i4: int)
    | Long1(payload: bytes)
    | NewTrue
    | NewFalse
    | ShortBinString(short: bytes)
    | BinString(str: bytes)
    | BinUnicode(text: bytes)
    | BinFloat(bigEndian: bytes)
    | EmptyDict
    | EmptyList
    | TupleOp
    | EmptyTuple
    | Tuple1
    | Tuple2
    | Tuple3
    | Appends
    | SetItem
    | Global(modul: bytes, name: bytes)
    | Reduce
    | BinPut(slot: byte)
    | BinGet(slot: byte)

  const NEWLINE: byte := 10

  predicate IsAscii(s: bytes) { forall k :: 0 <= k < |s| ==> s[k] < 128 }

  /** The arguments that the encoding of pickletools can carry. */
  predicate Encodable(i: Instr) {
    match i
    case BinInt1(n) => n < 0x100
    case BinInt2(n) => n < 0x1_0000
    case BinInt(n) => -0x8000_0000 <= n < 0x8000_0000
    case Long1(p) => |p| < 0x100
    case ShortBinString(s) => |s| < 0x100
    case BinString(s) => |s| < 0x8000_0000
    case BinUnicode(s) => |s| < 0x8000_0000 && IsAscii(s)
    case BinFloat(b) => |b| == 8
    case Global(m, n) => NEWLINE !in m && NEWLINE !in n
    case _ => true
  }

  function Opcode(i: Instr): byte {
    match i
    case Proto(_) => 0x80
    case Stop => '.' as int
    case Mark => '(' as int
    case NoneOp => 'N' as int
    case BinInt1(_) => 'K' as int
    case BinInt2(_) => 'M' as int
    case BinInt(_) => 'J' as int
    case Long1(_) => 0x8a
    case NewTrue => 0x88
    case NewFalse => 0x89
    case ShortBinString(_) => 'U' as int
    case BinString(_) => 'T' as int
    case BinUnicode(_) => 'X' as int
    case BinFloat(_) => 'G' as int
    case EmptyDict => '}' as int
    case EmptyList => ']' as int
    case TupleOp => 't' as int
    case EmptyTuple => ')' as int
    case Tuple1 => 0x85
    case Tuple2 => 0x86
    case Tuple3 => 0x87
    case Appends => 'e' as int
    case SetItem => 's' as int
    case Global(_, _) => 'c' as int
    case Reduce => 'R' as int
    case BinPut(_) => 'q' as int
    case BinGet(_) => 'h' as int
  }

  /** A number in n little-endian bytes, before the bytes of `s`. */
  function Prefixed(n: int, width: nat, s: bytes): bytes {
    LittleEndian(n, width) + s
  }

  function Argument(i: Instr): bytes {
    match i
    case Proto(v) => [v]
    case BinInt1(n) => Prefixed(n, 1, [])
    case BinInt2(n) => Prefixed(n, 2, [])
    case BinInt(n) => Prefixed(n, 4, [])
    case Long1(p) => Prefixed(|p|, 1, p)
    case ShortBinString(s) => Prefixed(|s|, 1, s)
    case BinString(s) => Prefixed(|s|, 4, s)
    case BinUnicode(s) => Prefixed(|s|, 4, s)
    case BinFloat(b) => b
    case Global(m, n) => m + [NEWLINE] + n + [NEWLINE]
    case BinPut(k) => [k]
    case BinGet(k) => [k]
    case _ => []
  }

  /** The bytes of an instruction: opcode, then argument. */
  function Asm(i: Instr): bytes {
    [Opcode(i)] + Argument(i)
  }

  function AsmAll(code: seq<Instr>): bytes {
    if code == [] then [] else Asm(code[0]) + AsmAll(code[1..])
  }

  lemma {:induction false} AsmAllConcat(a: seq<Instr>, b: seq<Instr>)
    ensures AsmAll(a + b) == AsmAll(a) + AsmAll(b)
  {
    if a == [] {
      assert a + b == b;
      assert AsmAll(a) + AsmAll(b) == AsmAll(b);
    } else {
      var head, tail := Asm(a[0]), AsmAll(a[1..]);
      assert AsmAll(a + b) == head + AsmAll(a[1..] + b) by {
        assert (a + b)[1..] == a[1..] + b;
      }
      AsmAllConcat(a[1..], b);
      ConcatAssoc(head, tail, AsmAll(b));
    }
  }

  // ----- fetching an instruction from bytes -----

  function Take(s: bytes, n: nat): Option<(bytes, bytes)> {
    if n <= |s| then Some((s[..n], s[n..])) else None
  }

  /** The text up to the first newline, and what follows that newline. */
  function TakeLine(s: bytes): (r: Option<(bytes, bytes)>)
    ensures r.Some? ==> |r.value.1| < |s|
  {
    if s == [] then None
    else if s[0] == NEWLINE then Some(([], s[1..]))
    else
      match TakeLine(s[1..])
      case None => None
      case Some((line, rest)) => Some(([s[0]] + line, rest))
  }

  lemma {:induction false} TakeLineConcat(line: bytes, rest: bytes)
    requires NEWLINE !in line
    ensures TakeLine(line + [NEWLINE] + rest) == Some((line, rest))
  {
    var s := line + [NEWLINE] + rest;
    if line == [] {
      assert s[1..] == rest;
    } else {
      TakeLineConcat(line[1..], rest);
      assert s[1..] == line[1..] + [NEWLINE] + rest;
      assert [line[0]] + line[1..] == line;
    }
  }

  /** A string preceded by a signed length of `width` bytes: a negative length is an error. */
  function TakeSized(s: bytes, width: nat, signed: bool): Option<(bytes, bytes)> {
    if |s| < width then None
    else
      var n := if signed then Signed(s[..width]) else Unsigned(s[..width]);
      if n < 0 then None else Take(s[width..], n)
  }

  /** The instruction with opcode op whose argument starts `tail`, and what follows it. */
  function DecodeArgument(op: byte, tail: bytes): (r: Option<(Instr, bytes)>)
    ensures r.Some? ==> |r.value.1| <= |tail|
  {
    if op == 46 then Some((Stop, tail))
    else if op == 40 then Some((Mark, tail))
    else if op == 78 then Some((NoneOp, tail))
    else if op == 0x88 then Some((NewTrue, tail))
    else if op == 0x89 then Some((NewFalse, tail))
    else if op == 125 then Some((EmptyDict, tail))
    else if op == 93 then Some((EmptyList, tail))
    else if op == 116 then Some((TupleOp, tail))
    else if op == 41 then Some((EmptyTuple, tail))
    else if op == 0x85 then Some((Tuple1, tail))
    else if op == 0x86 then Some((Tuple2, tail))
    else if op == 0x87 then Some((Tuple3, tail))
    else if op == 101 then Some((Appends, tail))
    else if op == 115 then Some((SetItem, tail))
    else if op == 82 then Some((Reduce, tail))
    else if op == 0x80 then
      match Take(tail, 1) case None => None case Some((a, rest)) => Some((Proto(a[0]), rest))
    else if op == 113 then
      match Take(tail, 1) case None => None case Some((a, rest)) => Some((BinPut(a[0]), rest))
    else if op == 104 then
      match Take(tail, 1) case None => None case Some((a, rest)) => Some((BinGet(a[0]), rest))
    else if op == 75 then
      match Take(tail, 1) case None => None case Some((a, rest)) => Some((BinInt1(Unsigned(a)), rest))
    else if op == 77 then
      match Take(tail, 2) case None => None case Some((a, rest)) => Some((BinInt2(Unsigned(a)), rest))
    else if op == 74 then
      match Take(tail, 4) case None => None case Some((a, rest)) => Some((BinInt(Signed(a)), rest))
    else if op == 71 then
      match Take(tail, 8) case None => None case Some((a, rest)) => Some((BinFloat(a), rest))
    else if op == 0x8a then
      match TakeSized(tail, 1, false) case None => None case Some((s, rest)) => Some((Long1(s), rest))
    else if op == 85 then
      match TakeSized(tail, 1, false) case None => None case Some((s, rest)) => Some((ShortBinString(s), rest))
    else if op == 84 then
      match TakeSized(tail, 4, true) case None => None case Some((s, rest)) => Some((BinString(s), rest))
    else if op == 88 then
      match TakeSized(tail, 4, true) case None => None case Some((s, rest)) =>
        if IsAscii(s) then Some((BinUnicode(s), rest)) else None
    else if op == 99 then
      match TakeLine(tail) case None => None case Some((m, rest)) =>
        match TakeLine(rest) case None => None case Some((n, rest')) => Some((Global(m, n), rest'))
    else None
  }

  /** The instruction at the head of the code, and the code after it. */
  function Decode(code: bytes): (r: Option<(Instr, bytes)>)
    ensures r.Some? ==> |r.value.1| < |code|
  {
    if code == [] then None else DecodeArgument(code[0], code[1..])
  }

  lemma TakeConcat(s: bytes, rest: bytes)
    ensures Take(s + rest, |s|) == Some((s, rest))
  {
    assert (s + rest)[..|s|] == s && (s + rest)[|s|..] == rest;
  }

  lemma TakeUnsigned(n: nat, k: nat, rest: bytes)
    requires n < Pow256(k)
    ensures Take(Prefixed(n, k, []) + rest, k) == Some((LittleEndian(n, k), rest))
    ensures Unsigned(LittleEndian(n, k)) == n
  {
    assert Prefixed(n, k, []) == LittleEndian(n, k);
    TakeConcat(LittleEndian(n, k), rest);
    UnsignedRoundTrip(n, k);
  }

  lemma TakeSigned(n: int, k: nat, rest: bytes)
    requires Fits(n, k)
    ensures Take(Prefixed(n, k, []) + rest, k) == Some((LittleEndian(n, k), rest))
    ensures Signed(LittleEndian(n, k)) == n
  {
    assert Prefixed(n, k, []) == LittleEndian(n, k);
    TakeConcat(LittleEndian(n, k), rest);
    SignedRoundTrip(n, k);
  }

  lemma TakeSizedIs(t: bytes, k: nat, signed: bool, n: nat)
    requires k <= |t| && n == if signed then Signed(t[..k]) else Unsigned(t[..k])
    ensures TakeSized(t, k, signed) == Take(t[k..], n)
  {
    hide Signed, Unsigned, Take;
  }

  lemma SplitAt(a: bytes, b: bytes, c: bytes)
    ensures (a + b + c)[..|a|] == a && (a + b + c)[|a|..] == b + c
  {
  }

  lemma LengthRead(n: nat, k: nat, signed: bool)
    requires if signed then Fits(n, k) else n < Pow256(k)
    ensures n == if signed then Signed(LittleEndian(n, k)) else Unsigned(LittleEndian(n, k))
  {
    if signed {
      SignedRoundTrip(n, k);
    } else {
      UnsignedRoundTrip(n, k);
    }
  }

  lemma TakeSizedConcat(s: bytes, k: nat, signed: bool, rest: bytes)
    requires if signed then Fits(|s|, k) else |s| < Pow256(k)
    ensures TakeSized(Prefixed(|s|, k, s) + rest, k, signed) == Some((s, rest))
  {
    var len := LittleEndian(|s|, k);
    LengthRead(|s|, k, signed);
    assert Prefixed(|s|, k, s) == len + s;
    hide *;
    SplitAt(len, s, rest);
    TakeSizedIs(len + s + rest, k, signed, |s|);
    TakeConcat(s, rest);
  }

  lemma DecodeNumber(i: Instr, rest: bytes)
    requires Encodable(i) && (i.BinInt1? || i.BinInt2? || i.BinInt?)
    ensures DecodeArgument(Opcode(i), Argument(i) + rest) == Some((i, rest))
  {
    Pow256Values();
    match i
    case BinInt1(n) => TakeUnsigned(n, 1, rest);
    case BinInt2(n) => TakeUnsigned(n, 2, rest);
    case BinInt(n) => TakeSigned(n, 4, rest);
  }

  lemma DecodeSized(i: Instr, rest: bytes)
    requires Encodable(i) && (i.Long1? || i.ShortBinString? || i.BinString? || i.BinUnicode?)
    ensures DecodeArgument(Opcode(i), Argument(i) + rest) == Some((i, rest))
  {
    Pow256Values();
    hide TakeSized, Prefixed, Pow256;
    match i
    case Long1(s) => TakeSizedConcat(s, 1, false, rest);
    case ShortBinString(s) => TakeSizedConcat(s, 1, false, rest);
    case BinString(s) => TakeSizedConcat(s, 4, true, rest);
    case BinUnicode(s) => TakeSizedConcat(s, 4, true, rest);
  }

  lemma DecodeRaw(i: Instr, rest: bytes)
    requires Encodable(i) && (i.Proto? || i.BinPut? || i.BinGet? || i.BinFloat? || i.Global?)
    ensures DecodeArgument(Opcode(i), Argument(i) + rest) == Some((i, rest))
  {
    match i
    case BinFloat(b) => TakeConcat(b, rest);
    case Global(m, n) =>
      assert Argument(i) + rest == m + [NEWLINE] + (n + [NEWLINE] + rest);
      TakeLineConcat(m, n + [NEWLINE] + rest);
      TakeLineConcat(n, rest);
    case Proto(v) => TakeConcat([v], rest);
    case BinPut(k) => TakeConcat([k], rest);
    case BinGet(k) => TakeConcat([k], rest);
  }

  lemma DecodePlain(i: Instr, rest: bytes)
    requires Argument(i) == []
    requires !(i.Long1? || i.ShortBinString? || i.BinString? || i.BinUnicode?)
    requires !(i.BinInt1? || i.BinInt2? || i.BinInt?)
    requires !(i.Proto? || i.BinPut? || i.BinGet? || i.BinFloat? || i.Global?)
    ensures DecodeArgument(Opcode(i), Argument(i) + rest) == Some((i, rest))
  {
    assert Argument(i) + rest == rest;
  }

  /** Whatever follows, an encoded instruction is read back and exactly its bytes are consumed. */
  lemma DecodeAsm(i: Instr, rest: bytes)
    requires Encodable(i)
    ensures Decode(Asm(i) + rest) == Some((i, rest))
  {
    assert (Asm(i) + rest)[1..] == Argument(i) + rest;
    if i.BinInt1? || i.BinInt2? || i.BinInt? {
      DecodeNumber(i, rest);
    } else if i.Long1? || i.ShortBinString? || i.BinString? || i.BinUnicode? {
      DecodeSized(i, rest);
    } else if i.Proto? || i.BinPut? || i.BinGet? || i.BinFloat? || i.Global? {
      DecodeRaw(i, rest);
    } else {
      DecodePlain(i, rest);
    }
  }

  // ----- executing an instruction -----

  /** The object stack of the innermost open MARK, the stacks that the open MARKs put aside,
      and the memo. */
  datatype Machine = Machine(stack: seq<Obj>, marks: seq<seq<Obj>>, memo: map<byte, Obj>) {

    function Push(o: Obj): Machine { this.(stack := stack + [o]) }

    /** Replaces the n topmost objects by o. */
    function Replace(n: nat, o: Obj): Machine
      requires n <= |stack|
    {
      this.(stack := stack[..|stack| - n] + [o])
    }
  }

  const EmptyMachine := Machine([], [], map[])

  function Last<T>(s: seq<T>): T
    requires s != []
  {
    s[|s| - 1]
  }

  function Front<T>(s: seq<T>): seq<T>
    requires s != []
  {
    s[..|s| - 1]
  }

  /** What every instruction but STOP does; None where the machine raises an error. */
  function Do(i: Instr, m: Machine): Option<Machine> {
    var n := |m.stack|;
    match i
    case Proto(v) => if v <= 2 then Some(m) else None
    case Stop => None
    case Mark => Some(Machine([], m.marks + [m.stack], m.memo))
    case NoneOp => Some(m.Push(PyNone))
    case BinInt1(k) => Some(m.Push(PyInt(k)))
    case BinInt2(k) => Some(m.Push(PyInt(k)))
    case BinInt(k) => Some(m.Push(PyInt(k)))
    case Long1(p) => Some(m.Push(PyInt(Signed(p))))
    case NewTrue => Some(m.Push(PyBool(true)))
    case NewFalse => Some(m.Push(PyBool(false)))
    case ShortBinString(s) => Some(m.Push(PyStr(s)))
    case BinString(s) => Some(m.Push(PyStr(s)))
    case BinUnicode(s) => Some(m.Push(PyUnicode(s)))
    case BinFloat(b) => Some(m.Push(PyFloat(Reverse(b))))
    case EmptyDict => Some(m.Push(PyDict(map[])))
    case EmptyList => Some(m.Push(PyList([])))
    case EmptyTuple => Some(m.Push(PyTuple([])))
    case Tuple1 => if n < 1 then None else Some(m.Replace(1, PyTuple(m.stack[n - 1..])))
    case Tuple2 => if n < 2 then None else Some(m.Replace(2, PyTuple(m.stack[n - 2..])))
    case Tuple3 => if n < 3 then None else Some(m.Replace(3, PyTuple(m.stack[n - 3..])))
    case TupleOp =>
      if m.marks == [] then None
      else Some(Machine(Last(m.marks) + [PyTuple(m.stack)], Front(m.marks), m.memo))
    case Appends =>
      if m.marks == [] || Last(m.marks) == [] || !Last(Last(m.marks)).PyList? then None
      else
        var below := Last(m.marks);
        Some(Machine(Front(below) + [PyList(Last(below).elems + m.stack)], Front(m.marks), m.memo))
    case SetItem =>
      if n < 3 || !m.stack[n - 2].PyStr? || !m.stack[n - 3].PyDict? then None
      else Some(m.Replace(3, PyDict(m.stack[n - 3].entries[m.stack[n - 2].s := m.stack[n - 1]])))
    case Global(mod, name) => Some(m.Push(PyGlobal(mod, name)))
    case Reduce =>
      if n < 2 || !m.stack[n - 1].PyTuple? || !m.stack[n - 2].PyGlobal? then None
      else Some(m.Replace(2, Applied(m.stack[n - 2], m.stack[n - 1].items)))
    case BinPut(k) => if n < 1 then None else Some(m.(memo := m.memo[k := Last(m.stack)]))
    case BinGet(k) => if k !in m.memo then None else Some(m.Push(m.memo[k]))
  }

  /** Runs a list of instructions. */
  function Run(code: seq<Instr>, m: Machine): Option<Machine> {
    if code == [] then Some(m)
    else match Do(code[0], m) case None => None case Some(m') => Run(code[1..], m')
  }

  lemma {:induction false} RunConcat(a: seq<Instr>, b: seq<Instr>, m: Machine)
    requires Run(a, m).Some?
    ensures Run(a + b, m) == Run(b, Run(a, m).value)
  {
    if a == [] {
      assert a + b == b;
    } else {
      RunConcat(a[1..], b, Do(a[0], m).value);
      assert (a + b)[1..] == a[1..] + b;
    }
  }

  /** n fetch-and-execute steps over bytes: the bytes left and the machine reached. */
  function Steps(code: bytes, m: Machine, n: nat): Option<(bytes, Machine)>
    decreases n
  {
    if n == 0 then Some((code, m))
    else
      match Decode(code)
      case None => None
      case Some((i, rest)) =>
        match Do(i, m)
        case None => None
        case Some(m') => Steps(rest, m', n - 1)
  }

  /** Running the assembled bytes, with any bytes after them, is running the instructions, and
      leaves exactly those other bytes. */
  lemma {:induction false} StepsAsm(code: seq<Instr>, rest: bytes, m: Machine)
    requires forall k :: 0 <= k < |code| ==> Encodable(code[k])
    requires Run(code, m).Some?
    ensures Steps(AsmAll(code) + rest, m, |code|) == Some((rest, Run(code, m).value))
  {
    if code == [] {
      assert AsmAll(code) + rest == rest;
    } else {
      assert AsmAll(code) + rest == Asm(code[0]) + (AsmAll(code[1..]) + rest);
      DecodeAsm(code[0], AsmAll(code[1..]) + rest);
      StepsAsm(code[1..], rest, Do(code[0], m).value);
    }
  }

  /** Runs until STOP: the object STOP returns and the bytes after it. */
  function Load(code: bytes, m: Machine): (r: Option<(Obj, bytes)>)
    ensures r.Some? ==> |r.value.1| < |code|
    decreases |code|
  {
    match Decode(code)
    case None => None
    case Some((i, rest)) =>
      if i.Stop? then
        (if m.stack == [] then None else Some((Last(m.stack), rest)))
      else
        match Do(i, m)
        case None => None
        case Some(m') => Load(rest, m')
  }

  lemma {:induction false} LoadSteps(code: bytes, m: Machine, n: nat)
    requires Steps(code, m, n).Some?
    ensures var (rest, m') := Steps(code, m, n).value; Load(code, m) == Load(rest, m')
    decreases n
  {
    if n > 0 {
      var (i, rest) := Decode(code).value;
      LoadSteps(rest, Do(i, m).value, n - 1);
    }
  }

  /** Unpickles record after record, each with a fresh machine, until the stream ends. */
  function LoadAll(code: bytes): Option<seq<Obj>>
    decreases |code|
  {
    if code == [] then Some([])
    else
      match Load(code, EmptyMachine)
      case None => None
      case Some((o, rest)) =>
        match LoadAll(rest) case None => None case Some(os) => Some([o] + os)
  }
}

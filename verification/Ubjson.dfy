/** The UBJSON reader of the GUI (gui/qubjson.cpp) and the encodings of the Universal Binary JSON
    specification, Draft 12, that it is meant to read. */
module Ubjson {
  import opened Bytes

  // ----- markers (lib/ubjson/ubjson.hpp) -----

  type Marker = m: int | -1 <= m < 256

  const END_OF_FILE: Marker := -1
  const NULL: Marker := 90
  const NOOP: Marker := 78
  const TRUE: Marker := 84
  const FALSE: Marker := 70
  const INT8: Marker := 105
  const UINT8: Marker := 85
  const INT16: Marker := 73
  const INT32: Marker := 108
  const INT64: Marker := 76
  const FLOAT32: Marker := 100
  const FLOAT64: Marker := 68
  const HIGH_PRECISION: Marker := 72
  const CHAR: Marker := 67
  const STRING: Marker := 83
  const ARRAY_BEGIN: Marker := 91
  const ARRAY_END: Marker := 93
  const OBJECT_BEGIN: Marker := 123
  const OBJECT_END: Marker := 125
  const TYPE: Marker := 36
  const COUNT: Marker := 35

  /** The markers are characters. */
  lemma MarkersAre()
    ensures NULL == 'Z' as int && NOOP == 'N' as int && TRUE == 'T' as int && FALSE == 'F' as int
    ensures INT8 == 'i' as int && UINT8 == 'U' as int && INT16 == 'I' as int && INT32 == 'l' as int
    ensures INT64 == 'L' as int && FLOAT32 == 'd' as int && FLOAT64 == 'D' as int && HIGH_PRECISION == 'H' as int
    ensures CHAR == 'C' as int && STRING == 'S' as int && ARRAY_BEGIN == '[' as int && ARRAY_END == ']' as int
    ensures OBJECT_BEGIN == '{' as int && OBJECT_END == '}' as int && TYPE == '$' as int && COUNT == '#' as int
  {
  }

  const INT_MAX := 0x7fff_ffff

  /** What the reader returns.  Strings are kept as their bytes, floating-point numbers as the
      bytes of the stream. */
  datatype Variant =
    | Invalid
    | VBool(b: bool)
    | VInt(i: int)
    | VFloat(image: bytes)
    | VString(s: bytes)
    | VBytes(data: bytes)
    | VList(items: seq<Variant>)
    | VMap(entries: map<bytes, Variant>)

  /** A value and the bytes after it.  Failed: an assertion of the reader fails, or the stream
      ends inside a number or a string. */
  datatype Parse<+T> = Parsed(value: T, rest: bytes) | Failed

  // ----- the reader as functions of the bytes ahead -----

  function ReadMarker(s: bytes): (r: (Marker, bytes))
    ensures |r.1| <= |s| && (r.0 != END_OF_FILE ==> |r.1| < |s|)
  {
    if s == [] then (END_OF_FILE, s) else (s[0], s[1..])
  }

  function Raw(n: nat, s: bytes): (r: Parse<bytes>)
    ensures r.Parsed? ==> |r.rest| <= |s|
  {
    if n <= |s| then Parsed(s[..n], s[n..]) else Failed
  }

  /** A big-endian number of n bytes. */
  function Number(n: nat, signed: bool, s: bytes): (r: Parse<int>)
    ensures r.Parsed? ==> |r.rest| <= |s|
  {
    match Raw(n, s)
    case Failed => Failed
    case Parsed(b, rest) => Parsed(if signed then Signed(Reverse(b)) else Unsigned(Reverse(b)), rest)
  }

  /** A size must not be negative and must fit an int; any other marker gives zero. */
  function SizeOf(m: Marker, s: bytes): (r: Parse<nat>)
    ensures r.Parsed? ==> |r.rest| <= |s|
  {
    var n :=
      if m == INT8 then Number(1, true, s)
      else if m == UINT8 then Number(1, false, s)
      else if m == INT16 then Number(2, true, s)
      else if m == INT32 then Number(4, true, s)
      else if m == INT64 then Number(8, true, s)
      else Parsed(0, s);
    if n.Parsed? && 0 <= n.value <= INT_MAX then Parsed(n.value, n.rest) else Failed
  }

  function ReadSize(s: bytes): (r: Parse<nat>)
    ensures r.Parsed? ==> |r.rest| <= |s|
  {
    var (m, s') := ReadMarker(s);
    SizeOf(m, s')
  }

  function SizedRaw(m: Marker, s: bytes): (r: Parse<bytes>)
    ensures r.Parsed? ==> |r.rest| <= |s|
  {
    match SizeOf(m, s)
    case Failed => Failed
    case Parsed(n, rest) => Raw(n, rest)
  }

  function MapNumber(p: Parse<int>): (r: Parse<Variant>)
    ensures r.Parsed? ==> p.Parsed? && r.rest == p.rest
  {
    match p case Failed => Failed case Parsed(i, rest) => Parsed(VInt(i), rest)
  }

  /** The values without parts. */
  function Scalar(m: Marker, s: bytes): (r: Parse<Variant>)
    ensures r.Parsed? ==> |r.rest| <= |s|
  {
    if m == NULL || m == NOOP || m == HIGH_PRECISION || m == END_OF_FILE then Parsed(Invalid, s)
    else if m == TRUE then Parsed(VBool(true), s)
    else if m == FALSE then Parsed(VBool(false), s)
    else if m == INT8 then MapNumber(Number(1, true, s))
    else if m == UINT8 then MapNumber(Number(1, false, s))
    else if m == INT16 then MapNumber(Number(2, true, s))
    else if m == INT32 then MapNumber(Number(4, true, s))
    else if m == INT64 then MapNumber(Number(8, true, s))
    else if m == FLOAT32 then
      match Raw(4, s) case Failed => Failed case Parsed(b, rest) => Parsed(VFloat(b), rest)
    else if m == FLOAT64 then
      match Raw(8, s) case Failed => Failed case Parsed(b, rest) => Parsed(VFloat(b), rest)
    else if m == CHAR then
      match Raw(1, s) case Failed => Failed
      case Parsed(b, rest) => if b[0] < 128 then Parsed(VString(b), rest) else Failed
    else if m == STRING then
      var (t, s') := ReadMarker(s);
      match SizedRaw(t, s') case Failed => Failed case Parsed(b, rest) => Parsed(VString(b), rest)
    else Failed
  }

  function ReadVariant(m: Marker, s: bytes): (r: Parse<Variant>)
    ensures r.Parsed? ==> |r.rest| <= |s|
    decreases |s|, 1, 0, 0
  {
    if m == ARRAY_BEGIN then ReadArray(s)
    else if m == OBJECT_BEGIN then
      var (t, s') := ReadMarker(s);
      if t == END_OF_FILE then Parsed(VMap(map[]), s')
      else match ReadMembers(t, map[], s') case Failed => Failed case Parsed(o, rest) => Parsed(VMap(o), rest)
    else Scalar(m, s)
  }

  function ReadArray(s: bytes): (r: Parse<Variant>)
    ensures r.Parsed? ==> |r.rest| <= |s|
    decreases |s|, 0, 0, 0
  {
    var (m, s') := ReadMarker(s);
    if m == TYPE then
      var (t, s'') := ReadMarker(s');
      var (c, s''') := ReadMarker(s'');
      if t != UINT8 || c != COUNT then Failed
      else
        match ReadSize(s''') case Failed => Failed
        case Parsed(n, rest) =>
          match Raw(n, rest) case Failed => Failed case Parsed(b, rest') => Parsed(VBytes(b), rest')
    else if m == COUNT then
      match ReadSize(s') case Failed => Failed
      case Parsed(n, rest) =>
        match ReadCounted(n, [], rest) case Failed => Failed case Parsed(vs, rest') => Parsed(VList(vs), rest')
    else if m == END_OF_FILE then Parsed(VList([]), s')
    else
      match ReadItems(m, [], s') case Failed => Failed case Parsed(vs, rest) => Parsed(VList(vs), rest)
  }

  /** n more elements, after those in `sofar`. */
  function ReadCounted(n: nat, sofar: seq<Variant>, s: bytes): (r: Parse<seq<Variant>>)
    ensures r.Parsed? ==> |r.rest| <= |s|
    decreases |s|, 2, n, 0
  {
    if n == 0 then Parsed(sofar, s)
    else
      var (m, s') := ReadMarker(s);
      match ReadVariant(m, s') case Failed => Failed
      case Parsed(v, rest) => ReadCounted(n - 1, sofar + [v], rest)
  }

  /** Elements until the end marker or the end of the stream; `m` has been read already. */
  function ReadItems(m: Marker, sofar: seq<Variant>, s: bytes): (r: Parse<seq<Variant>>)
    ensures r.Parsed? ==> |r.rest| <= |s|
    decreases |s|, 2, if m == END_OF_FILE then 0 else 1, 0
  {
    if m == ARRAY_END || m == END_OF_FILE then Parsed(sofar, s)
    else
      match ReadVariant(m, s) case Failed => Failed
      case Parsed(v, rest) =>
        var (m', s') := ReadMarker(rest);
        ReadItems(m', sofar + [v], s')
  }

  /** Members until the end marker or the end of the stream; a repeated name replaces the value. */
  function ReadMembers(m: Marker, object_: map<bytes, Variant>, s: bytes): (r: Parse<map<bytes, Variant>>)
    ensures r.Parsed? ==> |r.rest| <= |s|
    decreases |s|, 2, if m == END_OF_FILE then 0 else 1, 0
  {
    if m == OBJECT_END || m == END_OF_FILE then Parsed(object_, s)
    else
      match SizedRaw(m, s) case Failed => Failed
      case Parsed(name, rest) =>
        var (t, s1) := ReadMarker(rest);
        match ReadVariant(t, s1) case Failed => Failed
        case Parsed(v, rest') =>
          var (m', s2) := ReadMarker(rest');
          ReadMembers(m', object_[name := v], s2)
  }

  // ----- the encodings of the specification -----

  /** How a size is written. */
  datatype SizeForm = Size8 | SizeU8 | Size16 | Size32 | Size64 {
    function Mark(): Marker {
      match this case Size8 => INT8 case SizeU8 => UINT8 case Size16 => INT16 case Size32 => INT32 case Size64 => INT64
    }
    function Width(): nat {
      match this case Size8 => 1 case SizeU8 => 1 case Size16 => 2 case Size32 => 4 case Size64 => 8
    }
    predicate Carries(n: nat) {
      match this
      case Size8 => n < 0x80
      case SizeU8 => n < 0x100
      case Size16 => n < 0x8000
      case _ => n <= INT_MAX
    }
  }

  datatype IntForm = I8 | U8 | I16 | I32 | I64 {
    function Mark(): Marker {
      match this case I8 => INT8 case U8 => UINT8 case I16 => INT16 case I32 => INT32 case I64 => INT64
    }
    function Width(): nat {
      match this case I8 => 1 case U8 => 1 case I16 => 2 case I32 => 4 case I64 => 8
    }
    predicate Carries(i: int) {
      match this
      case I8 => -0x80 <= i < 0x80
      case U8 => 0 <= i < 0x100
      case I16 => -0x8000 <= i < 0x8000
      case I32 => -0x8000_0000 <= i < 0x8000_0000
      case I64 => -0x8000_0000_0000_0000 <= i < 0x8000_0000_0000_0000
    }
  }

  datatype Field = Field(form: SizeForm, name: bytes, value: Tree)

  /** A value together with the choices that an encoder has for it. */
  datatype Tree =
    | TNull
    | TNoop
    | TTrue
    | TFalse
    | TInt(form: IntForm, i: int)
    | TFloat32(image: bytes)
    | TFloat64(image: bytes)
    | TChar(c: byte)
    | TString(size: SizeForm, s: bytes)
    | TArray(items: seq<Tree>)
    | TCounted(size: SizeForm, items: seq<Tree>)
    | TBytes(size: SizeForm, data: bytes)
    | TObject(fields: seq<Field>)

  predicate Encodable(t: Tree)
    decreases t
  {
    match t
    case TInt(form, i) => form.Carries(i)
    case TFloat32(b) => |b| == 4
    case TFloat64(b) => |b| == 8
    case TChar(c) => c < 128
    case TString(size, s) => size.Carries(|s|)
    case TArray(items) => AllEncodable(items)
    case TCounted(size, items) => size.Carries(|items|) && AllEncodable(items)
    case TBytes(size, b) => size.Carries(|b|)
    case TObject(fields) => FieldsEncodable(fields)
    case _ => true
  }

  predicate AllEncodable(ts: seq<Tree>)
    decreases ts
  {
    ts == [] || (Encodable(ts[0]) && AllEncodable(ts[1..]))
  }

  predicate FieldsEncodable(fs: seq<Field>)
    decreases fs
  {
    fs == [] || (fs[0].form.Carries(|fs[0].name|) && Encodable(fs[0].value) && FieldsEncodable(fs[1..]))
  }

  function BigEndian(n: int, width: nat): (s: bytes)
    ensures |s| == width
  {
    Reverse(LittleEndian(n, width))
  }

  function MarkOf(t: Tree): (m: Marker)
    ensures 0 <= m
    ensures m !in {ARRAY_END, OBJECT_END, TYPE, COUNT}
  {
    match t
    case TNull => NULL
    case TNoop => NOOP
    case TTrue => TRUE
    case TFalse => FALSE
    case TInt(form, _) => form.Mark()
    case TFloat32(_) => FLOAT32
    case TFloat64(_) => FLOAT64
    case TChar(_) => CHAR
    case TString(_, _) => STRING
    case TArray(_) => ARRAY_BEGIN
    case TCounted(_, _) => ARRAY_BEGIN
    case TBytes(_, _) => ARRAY_BEGIN
    case TObject(_) => OBJECT_BEGIN
  }

  /** What follows the size marker of a sized string. */
  function SizedBody(size: SizeForm, s: bytes): bytes { BigEndian(|s|, size.Width()) + s }

  /** What follows the marker. */
  function Body(t: Tree): bytes
    decreases t, 0
  {
    match t
    case TInt(form, i) => BigEndian(i, form.Width())
    case TFloat32(b) => b
    case TFloat64(b) => b
    case TChar(c) => [c]
    case TString(size, s) => [size.Mark()] + SizedBody(size, s)
    case TArray(items) => EncodeAll(items) + [ARRAY_END]
    case TCounted(size, items) => [COUNT, size.Mark()] + BigEndian(|items|, size.Width()) + EncodeAll(items)
    case TBytes(size, b) => [TYPE, UINT8, COUNT, size.Mark()] + SizedBody(size, b)
    case TObject(fields) => EncodeFields(fields) + [OBJECT_END]
    case _ => []
  }

  function Encode(t: Tree): bytes
    decreases t, 1
  {
    [MarkOf(t)] + Body(t)
  }

  function EncodeAll(ts: seq<Tree>): bytes
    decreases ts
  {
    if ts == [] then [] else Encode(ts[0]) + EncodeAll(ts[1..])
  }

  function EncodeFields(fs: seq<Field>): bytes
    decreases fs
  {
    if fs == [] then []
    else [fs[0].form.Mark()] + SizedBody(fs[0].form, fs[0].name) + Encode(fs[0].value) + EncodeFields(fs[1..])
  }

  // ----- the value that a tree stands for -----

  function Denote(t: Tree): Variant
    decreases t
  {
    match t
    case TNull => Invalid
    case TNoop => Invalid
    case TTrue => VBool(true)
    case TFalse => VBool(false)
    case TInt(_, i) => VInt(i)
    case TFloat32(b) => VFloat(b)
    case TFloat64(b) => VFloat(b)
    case TChar(c) => VString([c])
    case TString(_, s) => VString(s)
    case TArray(items) => VList(DenoteAll(items))
    case TCounted(_, items) => VList(DenoteAll(items))
    case TBytes(_, b) => VBytes(b)
    case TObject(fields) => VMap(PutAll(map[], fields))
  }

  function DenoteAll(ts: seq<Tree>): (vs: seq<Variant>)
    ensures |vs| == |ts|
    decreases ts
  {
    if ts == [] then [] else [Denote(ts[0])] + DenoteAll(ts[1..])
  }

  function PutAll(m: map<bytes, Variant>, fs: seq<Field>): map<bytes, Variant>
    decreases fs
  {
    if fs == [] then m else PutAll(m[fs[0].name := Denote(fs[0].value)], fs[1..])
  }

  // ----- decoding an encoding -----

  lemma NumberRoundTrip(n: int, k: nat, signed: bool, rest: bytes)
    requires if signed then Fits(n, k) else 0 <= n < Pow256(k)
    ensures Number(k, signed, BigEndian(n, k) + rest) == Parsed(n, rest)
  {
    var b := BigEndian(n, k);
    assert (b + rest)[..k] == b && (b + rest)[k..] == rest;
    ReverseTwice(LittleEndian(n, k));
    if signed {
      SignedRoundTrip(n, k);
    } else {
      UnsignedRoundTrip(n, k);
    }
  }

  lemma RawRoundTrip(s: bytes, rest: bytes)
    ensures Raw(|s|, s + rest) == Parsed(s, rest)
  {
    assert (s + rest)[..|s|] == s && (s + rest)[|s|..] == rest;
  }

  lemma SizeRoundTrip(form: SizeForm, n: nat, rest: bytes)
    requires form.Carries(n)
    ensures SizeOf(form.Mark(), BigEndian(n, form.Width()) + rest) == Parsed(n, rest)
  {
    Pow256Values();
    NumberRoundTrip(n, form.Width(), form != SizeU8, rest);
  }

  lemma SizedRoundTrip(form: SizeForm, s: bytes, rest: bytes)
    requires form.Carries(|s|)
    ensures SizedRaw(form.Mark(), SizedBody(form, s) + rest) == Parsed(s, rest)
  {
    SizeRoundTrip(form, |s|, s + rest);
    ConcatAssoc(BigEndian(|s|, form.Width()), s, rest);
    RawRoundTrip(s, rest);
  }

  lemma MarkerRoundTrip(m: Marker, rest: bytes)
    requires m >= 0
    ensures ReadMarker([m] + rest) == (m, rest)
  {
  }

  lemma IntRoundTrip(form: IntForm, i: int, rest: bytes)
    requires form.Carries(i)
    ensures Scalar(form.Mark(), BigEndian(i, form.Width()) + rest) == Parsed(VInt(i), rest)
  {
    Pow256Values();
    hide Number, BigEndian, Raw, SizedRaw, Pow256;
    NumberRoundTrip(i, form.Width(), form != U8, rest);
  }

  lemma StringRoundTrip(size: SizeForm, s: bytes, rest: bytes)
    requires size.Carries(|s|)
    ensures Scalar(STRING, [size.Mark()] + SizedBody(size, s) + rest) == Parsed(VString(s), rest)
  {
    hide Number, Raw, SizedRaw, SizedBody, ReadMarker;
    ConcatAssoc([size.Mark()], SizedBody(size, s), rest);
    MarkerRoundTrip(size.Mark(), SizedBody(size, s) + rest);
    SizedRoundTrip(size, s, rest);
  }

  lemma ScalarRoundTrip(t: Tree, rest: bytes)
    requires Encodable(t) && !t.TArray? && !t.TCounted? && !t.TBytes? && !t.TObject?
    ensures ReadVariant(MarkOf(t), Body(t) + rest) == Parsed(Denote(t), rest)
  {
    hide Raw, Number, SizedRaw, SizeOf, BigEndian, SizedBody, ReadArray, ReadMembers, Encode, EncodeAll, EncodeFields;
    var nothing: bytes := [];
    assert nothing + rest == rest;
    match t
    case TInt(form, i) => IntRoundTrip(form, i, rest);
    case TFloat32(b) => RawRoundTrip(b, rest);
    case TFloat64(b) => RawRoundTrip(b, rest);
    case TChar(c) => RawRoundTrip([c], rest);
    case TString(size, s) => StringRoundTrip(size, s, rest);
    case _ =>
  }

  lemma BytesRoundTrip(size: SizeForm, data: bytes, rest: bytes)
    requires size.Carries(|data|)
    ensures ReadArray(Body(TBytes(size, data)) + rest) == Parsed(VBytes(data), rest)
  {
    var s3 := [size.Mark()] + (SizedBody(size, data) + rest);
    var s2 := [COUNT as byte] + s3;
    var s1 := [UINT8 as byte] + s2;
    assert Body(TBytes(size, data)) + rest == [TYPE as byte] + s1;
    MarkerRoundTrip(TYPE, s1);
    MarkerRoundTrip(UINT8, s2);
    MarkerRoundTrip(COUNT, s3);
    MarkerRoundTrip(size.Mark(), SizedBody(size, data) + rest);
    SizeRoundTrip(size, |data|, data + rest);
    ConcatAssoc(BigEndian(|data|, size.Width()), data, rest);
    RawRoundTrip(data, rest);
  }

  /** Reading an encoding of a tree, whatever follows it, returns the tree's value and leaves
      exactly what follows. */
  lemma {:induction false} RoundTrip(t: Tree, rest: bytes)
    requires Encodable(t)
    ensures ReadVariant(MarkOf(t), Body(t) + rest) == Parsed(Denote(t), rest)
    decreases t, 0
  {
    hide Scalar, Raw, Number, SizedRaw, SizeOf, BigEndian, SizedBody;
    hide ReadItems, ReadCounted, ReadMembers, Encode, EncodeAll, EncodeFields;
    match t
    case TArray(items) =>
      ItemsRoundTrip(items, [], rest);
      ConcatAssoc(EncodeAll(items), [ARRAY_END as byte], rest);
      assert [] + DenoteAll(items) == DenoteAll(items);
    case TCounted(size, items) =>
      var s2 := BigEndian(|items|, size.Width()) + (EncodeAll(items) + rest);
      var s1 := [size.Mark()] + s2;
      assert Body(t) + rest == [COUNT as byte] + s1;
      MarkerRoundTrip(COUNT, s1);
      MarkerRoundTrip(size.Mark(), s2);
      SizeRoundTrip(size, |items|, EncodeAll(items) + rest);
      CountedRoundTrip(items, [], rest);
      assert [] + DenoteAll(items) == DenoteAll(items);
    case TBytes(size, data) => BytesRoundTrip(size, data, rest);
    case TObject(fields) =>
      FieldsRoundTrip(fields, map[], rest);
      ConcatAssoc(EncodeFields(fields), [OBJECT_END as byte], rest);
    case _ => ScalarRoundTrip(t, rest);
  }

  lemma ConsItem(t: Tree, more: bytes, rest: bytes)
    ensures Encode(t) + more + rest == [MarkOf(t)] + (Body(t) + (more + rest))
  {
  }

  lemma SnocThen(sofar: seq<Variant>, v: Variant, vs: seq<Variant>)
    ensures sofar + [v] + vs == sofar + ([v] + vs)
  {
  }

  /** The elements of a terminated array. */
  lemma {:induction false} ItemsRoundTrip(items: seq<Tree>, sofar: seq<Variant>, rest: bytes)
    requires AllEncodable(items)
    ensures var (m, s) := ReadMarker(EncodeAll(items) + ([ARRAY_END as byte] + rest));
      m !in {TYPE, COUNT, END_OF_FILE} && ReadItems(m, sofar, s) == Parsed(sofar + DenoteAll(items), rest)
    decreases items, 1
  {
    var end := [ARRAY_END as byte] + rest;
    if items == [] {
      assert EncodeAll(items) + end == end;
      MarkerRoundTrip(ARRAY_END, rest);
      assert sofar + DenoteAll(items) == sofar;
    } else {
      var t, more := items[0], EncodeAll(items[1..]);
      ConsItem(t, more, end);
      MarkerRoundTrip(MarkOf(t), Body(t) + (more + end));
      RoundTrip(t, more + end);
      ItemsRoundTrip(items[1..], sofar + [Denote(t)], rest);
      SnocThen(sofar, Denote(t), DenoteAll(items[1..]));
    }
  }

  /** The elements of a counted array. */
  lemma {:induction false} CountedRoundTrip(items: seq<Tree>, sofar: seq<Variant>, rest: bytes)
    requires AllEncodable(items)
    ensures ReadCounted(|items|, sofar, EncodeAll(items) + rest) == Parsed(sofar + DenoteAll(items), rest)
    decreases items, 1
  {
    if items == [] {
      assert EncodeAll(items) + rest == rest;
      assert sofar + DenoteAll(items) == sofar;
    } else {
      var t, more := items[0], EncodeAll(items[1..]);
      ConsItem(t, more, rest);
      MarkerRoundTrip(MarkOf(t), Body(t) + (more + rest));
      RoundTrip(t, more + rest);
      CountedRoundTrip(items[1..], sofar + [Denote(t)], rest);
      SnocThen(sofar, Denote(t), DenoteAll(items[1..]));
    }
  }

  lemma ConsField(f: Field, more: bytes, rest: bytes)
    ensures [f.form.Mark()] + SizedBody(f.form, f.name) + Encode(f.value) + more + rest
      == [f.form.Mark()] + (SizedBody(f.form, f.name) + ([MarkOf(f.value)] + (Body(f.value) + (more + rest))))
  {
  }

  /** The members of an object. */
  lemma {:induction false} FieldsRoundTrip(fs: seq<Field>, object_: map<bytes, Variant>, rest: bytes)
    requires FieldsEncodable(fs)
    ensures var (m, s) := ReadMarker(EncodeFields(fs) + ([OBJECT_END as byte] + rest));
      m != END_OF_FILE && ReadMembers(m, object_, s) == Parsed(PutAll(object_, fs), rest)
    decreases fs, 1
  {
    var end := [OBJECT_END as byte] + rest;
    if fs == [] {
      assert EncodeFields(fs) + end == end;
      MarkerRoundTrip(OBJECT_END, rest);
    } else {
      var f, more := fs[0], EncodeFields(fs[1..]);
      ConsField(f, more, end);
      var s2 := Body(f.value) + (more + end);
      var s1 := [MarkOf(f.value)] + s2;
      MarkerRoundTrip(f.form.Mark(), SizedBody(f.form, f.name) + s1);
      SizedRoundTrip(f.form, f.name, s1);
      MarkerRoundTrip(MarkOf(f.value), s2);
      RoundTrip(f.value, more + end);
      FieldsRoundTrip(fs[1..], object_[f.name := Denote(f.value)], rest);
    }
  }

  /** decodeUBJSONObject. */
  function Decode(s: bytes): Parse<Variant> {
    var (m, s') := ReadMarker(s);
    ReadVariant(m, s')
  }

  lemma DecodeRoundTrip(t: Tree, rest: bytes)
    requires Encodable(t)
    ensures Decode(Encode(t) + rest) == Parsed(Denote(t), rest)
  {
    ConcatAssoc([MarkOf(t)], Body(t), rest);
    MarkerRoundTrip(MarkOf(t), Body(t) + rest);
    RoundTrip(t, rest);
  }

  /** No encoding is the start of an encoding of another value. */
  lemma Unambiguous(t: Tree, u: Tree, after_t: bytes, after_u: bytes)
    requires Encodable(t) && Encodable(u) && Encode(t) + after_t == Encode(u) + after_u
    ensures Denote(t) == Denote(u) && after_t == after_u
  {
    DecodeRoundTrip(t, after_t);
    DecodeRoundTrip(u, after_u);
  }

  /** The counted and the terminated form of an array are read as the same list. */
  lemma CountedAndTerminatedAgree(size: SizeForm, items: seq<Tree>, rest: bytes)
    requires AllEncodable(items) && size.Carries(|items|)
    ensures Decode(Encode(TArray(items)) + rest) == Decode(Encode(TCounted(size, items)) + rest)
  {
    DecodeRoundTrip(TArray(items), rest);
    DecodeRoundTrip(TCounted(size, items), rest);
  }

  // ----- what is rejected -----

  /** Any number can stand for a size, but it must not be negative and must fit an int. */
  lemma SizeIff(form: IntForm, n: int, rest: bytes)
    requires form.Carries(n)
    ensures SizeOf(form.Mark(), BigEndian(n, form.Width()) + rest)
      == if 0 <= n <= INT_MAX then Parsed(n, rest) else Failed
  {
    Pow256Values();
    hide Number, BigEndian, Pow256;
    NumberRoundTrip(n, form.Width(), form != U8, rest);
  }

  /** A number that the stream does not hold completely. */
  lemma TruncatedFails(form: IntForm, s: bytes)
    requires |s| < form.Width()
    ensures SizeOf(form.Mark(), s) == Failed && Scalar(form.Mark(), s) == Failed
  {
  }

  /** A character must be ASCII; a string must be as long as its size says. */
  lemma CharIff(c: byte, rest: bytes)
    ensures Scalar(CHAR, [c] + rest) == if c < 128 then Parsed(VString([c]), rest) else Failed
  {
    RawRoundTrip([c], rest);
    hide Raw;
  }

  lemma ShortStringFails(size: SizeForm, n: nat, s: bytes)
    requires size.Carries(n) && |s| < n
    ensures SizedRaw(size.Mark(), BigEndian(n, size.Width()) + s) == Failed
  {
    SizeRoundTrip(size, n, s);
    hide SizeOf, BigEndian;
  }

  /** Markers that stand for no value, and those that the reader does not know. */
  lemma OtherMarkers(m: Marker, s: bytes)
    ensures m in {NULL, NOOP, HIGH_PRECISION, END_OF_FILE} ==> ReadVariant(m, s) == Parsed(Invalid, s)
    ensures m in {ARRAY_END, OBJECT_END, TYPE, COUNT} ==> ReadVariant(m, s) == Failed
    ensures (m !in {NULL, NOOP, HIGH_PRECISION, END_OF_FILE, TRUE, FALSE, INT8, UINT8, INT16, INT32, INT64}
             && m !in {FLOAT32, FLOAT64, CHAR, STRING, ARRAY_BEGIN, OBJECT_BEGIN}) ==> ReadVariant(m, s) == Failed
  {
  }

  /** An array without its end marker ends with the stream. */
  lemma {:induction false} UnendedItems(items: seq<Tree>, sofar: seq<Variant>)
    requires AllEncodable(items)
    ensures var (m, s) := ReadMarker(EncodeAll(items)); ReadItems(m, sofar, s) == Parsed(sofar + DenoteAll(items), [])
    decreases items
  {
    if items == [] {
      assert sofar + DenoteAll(items) == sofar;
    } else {
      var t, more := items[0], EncodeAll(items[1..]);
      ConsItem(t, more, []);
      assert EncodeAll(items) + [] == EncodeAll(items) && more + [] == more;
      MarkerRoundTrip(MarkOf(t), Body(t) + more);
      RoundTrip(t, more);
      UnendedItems(items[1..], sofar + [Denote(t)]);
      SnocThen(sofar, Denote(t), DenoteAll(items[1..]));
      hide Body, ReadVariant, Denote, Scalar;
    }
  }

  // ----- the reader -----

  /** The data stream: what is left to be read. */
  class Stream {
    var ahead: bytes

    constructor (data: bytes)
      ensures ahead == data
    {
      ahead := data;
    }

    method NextMarker() returns (m: Marker)
      modifies this
      ensures (m, ahead) == ReadMarker(old(ahead))
    {
      if ahead == [] {
        return END_OF_FILE;
      }
      m := ahead[0];
      ahead := ahead[1..];
    }

    /** Raw data; false if the stream ends before. */
    method NextRaw(n: nat) returns (ok: bool, data: bytes)
      modifies this
      ensures Raw(n, old(ahead)) == if ok then Parsed(data, ahead) else Failed
    {
      ok := n <= |ahead|;
      data := [];
      if ok {
        data := ahead[..n];
        ahead := ahead[n..];
      }
    }

    method NextNumber(n: nat, signed: bool) returns (ok: bool, i: int)
      modifies this
      ensures Number(n, signed, old(ahead)) == if ok then Parsed(i, ahead) else Failed
    {
      var data;
      ok, data := NextRaw(n);
      i := if signed then Signed(Reverse(data)) else Unsigned(Reverse(data));
    }

    /** Both readSize functions; false where an assertion fails. */
    method NextSize(m: Marker) returns (ok: bool, size: nat)
      modifies this
      ensures SizeOf(m, old(ahead)) == if ok then Parsed(size, ahead) else Failed
    {
      var i := 0;
      ok := true;
      if m == INT8 {
        ok, i := NextNumber(1, true);
      } else if m == UINT8 {
        ok, i := NextNumber(1, false);
      } else if m == INT16 {
        ok, i := NextNumber(2, true);
      } else if m == INT32 {
        ok, i := NextNumber(4, true);
      } else if m == INT64 {
        ok, i := NextNumber(8, true);
      }
      ok := ok && 0 <= i <= INT_MAX;
      size := if ok then i else 0;
    }

    method NextSizedRaw(m: Marker) returns (ok: bool, data: bytes)
      modifies this
      ensures SizedRaw(m, old(ahead)) == if ok then Parsed(data, ahead) else Failed
    {
      var size;
      data := [];
      ok, size := NextSize(m);
      if ok {
        ok, data := NextRaw(size);
      }
    }

    method NextScalar(m: Marker) returns (ok: bool, v: Variant)
      modifies this
      ensures Scalar(m, old(ahead)) == if ok then Parsed(v, ahead) else Failed
    {
      var i, data := 0, [];
      ok, v := true, Invalid;
      if m == NULL || m == NOOP || m == HIGH_PRECISION || m == END_OF_FILE {
      } else if m == TRUE {
        v := VBool(true);
      } else if m == FALSE {
        v := VBool(false);
      } else if m == INT8 {
        ok, i := NextNumber(1, true);
        v := VInt(i);
      } else if m == UINT8 {
        ok, i := NextNumber(1, false);
        v := VInt(i);
      } else if m == INT16 {
        ok, i := NextNumber(2, true);
        v := VInt(i);
      } else if m == INT32 {
        ok, i := NextNumber(4, true);
        v := VInt(i);
      } else if m == INT64 {
        ok, i := NextNumber(8, true);
        v := VInt(i);
      } else if m == FLOAT32 {
        ok, data := NextRaw(4);
        v := VFloat(data);
      } else if m == FLOAT64 {
        ok, data := NextRaw(8);
        v := VFloat(data);
      } else if m == CHAR {
        ok, data := NextRaw(1);
        ok := ok && data[0] < 128;
        v := VString(data);
      } else if m == STRING {
        var t := NextMarker();
        ok, data := NextSizedRaw(t);
        v := VString(data);
      } else {
        ok := false;
      }
    }

    method NextVariant(m: Marker) returns (ok: bool, v: Variant)
      modifies this
      ensures ReadVariant(m, old(ahead)) == if ok then Parsed(v, ahead) else Failed
      decreases |ahead|, 1, 0
    {
      if m == ARRAY_BEGIN {
        ok, v := NextArray();
      } else if m == OBJECT_BEGIN {
        var o;
        ok, o := NextObject();
        v := VMap(o);
      } else {
        ok, v := NextScalar(m);
      }
    }

    method NextArray() returns (ok: bool, v: Variant)
      modifies this
      ensures ReadArray(old(ahead)) == if ok then Parsed(v, ahead) else Failed
      decreases |ahead|, 0, 0
    {
      hide SizeOf, Raw, ReadVariant, Scalar, Number, SizedRaw, ReadMembers;
      var marker := NextMarker();
      v := Invalid;
      if marker == TYPE {
        var t := NextMarker();
        marker := NextMarker();
        if t != UINT8 || marker != COUNT {
          return false, Invalid;
        }
        marker := NextMarker();
        var count, data := 0, [];
        ok, count := NextSize(marker);
        if ok {
          ok, data := NextRaw(count);
        }
        v := VBytes(data);
      } else if marker == COUNT {
        marker := NextMarker();
        var count := 0;
        ok, count := NextSize(marker);
        if ok {
          var list: seq<Variant> := [];
          ghost var start := ahead;
          var i := 0;
          while i < count
            invariant 0 <= i <= count && |ahead| <= |start| < old(|ahead|)
            invariant ReadCounted(count, [], start) == ReadCounted(count - i, list, ahead)
          {
            marker := NextMarker();
            var value;
            ok, value := NextVariant(marker);
            if !ok {
              return;
            }
            list := list + [value];
            i := i + 1;
          }
          v := VList(list);
        }
      } else {
        var list: seq<Variant> := [];
        ghost var start, first := ahead, marker;
        while marker != ARRAY_END && marker != END_OF_FILE
          invariant |ahead| <= |start| && (first != END_OF_FILE ==> |start| < old(|ahead|))
          invariant first == END_OF_FILE ==> marker == END_OF_FILE
          invariant ReadItems(first, [], start) == ReadItems(marker, list, ahead)
          decreases |ahead|, if marker == END_OF_FILE then 0 else 1
        {
          var value;
          ok, value := NextVariant(marker);
          if !ok {
            return;
          }
          list := list + [value];
          marker := NextMarker();
        }
        ok, v := true, VList(list);
      }
    }

    method NextObject() returns (ok: bool, o: map<bytes, Variant>)
      modifies this
      ensures var (t, s) := ReadMarker(old(ahead));
        (if t == END_OF_FILE then Parsed(map[], s) else ReadMembers(t, map[], s))
        == if ok then Parsed(o, ahead) else Failed
      decreases |ahead|, 0, 0
    {
      o := map[];
      ok := true;
      var marker := NextMarker();
      ghost var start, first := ahead, marker;
      while marker != OBJECT_END && marker != END_OF_FILE
        invariant |ahead| <= |start| && (first != END_OF_FILE ==> |start| < old(|ahead|))
        invariant first == END_OF_FILE ==> marker == END_OF_FILE && o == map[] && ahead == start
        invariant first != END_OF_FILE ==> ReadMembers(first, map[], start) == ReadMembers(marker, o, ahead)
        invariant ok
        decreases |ahead|, if marker == END_OF_FILE then 0 else 1
      {
        var name;
        ok, name := NextSizedRaw(marker);
        if !ok {
          return;
        }
        marker := NextMarker();
        var value;
        ok, value := NextVariant(marker);
        if !ok {
          return;
        }
        o := o[name := value];
        marker := NextMarker();
      }
    }
  }
}

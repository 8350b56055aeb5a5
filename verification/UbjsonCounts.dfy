/** Optimized containers of the Universal Binary JSON specification, Draft 12, beyond those of Ubjson:
    objects with a count, and containers with a type.  The object reader of gui/qubjson.cpp knows
    neither mark: it takes both for the marker of a name's size, and so for an empty name. */
module UbjsonCounts {
  import opened Bytes
  import opened Ubjson
  import opened UbjsonNoops

  // ----- objects with a count -----

  /** An object written with its number of members and no end marker. */
  function CountedObject(size: SizeForm, fs: seq<Field>): bytes {
    [OBJECT_BEGIN, COUNT, size.Mark()] + BigEndian(|fs|, size.Width()) + EncodeFields(fs)
  }

  /** Reading members that are followed by anything is putting them and reading on. */
  lemma {:induction false} FieldsThenRest(fs: seq<Field>, object_: map<bytes, Variant>, rest: bytes)
    requires FieldsEncodable(fs)
    ensures var (m, s) := ReadMarker(EncodeFields(fs) + rest);
      var (m', s') := ReadMarker(rest);
      ReadMembers(m, object_, s) == ReadMembers(m', PutAll(object_, fs), s')
    decreases fs
  {
    if fs == [] {
      assert EncodeFields(fs) + rest == rest;
    } else {
      var f, more := fs[0], EncodeFields(fs[1..]);
      FieldsThenRest(fs[1..], object_[f.name := Denote(f.value)], rest);
      ConsField(f, more, rest);
      hide Scalar, Raw, Number, SizeOf, BigEndian, SizedBody, ReadArray, Encode, SizedRaw, Body;
      OneField(f, object_, more + rest);
    }
  }

  lemma OneField(f: Field, object_: map<bytes, Variant>, rest: bytes)
    requires f.form.Carries(|f.name|) && Encodable(f.value)
    ensures var s := SizedBody(f.form, f.name) + ([MarkOf(f.value)] + (Body(f.value) + rest));
      var (m', s') := ReadMarker(rest);
      ReadMembers(f.form.Mark(), object_, s) == ReadMembers(m', object_[f.name := Denote(f.value)], s')
    ensures var s := [f.form.Mark()] + (SizedBody(f.form, f.name) + ([MarkOf(f.value)] + (Body(f.value) + rest)));
      ReadMarker(s) == (f.form.Mark(), s[1..])
      && s[1..] == SizedBody(f.form, f.name) + ([MarkOf(f.value)] + (Body(f.value) + rest))
  {
    var after := Body(f.value) + rest;
    var s := SizedBody(f.form, f.name) + ([MarkOf(f.value)] + after);
    hide Scalar, Raw, Number, SizeOf, BigEndian, SizedBody, ReadVariant, ReadArray, Encode, SizedRaw, Body;
    SizedRoundTrip(f.form, f.name, [MarkOf(f.value)] + after);
    MarkerRoundTrip(MarkOf(f.value), after);
    RoundTrip(f.value, rest);
    MarkerRoundTrip(f.form.Mark(), s);
  }

  /** The count is read as a number. */
  lemma CountRead(size: SizeForm, n: nat, rest: bytes)
    requires size.Carries(n)
    ensures ReadVariant(size.Mark(), BigEndian(n, size.Width()) + rest) == Parsed(VInt(n), rest)
  {
    var form := match size case Size8 => I8 case SizeU8 => U8 case Size16 => I16 case Size32 => I32 case Size64 => I64;
    hide Scalar, BigEndian;
    IntRoundTrip(form, n, rest);
  }

  /** A mark that is not the marker of a size and does not end an object. */
  predicate NoSize(mark: Marker) {
    mark !in {INT8, UINT8, INT16, INT32, INT64, OBJECT_END, END_OF_FILE}
  }

  /** What stands behind such a mark is read as the value of the empty name. */
  lemma MarkIsEmptyName(mark: Marker, s: bytes)
    requires NoSize(mark)
    ensures Decode([OBJECT_BEGIN, mark] + s) ==
      var (t, s1) := ReadMarker(s);
      match ReadVariant(t, s1)
      case Failed => Failed
      case Parsed(v, after) =>
        var (m, s2) := ReadMarker(after);
        match ReadMembers(m, map[[] := v], s2) case Failed => Failed case Parsed(o, rest) => Parsed(VMap(o), rest)
  {
    var all := [OBJECT_BEGIN as byte] + ([mark as byte] + s);
    assert [OBJECT_BEGIN, mark] + s == all;
    MarkerRoundTrip(OBJECT_BEGIN, [mark as byte] + s);
    MarkerRoundTrip(mark, s);
    EmptyNameRead(mark, s);
    hide ReadMembers, ReadArray, Scalar;
    var (t, s1) := ReadMarker(s);
    assert ReadVariant(OBJECT_BEGIN, [mark as byte] + s) ==
      match ReadMembers(mark, map[], s) case Failed => Failed case Parsed(o, rest) => Parsed(VMap(o), rest);
  }

  /** A mark that is no size, where a name is expected. */
  lemma EmptyNameRead(mark: Marker, s: bytes)
    requires NoSize(mark)
    ensures ReadMembers(mark, map[], s) ==
      var (t, s1) := ReadMarker(s);
      match ReadVariant(t, s1)
      case Failed => Failed
      case Parsed(v, after) => var (m, s2) := ReadMarker(after); ReadMembers(m, map[[] := v], s2)
  {
    assert SizedRaw(mark, s) == Parsed([], s) by {
      assert s[..0] == [] && s[0..] == s;
    }
    hide SizedRaw, ReadVariant;
    var none: map<bytes, Variant> := map[];
    forall v: Variant ensures none[[] := v] == map[[] := v] {
    }
  }

  lemma MarkThenValue(mark: Marker, t: Marker, s: bytes, v: Variant, after: bytes)
    requires NoSize(mark) && t >= 0 && ReadVariant(t, s) == Parsed(v, after)
    ensures Decode([OBJECT_BEGIN, mark] + ([t] + s)) ==
      var (m, s2) := ReadMarker(after);
      match ReadMembers(m, map[[] := v], s2) case Failed => Failed case Parsed(o, rest) => Parsed(VMap(o), rest)
  {
    MarkerRoundTrip(t, s);
    hide *;
    MarkIsEmptyName(mark, [t] + s);
  }

  /** The reader takes a counted object for one with a further member, whose name is empty and whose
      value is the count, and reads on behind it until an end marker or the end of the stream. */
  lemma CountedObjectRead(size: SizeForm, fs: seq<Field>, rest: bytes)
    requires FieldsEncodable(fs) && size.Carries(|fs|)
    ensures Decode(CountedObject(size, fs) + rest) ==
      var (m, s) := ReadMarker(rest);
      match ReadMembers(m, PutAll(map[[] := VInt(|fs|)], fs), s)
      case Failed => Failed
      case Parsed(o, after) => Parsed(VMap(o), after)
  {
    var body := EncodeFields(fs) + rest;
    var count := BigEndian(|fs|, size.Width()) + body;
    CountedLayout(size, fs, rest);
    CountRead(size, |fs|, body);
    assert size.Mark() >= 0;
    hide *;
    MarkThenValue(COUNT, size.Mark(), count, VInt(|fs|), body);
    FieldsThenRest(fs, map[[] := VInt(|fs|)], rest);
  }

  lemma CountedLayout(size: SizeForm, fs: seq<Field>, rest: bytes)
    ensures CountedObject(size, fs) + rest
      == [OBJECT_BEGIN, COUNT] + ([size.Mark()] + (BigEndian(|fs|, size.Width()) + (EncodeFields(fs) + rest)))
  {
    hide BigEndian, EncodeFields;
  }

  predicate HasEmptyName(fs: seq<Field>) {
    exists i :: 0 <= i < |fs| && fs[i].name == []
  }

  /** The further member is replaced if and only if a member has the empty name. */
  lemma CountReplacedIff(fs: seq<Field>, v: Variant)
    ensures HasEmptyName(fs) ==> PutAll(map[[] := v], fs) == PutAll(map[], fs)
    ensures !HasEmptyName(fs) ==> [] in PutAll(map[[] := v], fs) && [] !in MeantPut(map[], fs)
  {
    if i :| 0 <= i < |fs| && fs[i].name == [] {
      var a, b := PutAll(map[[] := v], fs), PutAll(map[], fs);
      forall name ensures (name in a <==> name in b) && (name in a ==> a[name] == b[name]) {
        SameFrom(map[[] := v], map[], fs, i, name);
      }
      assert a.Keys == b.Keys;
      assert a == b;
    } else {
      PutOthers(map[[] := v], fs, []);
      MeantOthers(map[], fs, []);
    }
  }

  /** Members put into two maps that differ only in the name of one of the members. */
  lemma SameFrom(a: map<bytes, Variant>, b: map<bytes, Variant>, fs: seq<Field>, i: nat, name: bytes)
    requires i < |fs|
    requires forall k :: k != fs[i].name ==> (k in a <==> k in b) && (k in a ==> a[k] == b[k])
    ensures name in PutAll(a, fs) <==> name in PutAll(b, fs)
    ensures name in PutAll(a, fs) ==> PutAll(a, fs)[name] == PutAll(b, fs)[name]
  {
    hide PutAll;
    if k :| 0 <= k < |fs| && fs[k].name == name {
      var last := LastNamed(fs, k);
      PutLast(a, fs, last);
      PutLast(b, fs, last);
    } else {
      PutOthers(a, fs, name);
      PutOthers(b, fs, name);
    }
  }

  lemma MeantWithCountIff(fs: seq<Field>, v: Variant)
    ensures VMap(PutAll(map[[] := v], fs)) == Meant(TObject(fs)) <==> HasEmptyName(fs) && NoNoop(TObject(fs))
  {
    CountReplacedIff(fs, v);
    MeantIff(TObject(fs));
    assert Denote(TObject(fs)) == VMap(PutAll(map[], fs));
    assert Meant(TObject(fs)) == VMap(MeantPut(map[], fs));
    hide HasEmptyName, NoNoop, PutAll, MeantPut, Denote, Meant;
  }

  lemma CountedAtEnd(size: SizeForm, fs: seq<Field>)
    requires FieldsEncodable(fs) && size.Carries(|fs|)
    ensures Decode(CountedObject(size, fs) + []) == Parsed(VMap(PutAll(map[[] := VInt(|fs|)], fs)), [])
  {
    CountedObjectRead(size, fs, []);
    hide CountedObject, Decode, PutAll;
    EndsAtOnce(PutAll(map[[] := VInt(|fs|)], fs));
  }

  lemma CountedReadsOn(size: SizeForm, fs: seq<Field>, rest: bytes)
    requires FieldsEncodable(fs) && size.Carries(|fs|) && rest != []
    ensures var r := Decode(CountedObject(size, fs) + rest); r.Parsed? ==> |r.rest| < |rest|
  {
    CountedObjectRead(size, fs, rest);
    hide CountedObject, Decode, PutAll, ReadMembers;
  }

  /** A counted object is read as the specification means it, no-ops being no values, if and only if
      nothing follows it, one of its members has the empty name, and no no-op is in it. */
  lemma CountedObjectIff(size: SizeForm, fs: seq<Field>, rest: bytes)
    requires FieldsEncodable(fs) && size.Carries(|fs|)
    ensures Decode(CountedObject(size, fs) + rest) == Parsed(Meant(TObject(fs)), rest)
      <==> rest == [] && HasEmptyName(fs) && NoNoop(TObject(fs))
  {
    hide *;
    if rest == [] {
      CountedAtEnd(size, fs);
      MeantWithCountIff(fs, VInt(|fs|));
    } else {
      CountedReadsOn(size, fs, rest);
    }
  }

  /** The empty object with a count has a member for the reader. */
  lemma EmptyCountedObject()
    ensures CountedObject(SizeU8, []) == [OBJECT_BEGIN, COUNT, UINT8, 0]
    ensures Decode([OBJECT_BEGIN, COUNT, UINT8, 0]) == Parsed(VMap(map[[] := VInt(0)]), [])
    ensures Meant(TObject([])) == VMap(map[])
  {
    hide ReadVariant, ReadMembers, ReadArray, Decode;
    assert BigEndian(0, 1) == [0];
    CountedObjectRead(SizeU8, [], []);
    assert CountedObject(SizeU8, []) + [] == [OBJECT_BEGIN, COUNT, UINT8, 0];
    EndsAtOnce(map[[] := VInt(0)]);
  }

  lemma EndsAtOnce(o: map<bytes, Variant>)
    ensures ReadMembers(END_OF_FILE, o, []) == Parsed(o, [])
    ensures PutAll(o, []) == o
  {
  }

  // ----- containers with a type -----

  /** The reader asserts that a typed array is one of uint8. */
  lemma TypedArrayFails(t: byte, s: bytes)
    ensures t != UINT8 ==> Decode([ARRAY_BEGIN, TYPE, t] + s) == Failed
  {
    var rest := [TYPE as byte] + ([t] + s);
    assert [ARRAY_BEGIN, TYPE, t] + s == [ARRAY_BEGIN as byte] + rest;
    MarkerRoundTrip(ARRAY_BEGIN, rest);
    MarkerRoundTrip(TYPE, [t] + s);
    MarkerRoundTrip(t, s);
    hide ReadItems, ReadCounted, ReadSize, Raw, ReadMembers, Scalar;
    if t != UINT8 {
      assert ReadArray(rest) == Failed;
      assert ReadVariant(ARRAY_BEGIN, rest) == ReadArray(rest);
    }
  }

  /** A member whose value is written without its marker. */
  datatype TypedField = TypedField(form: SizeForm, name: bytes, payload: bytes)

  function EncodeTyped(fs: seq<TypedField>): bytes {
    if fs == [] then []
    else [fs[0].form.Mark()] + SizedBody(fs[0].form, fs[0].name) + fs[0].payload + EncodeTyped(fs[1..])
  }

  function TypedObject(t: byte, size: SizeForm, fs: seq<TypedField>): bytes {
    [OBJECT_BEGIN, TYPE, t, COUNT, size.Mark()] + BigEndian(|fs|, size.Width()) + EncodeTyped(fs)
  }

  /** A name that has been read stays in the object. */
  lemma {:induction false} NamesStay(m: Marker, object_: map<bytes, Variant>, s: bytes)
    ensures ReadMembers(m, object_, s).Parsed? ==> object_.Keys <= ReadMembers(m, object_, s).value.Keys
    decreases |s|, if m == END_OF_FILE then 0 else 1
  {
    if m != OBJECT_END && m != END_OF_FILE && SizedRaw(m, s).Parsed? {
      var name, rest := SizedRaw(m, s).value, SizedRaw(m, s).rest;
      var (t, s1) := ReadMarker(rest);
      var v := ReadVariant(t, s1);
      if v.Parsed? {
        hide SizedRaw, ReadVariant;
        var (m', s2) := ReadMarker(v.rest);
        NamesStay(m', object_[name := v.value], s2);
      }
    }
  }

  /** An object that begins with a mark that is no size, like those of counts and types and a no-op,
      has a member with the empty name for the reader. */
  lemma EmptyNameAppears(mark: Marker, s: bytes, o: map<bytes, Variant>, rest: bytes)
    requires NoSize(mark) && Decode([OBJECT_BEGIN, mark] + s) == Parsed(VMap(o), rest)
    ensures [] in o
  {
    hide ReadVariant, ReadMembers, Decode;
    MarkIsEmptyName(mark, s);
    var (t, s1) := ReadMarker(s);
    var v := ReadVariant(t, s1);
    if v.Parsed? {
      var (m, s2) := ReadMarker(v.rest);
      var first: map<bytes, Variant> := map[[] := v.value];
      assert [] in first;
      NamesStay(m, first, s2);
    }
  }

  /** A typed object is never read as meant, whatever its values, unless a member has the empty name. */
  lemma TypedObjectMisread(
      t: byte, size: SizeForm, fs: seq<TypedField>, rest: bytes, meant: map<bytes, Variant>)
    requires forall name :: name in meant ==> exists i :: 0 <= i < |fs| && fs[i].name == name
    requires forall i :: 0 <= i < |fs| ==> fs[i].name != []
    ensures Decode(TypedObject(t, size, fs) + rest) != Parsed(VMap(meant), rest)
  {
    var s := [t] + ([COUNT as byte, size.Mark()] + BigEndian(|fs|, size.Width()) + EncodeTyped(fs) + rest);
    assert TypedObject(t, size, fs) + rest == [OBJECT_BEGIN, TYPE] + s;
    hide TypedObject, Decode;
    if Decode(TypedObject(t, size, fs) + rest) == Parsed(VMap(meant), rest) {
      EmptyNameAppears(TYPE, s, meant, rest);
    }
  }

  lemma ByteRead(n: byte, rest: bytes)
    ensures ReadVariant(UINT8, [n] + rest) == Parsed(VInt(n), rest)
    ensures SizedRaw(UINT8, [0]) == Parsed([], [])
  {
    Pow256Values();
    NumberRoundTrip(n, 1, false, rest);
    NumberRoundTrip(0, 1, false, []);
    assert BigEndian(n, 1) == [n] && BigEndian(0, 1) == [0];
    assert [0] + [] == [0];
  }

  /** A member with the empty name and without a value ends the stream. */
  lemma EndsInEmptyName(o: map<bytes, Variant>)
    ensures ReadMembers(UINT8, o, [0]) == Parsed(o[[] := Invalid], [])
  {
    ByteRead(0, []);
    hide SizedRaw;
    assert ReadVariant(END_OF_FILE, []) == Parsed(Invalid, []);
  }

  /** The empty typed object has a member for the reader. */
  lemma EmptyTypedObject()
    ensures TypedObject(85, SizeU8, []) == [OBJECT_BEGIN, TYPE, UINT8, COUNT, UINT8, 0]
    ensures Decode([OBJECT_BEGIN, TYPE] + ([UINT8] + ([COUNT] + [UINT8, 0]))) == Parsed(VMap(map[[] := Invalid]), [])
  {
    EmptyTypedLayout();
    ByteRead(COUNT, [UINT8, 0]);
    MarkerRoundTrip(UINT8, [0]);
    hide *;
    MarkThenValue(TYPE, UINT8, [COUNT] + [UINT8, 0], VInt(COUNT), [UINT8, 0]);
    assert [UINT8] + [0] == [UINT8, 0];
    EndsInEmptyName(map[[] := VInt(COUNT)]);
    Replaced(VInt(COUNT), Invalid);
  }

  lemma EmptyTypedLayout()
    ensures TypedObject(85, SizeU8, []) == [OBJECT_BEGIN, TYPE, UINT8, COUNT, UINT8, 0]
  {
    assert BigEndian(0, 1) == [0];
  }

  lemma Replaced(v: Variant, w: Variant)
    ensures var first: map<bytes, Variant> := map[[] := v]; first[[] := w] == map[[] := w]
  {
  }

  /** With an empty name a typed object can be read as meant: one null member without a name. */
  lemma NamelessTypedObject()
    ensures TypedObject(90, SizeU8, [TypedField(SizeU8, [], [])])
      == [OBJECT_BEGIN, TYPE, NULL, COUNT, UINT8, 1, UINT8, 0]
    ensures Decode([OBJECT_BEGIN, TYPE] + ([NULL] + ([COUNT] + ([UINT8] + ([1] + [UINT8, 0])))))
      == Parsed(VMap(map[[] := Invalid]), [])
  {
    NamelessLayout();
    var s: bytes := [UINT8] + ([1] + [UINT8, 0]);
    assert ReadVariant(NULL, [COUNT] + s) == Parsed(Invalid, [COUNT] + s);
    ByteRead(1, [UINT8, 0]);
    hide *;
    MarkThenValue(TYPE, NULL, [COUNT] + s, Invalid, [COUNT] + s);
    MarkerRoundTrip(COUNT, s);
    CountAgain(map[[] := Invalid], [1] + [UINT8, 0], VInt(1), [0]);
    EndsInEmptyName(map[[] := VInt(1)]);
    Replaced(Invalid, VInt(1));
    Replaced(VInt(1), Invalid);
  }

  lemma NamelessLayout()
    ensures TypedObject(90, SizeU8, [TypedField(SizeU8, [], [])])
      == [OBJECT_BEGIN, TYPE, NULL, COUNT, UINT8, 1, UINT8, 0]
  {
    assert BigEndian(1, 1) == [1] && BigEndian(0, 1) == [0];
    var fs := [TypedField(SizeU8, [], [])];
    assert EncodeTyped(fs) == [UINT8, 0] + EncodeTyped(fs[1..]);
  }

  /** A count mark among the members. */
  lemma CountAgain(o: map<bytes, Variant>, s: bytes, v: Variant, rest: bytes)
    requires ReadVariant(UINT8, s) == Parsed(v, [UINT8] + rest)
    ensures ReadMembers(COUNT, o, [UINT8] + s) == ReadMembers(UINT8, o[[] := v], rest)
  {
    var all: bytes := [UINT8] + s;
    assert SizedRaw(COUNT, all) == Parsed([], all) by {
      assert all[..0] == [] && all[0..] == all;
    }
    MarkerRoundTrip(UINT8, s);
    MarkerRoundTrip(UINT8, rest);
    hide SizedRaw, ReadVariant, ReadMarker;
  }
}

/** No-ops in UBJSON containers.  In the Universal Binary JSON specification, Draft 12, a no-op is no
    value: a reader skips it.  The reader of gui/qubjson.cpp makes it a value. */
module UbjsonNoops {
  import opened Options
  import opened Bytes
  import opened Ubjson

  // ----- what an encoding means -----

  /** The value of a tree with the no-ops taken out at every depth: a no-op is no element of an
      array, and a name with a no-op is no member of an object. */
  function Meant(t: Tree): Variant
    decreases t
  {
    match t
    case TArray(items) => VList(MeantAll(items))
    case TCounted(_, items) => VList(MeantAll(items))
    case TObject(fields) => VMap(MeantPut(map[], fields))
    case _ => Denote(t)
  }

  function MeantAll(ts: seq<Tree>): (vs: seq<Variant>)
    ensures |vs| <= |ts|
    decreases ts
  {
    if ts == [] then []
    else if ts[0] == TNoop then MeantAll(ts[1..])
    else [Meant(ts[0])] + MeantAll(ts[1..])
  }

  function MeantPut(m: map<bytes, Variant>, fs: seq<Field>): map<bytes, Variant>
    decreases fs
  {
    if fs == [] then m
    else MeantPut(if fs[0].value == TNoop then m else m[fs[0].name := Meant(fs[0].value)], fs[1..])
  }

  /** A no-op alone means nothing. */
  function Meaning(t: Tree): Option<Variant> {
    if t == TNoop then None else Some(Meant(t))
  }

  // ----- when it is read as meant -----

  /** No later field has the name of field i. */
  predicate Survives(fs: seq<Field>, i: nat)
    requires i < |fs|
  {
    forall j :: i < j < |fs| ==> fs[j].name != fs[i].name
  }

  /** Between fields j and i only no-ops have the name of field i. */
  predicate OnlyNoopsBetween(fs: seq<Field>, j: nat, i: nat)
    requires j <= i < |fs|
  {
    forall k :: j < k < i && fs[k].name == fs[i].name ==> fs[k].value == TNoop
  }

  /** Field i is a no-op, and what its name stood for before is null: as a value of the GUI that is
      no value, too. */
  predicate NullAgain(fs: seq<Field>, i: nat)
    requires i < |fs|
  {
    fs[i].value == TNoop
    && exists j :: 0 <= j < i && fs[j].name == fs[i].name && fs[j].value == TNull && OnlyNoopsBetween(fs, j, i)
  }

  /** There is no no-op in the tree, other than in members that later ones replace. */
  predicate NoNoop(t: Tree)
    decreases t
  {
    match t
    case TNoop => false
    case TArray(items) => forall i :: 0 <= i < |items| ==> NoNoop(items[i])
    case TCounted(_, items) => forall i :: 0 <= i < |items| ==> NoNoop(items[i])
    case TObject(fields) =>
      forall i :: 0 <= i < |fields| && Survives(fields, i) ==> NoNoop(fields[i].value) || NullAgain(fields, i)
    case _ => true
  }

  // ----- arrays -----

  lemma {:induction false} ItemsIff(ts: seq<Tree>)
    ensures DenoteAll(ts) == MeantAll(ts) <==> forall i :: 0 <= i < |ts| ==> NoNoop(ts[i])
    decreases ts, 1
  {
    if ts != [] {
      var tail := ts[1..];
      ItemsIff(tail);
      MeantIff(ts[0]);
      hide Denote, Meant, NoNoop;
      assert (forall i :: 0 <= i < |ts| ==> NoNoop(ts[i])) <==>
        NoNoop(ts[0]) && forall i :: 0 <= i < |tail| ==> NoNoop(tail[i]) by {
        assert forall i :: 0 < i < |ts| ==> ts[i] == tail[i - 1];
        assert forall i :: 0 <= i < |tail| ==> tail[i] == ts[i + 1];
      }
      if ts[0] != TNoop {
        assert DenoteAll(ts) == [Denote(ts[0])] + DenoteAll(tail);
        assert MeantAll(ts) == [Meant(ts[0])] + MeantAll(tail);
        SameList(Denote(ts[0]), DenoteAll(tail), Meant(ts[0]), MeantAll(tail));
      }
    }
  }

  lemma SameList(v: Variant, vs: seq<Variant>, w: Variant, ws: seq<Variant>)
    ensures [v] + vs == [w] + ws <==> v == w && vs == ws
  {
    if [v] + vs == [w] + ws {
      assert ([v] + vs)[0] == v && ([w] + ws)[0] == w;
      assert ([v] + vs)[1..] == vs && ([w] + ws)[1..] == ws;
    }
  }

  // ----- objects -----

  lemma {:induction false} PutOthers(m: map<bytes, Variant>, fs: seq<Field>, name: bytes)
    requires forall k :: 0 <= k < |fs| ==> fs[k].name != name
    ensures name in PutAll(m, fs) <==> name in m
    ensures name in m ==> PutAll(m, fs)[name] == m[name]
    decreases fs
  {
    if fs != [] {
      PutOthers(m[fs[0].name := Denote(fs[0].value)], fs[1..], name);
    }
  }

  /** The last field of a name decides. */
  lemma {:induction false} PutLast(m: map<bytes, Variant>, fs: seq<Field>, i: nat)
    requires i < |fs| && Survives(fs, i)
    ensures fs[i].name in PutAll(m, fs) && PutAll(m, fs)[fs[i].name] == Denote(fs[i].value)
    decreases fs
  {
    var m', tail := m[fs[0].name := Denote(fs[0].value)], fs[1..];
    if i == 0 {
      PutOthers(m', tail, fs[0].name);
    } else {
      assert tail[i - 1] == fs[i];
      PutLast(m', tail, i - 1);
    }
  }

  lemma {:induction false} MeantOthers(m: map<bytes, Variant>, fs: seq<Field>, name: bytes)
    requires forall k :: 0 <= k < |fs| && fs[k].name == name ==> fs[k].value == TNoop
    ensures name in MeantPut(m, fs) <==> name in m
    ensures name in m ==> MeantPut(m, fs)[name] == m[name]
    decreases fs
  {
    if fs != [] {
      MeantOthers(if fs[0].value == TNoop then m else m[fs[0].name := Meant(fs[0].value)], fs[1..], name);
    }
  }

  /** The last field of a name that is no no-op decides. */
  lemma {:induction false} MeantLast(m: map<bytes, Variant>, fs: seq<Field>, i: nat)
    requires i < |fs| && fs[i].value != TNoop
    requires forall k :: i < k < |fs| && fs[k].name == fs[i].name ==> fs[k].value == TNoop
    ensures fs[i].name in MeantPut(m, fs) && MeantPut(m, fs)[fs[i].name] == Meant(fs[i].value)
    decreases fs
  {
    var tail := fs[1..];
    if i == 0 {
      MeantOthers(m[fs[0].name := Meant(fs[0].value)], tail, fs[0].name);
    } else {
      assert tail[i - 1] == fs[i];
      MeantLast(if fs[0].value == TNoop then m else m[fs[0].name := Meant(fs[0].value)], tail, i - 1);
    }
  }

  /** The last field before i that has its name and is no no-op; -1 if there is none. */
  lemma {:induction false} LastValue(fs: seq<Field>, i: nat, from: nat) returns (j: int)
    requires from <= i < |fs|
    requires forall k :: from <= k < i && fs[k].name == fs[i].name ==> fs[k].value == TNoop
    ensures -1 <= j < i
    ensures j >= 0 ==> fs[j].name == fs[i].name && fs[j].value != TNoop && OnlyNoopsBetween(fs, j, i)
    ensures j < 0 ==> forall k :: 0 <= k < i && fs[k].name == fs[i].name ==> fs[k].value == TNoop
    decreases from
  {
    if from == 0 {
      j := -1;
    } else if fs[from - 1].name == fs[i].name && fs[from - 1].value != TNoop {
      j := from - 1;
    } else {
      j := LastValue(fs, i, from - 1);
    }
  }

  lemma {:induction false} LastNamed(fs: seq<Field>, k: nat) returns (i: nat)
    requires k < |fs|
    ensures k <= i < |fs| && fs[i].name == fs[k].name && Survives(fs, i)
    decreases |fs| - k
  {
    if j :| k < j < |fs| && fs[j].name == fs[k].name {
      i := LastNamed(fs, j);
    } else {
      i := k;
    }
  }

  predicate FieldOk(fs: seq<Field>, i: nat)
    requires i < |fs|
  {
    NoNoop(fs[i].value) || NullAgain(fs, i)
  }

  ghost predicate SameAt(fs: seq<Field>, name: bytes) {
    var d, m := PutAll(map[], fs), MeantPut(map[], fs);
    (name in d <==> name in m) && (name in d ==> d[name] == m[name])
  }

  lemma OnlyNullIsInvalid(t: Tree)
    ensures t != TNoop ==> (Meant(t) == Invalid <==> t == TNull)
  {
  }

  /** A surviving no-op. */
  lemma NoopIff(fs: seq<Field>, i: nat)
    requires i < |fs| && Survives(fs, i) && fs[i].value == TNoop
    ensures SameAt(fs, fs[i].name) <==> NullAgain(fs, i)
  {
    PutLast(map[], fs, i);
    var j := LastValue(fs, i, i);
    if j < 0 {
      MeantOthers(map[], fs, fs[i].name);
    } else {
      MeantLast(map[], fs, j);
      OnlyNullIsInvalid(fs[j].value);
    }
  }

  lemma {:induction false} FieldIff(fs: seq<Field>, i: nat)
    requires i < |fs| && Survives(fs, i)
    ensures SameAt(fs, fs[i].name) <==> FieldOk(fs, i)
    decreases fs, 1
  {
    if fs[i].value == TNoop {
      NoopIff(fs, i);
    } else {
      PutLast(map[], fs, i);
      MeantLast(map[], fs, i);
      MeantIff(fs[i].value);
    }
  }

  lemma SameIfAbsent(fs: seq<Field>, name: bytes)
    requires name !in PutAll(map[], fs) && name !in MeantPut(map[], fs)
    ensures SameAt(fs, name)
  {
  }

  lemma SameEverywhere(fs: seq<Field>)
    requires forall name :: SameAt(fs, name)
    ensures PutAll(map[], fs) == MeantPut(map[], fs)
  {
    var d, m := PutAll(map[], fs), MeantPut(map[], fs);
    assert forall name :: SameAt(fs, name) ==> (name in d <==> name in m);
    assert forall name :: SameAt(fs, name) && name in d ==> d[name] == m[name];
  }

  lemma {:induction false} FieldsIff(fs: seq<Field>)
    ensures PutAll(map[], fs) == MeantPut(map[], fs)
      <==> forall i :: 0 <= i < |fs| && Survives(fs, i) ==> FieldOk(fs, i)
    decreases fs, 2
  {
    hide FieldOk, Survives, PutAll, MeantPut;
    if forall i :: 0 <= i < |fs| && Survives(fs, i) ==> FieldOk(fs, i) {
      forall name ensures SameAt(fs, name) {
        if k :| 0 <= k < |fs| && fs[k].name == name {
          var i := LastNamed(fs, k);
          FieldIff(fs, i);
        } else {
          PutOthers(map[], fs, name);
          MeantOthers(map[], fs, name);
          SameIfAbsent(fs, name);
        }
      }
      SameEverywhere(fs);
    }
    if PutAll(map[], fs) == MeantPut(map[], fs) {
      forall i | 0 <= i < |fs| && Survives(fs, i) ensures FieldOk(fs, i) {
        FieldIff(fs, i);
      }
    }
  }

  // ----- all trees -----

  lemma {:induction false} MeantIff(t: Tree)
    ensures t != TNoop ==> (Denote(t) == Meant(t) <==> NoNoop(t))
    decreases t, 0
  {
    match t
    case TArray(items) => ItemsIff(items);
    case TCounted(_, items) => ItemsIff(items);
    case TObject(fields) => FieldsIff(fields);
    case _ =>
  }

  /** An encoding, whatever follows it, is read as the specification means it if and only if there
      is no no-op in it at any depth. */
  lemma ReadAsMeantIff(t: Tree, rest: bytes)
    requires Encodable(t)
    ensures (match Decode(Encode(t) + rest)
             case Parsed(v, after) => Meaning(t) == Some(v) && after == rest
             case Failed => false)
      <==> NoNoop(t)
  {
    DecodeRoundTrip(t, rest);
    MeantIff(t);
  }

  /** An array in an array with a no-op: not empty for the reader. */
  lemma NestedNoop()
    ensures Encode(TArray([TArray([TNoop])])) == [ARRAY_BEGIN, ARRAY_BEGIN, NOOP, ARRAY_END, ARRAY_END]
    ensures Decode(Encode(TArray([TArray([TNoop])]))) == Parsed(VList([VList([Invalid])]), [])
    ensures Meant(TArray([TArray([TNoop])])) == VList([VList([])])
  {
    var inner := TArray([TNoop]);
    var t := TArray([inner]);
    assert EncodeAll([TNoop]) == [NOOP];
    assert Encode(inner) == [ARRAY_BEGIN, NOOP, ARRAY_END];
    assert EncodeAll([inner]) == Encode(inner);
    assert DenoteAll([TNoop]) == [Invalid] && DenoteAll([inner]) == [VList([Invalid])];
    DecodeRoundTrip(t, []);
    assert Encode(t) + [] == Encode(t);
  }
}

/** What the encoder writes for the values the decoder produces, and the
    round trip through both: marshalling a decoded value writes its
    canonical encoding, and decoding that gives the value back. */
module EncodeLemmas {
  import opened Common
  import opened Strconv
  import opened Values
  import opened Sorting
  import opened Bencode
  import opened HashingReader
  import opened DecodeSpec
  import opened DecodeLemmas
  import opened EncodeSpec

  /** marshal on a decoded value (an int64, a string, a []interface{} or a
      map[string]interface{}) succeeds and writes the value's canonical
      encoding: list elements in order, dictionary entries by key. */
  lemma {:induction false} EncodeDecoded(b: BValue)
    ensures Enc(Dyn(b), false) == Emitted(BEncode(b), None)
    decreases b, 1
  {
    match b
    case BInt(_) =>
    case BStr(_) =>
    case BList(_) => ListDecoded(b);
    case BDict(_) => DictDecoded(b);
  }

  lemma {:induction false} ListDecoded(b: BValue)
    requires b.BList?
    ensures Enc(Dyn(b), false) == Emitted(BEncode(b), None)
    decreases b, 0, |b.items| + 1
  {
    ElemsDecoded(b, |b.items|);
  }

  lemma {:induction false} DictDecoded(b: BValue)
    requires b.BDict?
    ensures Enc(Dyn(b), false) == Emitted(BEncode(b), None)
    decreases b, 0, |b.entries| + 1
  {
    var v := Dyn(b);
    assert v.entries.Keys == b.entries.Keys;
    var keys := SortedKeys(b.entries.Keys);
    SortedKeysMembers(b.entries.Keys);
    EntriesDecoded(b, keys, |keys|);
    assert MapEnc(v, false) == Wrapped('d', EntriesUpTo(v, false, keys, |keys|));
  }

  /** The first n elements of a decoded list are written as the first n
      element encodings. */
  lemma {:induction false} ElemsDecoded(b: BValue, n: nat)
    requires b.BList? && n <= |b.items|
    ensures Dyn(b).Slice? && |Dyn(b).items| == |b.items|
    ensures ElemsUpTo(Dyn(b), false, n) == Emitted(ListBody(b, n), None)
    decreases b, 0, n
  {
    var v := Dyn(b);
    if n > 0 {
      ElemsDecoded(b, n - 1);
      EncodeDecoded(b.items[n - 1]);
      assert v.items[n - 1] == Iface(Some(Dyn(b.items[n - 1])));
      assert ElemEnc(v, false, n - 1) == Emitted(BEncode(b.items[n - 1]), None);
    }
  }

  /** The entries of the first n keys of a decoded dictionary are written
      as the first n entry encodings. */
  lemma {:induction false} EntriesDecoded(b: BValue, keys: seq<bytes>, n: nat)
    requires b.BDict? && n <= |keys| && forall i :: 0 <= i < |keys| ==> keys[i] in b.entries
    ensures Dyn(b).Map?
    ensures EntriesUpTo(Dyn(b), false, keys, n) == Emitted(DictBody(b, keys, n), None)
    decreases b, 0, n
  {
    var v := Dyn(b);
    if n > 0 {
      var k := keys[n - 1];
      EntriesDecoded(b, keys, n - 1);
      EncodeDecoded(b.entries[k]);
      assert k in v.entries && v.entries[k] == Iface(Some(Dyn(b.entries[k])));
      assert EntryEnc(v, false, k) == Emitted(StringEncoding(k) + BEncode(b.entries[k]), None);
    }
  }

  /** Marshal on a decoded value returns its canonical encoding. */
  lemma MarshalDecoded(b: BValue)
    ensures Marshalled(Dyn(b)) == Ok(BEncode(b))
  {
    EncodeDecoded(b);
  }

  /** Decoding what Marshal writes for a decoded value as an unknown item
      gives the value back and reads all of it. */
  lemma EncodeThenDecode(b: BValue, data: bytes)
    requires Representable(b) && Marshalled(Dyn(b)) == Ok(data)
    ensures ItemF(data, RState(0, false, None)).res == Ok(b)
    ensures ItemF(data, RState(0, false, None)).st.pos == |data|
  {
    MarshalDecoded(b);
    assert At(data, 0, BEncode(b)) by {
      assert data[0..|data|] == data;
    }
    ItemRoundTrip(data, RState(0, false, None), b);
  }

  /** marshalInt and marshalString on edge values: a negative integer keeps
      its sign and the empty string is "0:". */
  lemma ScalarExamples()
    ensures Marshalled(Int(Native, -1)) == Ok("i-1e")
    ensures Marshalled(Uint(W8, 0)) == Ok("i0e")
    ensures Marshalled(Str([])) == Ok("0:")
  {
    FormatIntRoundTrip(-1);
    assert FormatInt(-1) == "-1";
    assert IntEncoding(-1) == "i-1e";
    assert Enc(Int(Native, -1), false) == Emitted("i-1e", None);
    assert FormatUint(0) == "0";
    assert UintEncoding(0) == "i0e";
    assert Enc(Uint(W8, 0), false) == Emitted("i0e", None);
    assert FormatInt(0) == "0";
    assert StringEncoding([]) == "0:";
    assert Enc(Str([]), false) == Emitted("0:", None);
  }

  /** A list of two empty lists. */
  lemma NestedEmptyLists()
    ensures Marshalled(Slice(TSlice(TInt(Native)), [Slice(TInt(Native), []), Slice(TInt(Native), [])])) == Ok("llelee")
  {
    var v := Slice(TSlice(TInt(Native)), [Slice(TInt(Native), []), Slice(TInt(Native), [])]);
    var e := Slice(TInt(Native), []);
    assert Enc(e, false) == Emitted("le", None);
    assert ElemsUpTo(v, false, 1) == Emitted("le", None);
    assert ElemsUpTo(v, false, 2) == Emitted("lele", None);
    assert Enc(v, false) == Emitted("llelee", None);
  }

  /** marshalMap writes the entries by key, whatever the map's order. */
  lemma MapInKeyOrder()
    ensures var v := Map(StringKey, TInt(Native), map["b" := Int(Native, 1), "a" := Int(Native, 2)]);
            Marshalled(v) == Ok("d" + (StringEncoding("a") + IntEncoding(2) + (StringEncoding("b") + IntEncoding(1))) + "e")
  {
    var v := Map(StringKey, TInt(Native), map["b" := Int(Native, 1), "a" := Int(Native, 2)]);
    MapKeysAB(v);
    MapBodyAB(v);
  }

  lemma MapKeysAB(v: GoValue)
    requires v == Map(StringKey, TInt(Native), map["b" := Int(Native, 1), "a" := Int(Native, 2)])
    ensures MapEnc(v, false) == Wrapped('d', EntriesUpTo(v, false, ["a", "b"], 2))
  {
    assert v.entries.Keys == {"a", "b"};
    TwoKeysSorted();
    MapEntries(v, false);
  }

  lemma MapBodyAB(v: GoValue)
    requires v == Map(StringKey, TInt(Native), map["b" := Int(Native, 1), "a" := Int(Native, 2)])
    ensures EntriesUpTo(v, false, ["a", "b"], 2)
            == Emitted(StringEncoding("a") + IntEncoding(2) + (StringEncoding("b") + IntEncoding(1)), None)
  {
    assert EntriesUpTo(v, false, ["a", "b"], 1) == Emitted(StringEncoding("a") + IntEncoding(2), None);
  }

  lemma TwoKeysSorted()
    ensures SortedKeys({"a", "b"}) == ["a", "b"]
  {
    var keys := SortedKeys({"a", "b"});
    SortedKeysMembers({"a", "b"});
    SortedKeysAscending({"a", "b"});
    assert "a" in keys && "b" in keys;
    assert Less("a", "b");
    LessAsymmetric("a", "b");
    assert Less(keys[0], keys[1]);
  }

  /** Kinds the encoder does not handle are refused with no bytes written; a
      map with non-string keys is refused after its 'd'. */
  lemma RefusedKinds()
    ensures Enc(Unsupported, false) == Emitted([], Some(UnknownKind))
    ensures Enc(Ptr(TInt(Native), None), false) == Emitted([], Some(UnknownKind))
    ensures Enc(Map(OtherKey, TInt(Native), map["k" := Int(Native, 1)]), false) == Emitted("d", Some(NonStringMapKey))
    ensures Enc(Map(OtherKey, TInt(Native), map[]), false) == Emitted("de", None)
  {
    var m := Map(OtherKey, TInt(Native), map[]);
    assert m.entries.Keys == {};
    assert SortedKeys({}) == [];
  }

  /** The read-only error (a run-time panic in Go) arises only from a
      non-empty list reached through an unexported field: on an Encodable
      value the encoder never reports it. */
  lemma {:induction false} EncodableNeverPanics(v: GoValue, ro: bool)
    requires Encodable(v, ro)
    ensures Enc(v, ro).err != Some(ReadOnlyInterface)
    decreases v, 1
  {
    match v
    case Slice(_, items) =>
      ElemsNeverPanic(v, ro, |items|);
    case Array(_, items) =>
      ElemsNeverPanic(v, ro, |items|);
    case Map(_, _, m) =>
      if !(v.key == OtherKey && |v.entries| > 0) {
        var keys := SortedKeys(m.Keys);
        EntriesNeverPanic(v, ro, keys, |keys|);
      }
    case Struct(_) =>
      var order := FieldOrder(v);
      StructFields(v, ro);
      FieldsNeverPanic(v, ro, order, |order|);
    case Ptr(_, ref) =>
      if ref.Some? {
        EncodableNeverPanics(ref.value, ro);
      }
    case Iface(d) =>
      if d.Some? {
        EncodableNeverPanics(d.value, ro);
      }
    case _ =>
  }

  lemma {:induction false} ElemsNeverPanic(v: GoValue, ro: bool, n: nat)
    requires (v.Slice? || v.Array?) && n <= |v.items| && Encodable(v, ro)
    ensures ElemsUpTo(v, ro, n).err != Some(ReadOnlyInterface)
    decreases v, 0, n
  {
    if n > 0 {
      ElemsNeverPanic(v, ro, n - 1);
      assert Encodable(v.items[n - 1], ro);
      EncodableNeverPanics(v.items[n - 1], false);
    }
  }

  lemma {:induction false} EntriesNeverPanic(v: GoValue, ro: bool, keys: seq<bytes>, n: nat)
    requires v.Map? && n <= |keys| && Encodable(v, ro)
    ensures EntriesUpTo(v, ro, keys, n).err != Some(ReadOnlyInterface)
    decreases v, 0, n
  {
    if n > 0 {
      EntriesNeverPanic(v, ro, keys, n - 1);
      var k := keys[n - 1];
      if k in v.entries {
        assert Encodable(v.entries[k], ro);
        EncodableNeverPanics(v.entries[k], ro);
      }
    }
  }

  lemma {:induction false} FieldsNeverPanic(v: GoValue, ro: bool, order: seq<Positioned>, n: nat)
    requires InFields(v, order) && n <= |order| && Encodable(v, ro)
    ensures FieldsUpTo(v, ro, order, n).err != Some(ReadOnlyInterface)
    decreases v, 0, n
  {
    if n > 0 {
      FieldsNeverPanic(v, ro, order, n - 1);
      var p := order[n - 1].pos;
      assert v.fields[p].value == v.fields[p].value;
      EncodableNeverPanics(v.fields[p].value, FieldReadOnly(v, ro, p));
    }
  }
}

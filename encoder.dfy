/** The encoder: encodeState appends to a growable buffer, one marshal
    routine per kind; Marshal and Encoder wrap it. Every routine is proved to
    append exactly what EncodeSpec.Enc says and to fail with its error. */
module Encoder {
  import opened Common
  import opened Strconv
  import opened Values
  import opened Sorting
  import opened TagParsing
  import opened Bencode
  import opened EncodeSpec

  class EncodeState {
    var buf: bytes

    constructor()
      ensures buf == []
    {
      buf := [];
    }

    method Reset()
      modifies this
      ensures buf == []
    {
      buf := [];
    }

    /** marshal: dispatch on the kind of v. The flag ro is the read-only
        mark reflection keeps on values reached through unexported fields. */
    method Marshal(v: GoValue, ro: bool) returns (err: Option<Error>)
      modifies this
      ensures buf == old(buf) + Enc(v, ro).out && err == Enc(v, ro).err
      decreases v, 2
    {
      match v
      case Int(_, i) =>
        MarshalInt(i);
        err := None;
      case Uint(_, u) =>
        MarshalUnsignedInt(u);
        err := None;
      case Str(s) =>
        MarshalString(s);
        err := None;
      case ByteSlice(b) =>
        MarshalString(b);
        err := None;
      case ByteArray(b) =>
        MarshalByteArray(b);
        err := None;
      case Slice(_, _) =>
        err := MarshalCollectionAsList(v, ro);
      case Array(_, _) =>
        err := MarshalCollectionAsList(v, ro);
      case Map(_, _, _) =>
        err := MarshalMap(v, ro);
      case Struct(_) =>
        err := MarshalStruct(v, ro);
      case Ptr(_, ref) =>
        if ref.Some? {
          err := Marshal(ref.value, ro);
        } else {
          err := Some(UnknownKind);
        }
      case Iface(d) =>
        if d.Some? {
          err := Marshal(d.value, ro);
        } else {
          err := Some(UnknownKind);
        }
      case Unsupported =>
        err := Some(UnknownKind);
    }

    /** marshalInt: 'i', the decimal value, 'e'. */
    method MarshalInt(i: int)
      modifies this
      ensures buf == old(buf) + IntEncoding(i)
    {
      buf := buf + "i";
      buf := buf + FormatInt(i);
      buf := buf + "e";
    }

    /** marshalUnsignedInt: 'i', the decimal value, 'e'. */
    method MarshalUnsignedInt(u: nat)
      modifies this
      ensures buf == old(buf) + UintEncoding(u)
    {
      buf := buf + "i";
      buf := buf + FormatUint(u);
      buf := buf + "e";
    }

    /** marshalString, and marshalSlice for a byte slice: the length, ':',
        the bytes. */
    method MarshalString(s: bytes)
      modifies this
      ensures buf == old(buf) + StringEncoding(s)
    {
      buf := buf + FormatInt(|s|);
      buf := buf + ":";
      buf := buf + s;
    }

    /** marshalArray for a byte array: the length, ':', then the bytes one at
        a time. */
    method MarshalByteArray(b: bytes)
      modifies this
      ensures buf == old(buf) + StringEncoding(b)
    {
      buf := buf + FormatInt(|b|);
      buf := buf + ":";
      ghost var start := buf;
      var i := 0;
      while i < |b|
        invariant 0 <= i <= |b| && buf == start + b[..i]
      {
        buf := buf + [b[i]];
        assert b[..i + 1] == b[..i] + [b[i]];
        i := i + 1;
      }
      assert b[..i] == b;
    }

    /** marshalCollectionAsList: 'l', each element in order, 'e'. */
    method MarshalCollectionAsList(v: GoValue, ro: bool) returns (err: Option<Error>)
      requires v.Slice? || v.Array?
      modifies this
      ensures buf == old(buf) + Enc(v, ro).out && err == Enc(v, ro).err
      decreases v, 1
    {
      buf := buf + "l";
      ghost var body := ElemsUpTo(v, ro, |v.items|);
      err := MarshalElements(v, ro);
      AppendAssoc(old(buf), "l", body.out);
      if err.None? {
        buf := buf + "e";
        AppendAssoc(old(buf), "l" + body.out, "e");
      }
    }

    /** The loop of marshalCollectionAsList: each element is boxed in an
        interface and marshalled from there. */
    method MarshalElements(v: GoValue, ro: bool) returns (err: Option<Error>)
      requires v.Slice? || v.Array?
      modifies this
      ensures buf == old(buf) + ElemsUpTo(v, ro, |v.items|).out && err == ElemsUpTo(v, ro, |v.items|).err
      decreases v, 0
    {
      err := None;
      var i := 0;
      ghost var done := Emitted([], None);
      while i < |v.items| && err.None?
        invariant 0 <= i <= |v.items| && done == ElemsUpTo(v, ro, i)
        invariant buf == old(buf) + done.out && err == done.err
      {
        ghost var elem := ElemEnc(v, ro, i);
        if ro {
          err := Some(ReadOnlyInterface);
        } else {
          err := Marshal(v.items[i], false);
        }
        ElemsStep(v, ro, i);
        AppendAssoc(old(buf), done.out, elem.out);
        done := Emitted(done.out + elem.out, elem.err);
        i := i + 1;
      }
      if err.Some? {
        ElemsStop(v, ro, i, |v.items|);
      }
    }

    /** marshalMap: takes the keys in reflection's unspecified order, checks
        that they are strings while copying them, sorts the copy in place by
        the keys' bytes, then writes each key and its value. */
    method MarshalMap(v: GoValue, ro: bool) returns (err: Option<Error>)
      requires v.Map?
      modifies this
      ensures buf == old(buf) + MapEnc(v, ro).out && err == MapEnc(v, ro).err
      decreases v, 1
    {
      buf := buf + "d";
      var ok, keys := SortedStringKeys(v);
      if !ok {
        return Some(NonStringMapKey);
      }
      MapEntries(v, ro);
      ghost var body := EntriesUpTo(v, ro, keys, |keys|);
      err := MarshalEntries(v, ro, keys);
      AppendAssoc(old(buf), "d", body.out);
      if err.None? {
        buf := buf + "e";
        AppendAssoc(old(buf), "d" + body.out, "e");
      }
    }

    /** The loop of marshalMap over the sorted keys: each key as a string,
        then the value stored under it. */
    method MarshalEntries(v: GoValue, ro: bool, keys: seq<bytes>) returns (err: Option<Error>)
      requires v.Map?
      modifies this
      ensures buf == old(buf) + EntriesUpTo(v, ro, keys, |keys|).out && err == EntriesUpTo(v, ro, keys, |keys|).err
      decreases v, 0, 1
    {
      err := None;
      var j := 0;
      ghost var done := Emitted([], None);
      while j < |keys| && err.None?
        invariant 0 <= j <= |keys| && done == EntriesUpTo(v, ro, keys, j)
        invariant buf == old(buf) + done.out && err == done.err
      {
        ghost var entry := EntryEnc(v, ro, keys[j]);
        err := MarshalEntry(v, ro, keys[j]);
        EntriesStep(v, ro, keys, j);
        AppendAssoc(old(buf), done.out, entry.out);
        done := Emitted(done.out + entry.out, entry.err);
        j := j + 1;
      }
      if err.Some? {
        EntriesStop(v, ro, keys, j, |keys|);
      }
    }

    /** One entry of marshalMap: the key as a string, then its value. */
    method MarshalEntry(v: GoValue, ro: bool, key: bytes) returns (err: Option<Error>)
      requires v.Map?
      modifies this
      ensures buf == old(buf) + EntryEnc(v, ro, key).out && err == EntryEnc(v, ro, key).err
      decreases v, 0, 0
    {
      MarshalString(key);
      if key in v.entries {
        err := Marshal(v.entries[key], ro);
        AppendAssoc(old(buf), StringEncoding(key), Enc(v.entries[key], ro).out);
      } else {
        err := Some(UnknownKind);
      }
    }

    /** marshalStruct: gathers the fields whose effective key is not empty,
        sorts them in place by that key, then writes each key and value. */
    method MarshalStruct(v: GoValue, ro: bool) returns (err: Option<Error>)
      requires v.Struct?
      modifies this
      ensures buf == old(buf) + StructEnc(v, ro).out && err == StructEnc(v, ro).err
      decreases v, 1
    {
      buf := buf + "d";
      var order := FieldsByKey(v);
      StructFields(v, ro);
      ghost var body := FieldsUpTo(v, ro, order, |order|);
      err := MarshalFields(v, ro, order);
      AppendAssoc(old(buf), "d", body.out);
      if err.None? {
        buf := buf + "e";
        AppendAssoc(old(buf), "d" + body.out, "e");
      }
    }

    /** The loop of marshalStruct over the sorted fields: each key as a
        string, then the field's value, read-only when the field is
        unexported. */
    method MarshalFields(v: GoValue, ro: bool, order: seq<Positioned>) returns (err: Option<Error>)
      requires InFields(v, order)
      modifies this
      ensures buf == old(buf) + FieldsUpTo(v, ro, order, |order|).out && err == FieldsUpTo(v, ro, order, |order|).err
      decreases v, 0, 1
    {
      err := None;
      var j := 0;
      ghost var done := Emitted([], None);
      while j < |order| && err.None?
        invariant 0 <= j <= |order| && done == FieldsUpTo(v, ro, order, j)
        invariant buf == old(buf) + done.out && err == done.err
      {
        ghost var field := FieldEnc(v, ro, order[j]);
        err := MarshalField(v, ro, order[j]);
        FieldsStep(v, ro, order, j);
        AppendAssoc(old(buf), done.out, field.out);
        done := Emitted(done.out + field.out, field.err);
        j := j + 1;
      }
      if err.Some? {
        FieldsStop(v, ro, order, j, |order|);
      }
    }

    /** One field of marshalStruct: the key as a string, then the field's
        value, read-only when the field is unexported. */
    method MarshalField(v: GoValue, ro: bool, f: Positioned) returns (err: Option<Error>)
      requires v.Struct? && f.pos < |v.fields|
      modifies this
      ensures buf == old(buf) + FieldEnc(v, ro, f).out && err == FieldEnc(v, ro, f).err
      decreases v, 0, 0
    {
      MarshalString(f.name);
      err := Marshal(v.fields[f.pos].value, ro || !IsExported(v.fields[f.pos].name));
      AppendAssoc(old(buf), StringEncoding(f.name), Enc(v.fields[f.pos].value, FieldReadOnly(v, ro, f.pos)).out);
    }
  }

  /** The key check of marshalMap: copies the keys into a fresh array, and
      fails on the first key when keys are not strings. */
  method StringKeys(kind: KeyKind, keys: seq<bytes>) returns (rawKeys: array<bytes>, ok: bool)
    ensures fresh(rawKeys)
    ensures ok <==> kind == StringKey || keys == []
    ensures ok ==> rawKeys[..] == keys
  {
    rawKeys := new bytes[|keys|];
    var i := 0;
    while i < |keys|
      invariant 0 <= i <= |keys| && rawKeys[..i] == keys[..i]
      invariant kind == OtherKey ==> i == 0
    {
      if kind == OtherKey {
        return rawKeys, false;
      }
      rawKeys[i] := keys[i];
      i := i + 1;
    }
    assert rawKeys[..] == keys;
    ok := true;
  }

  /** The key handling of marshalMap: the keys in reflection's order, checked
      to be strings while copied, then sorted in place by their bytes. */
  method SortedStringKeys(v: GoValue) returns (ok: bool, keys: seq<bytes>)
    requires v.Map?
    ensures ok <==> v.key == StringKey || |v.entries| == 0
    ensures ok ==> keys == SortedKeys(v.entries.Keys)
  {
    var mapKeys := MapKeys(v.entries);
    var rawKeys;
    rawKeys, ok := StringKeys(v.key, mapKeys);
    if !ok {
      return false, [];
    }
    SortedEnumeration(mapKeys, v.entries.Keys);
    SortInPlace(rawKeys, Id);
    keys := rawKeys[..];
  }

  /** The field selection of marshalStruct: the fields with a non-empty
      effective key, sorted in place by that key. */
  method FieldsByKey(v: GoValue) returns (order: seq<Positioned>)
    requires v.Struct?
    ensures order == FieldOrder(v)
  {
    var fields := GatherFields(TypeOf(v).decls);
    var sorted := new Positioned[|fields|](k requires 0 <= k < |fields| => fields[k]);
    assert sorted[..] == fields;
    SortInPlace(sorted, NameOf);
    order := sorted[..];
  }

  /** The first loop of marshalStruct: each field's effective key, keeping
      the fields whose key is not empty, in declaration order. */
  method GatherFields(decls: seq<FieldDecl>) returns (fields: seq<Positioned>)
    ensures fields == PositionedUpTo(EffectiveKeys(decls), |decls|)
  {
    ghost var keys := EffectiveKeys(decls);
    fields := [];
    var i := 0;
    while i < |decls|
      invariant 0 <= i <= |decls| && fields == PositionedUpTo(keys, i)
    {
      var fieldOpt := ExtractFieldOptions(decls, decls[i].name);
      assert fieldOpt == keys[i];
      ghost var before := fields;
      if |fieldOpt| != 0 {
        fields := fields + [Positioned(fieldOpt, i)];
      }
      assert fields == before + if keys[i] == [] then [] else [Positioned(keys[i], i)];
      i := i + 1;
    }
  }

  /** reflect's MapKeys: the keys of a map, each once, in an unspecified
      order. */
  method MapKeys<V>(m: map<bytes, V>) returns (keys: seq<bytes>)
    ensures |keys| == |m| && forall k :: k in keys <==> k in m
    ensures forall i, j :: 0 <= i < j < |keys| ==> keys[i] != keys[j]
  {
    keys := [];
    var pending := m.Keys;
    while pending != {}
      invariant pending <= m.Keys && |keys| + |pending| == |m|
      invariant forall k :: k in keys <==> k in m && k !in pending
      invariant forall i, j :: 0 <= i < j < |keys| ==> keys[i] != keys[j]
      decreases |pending|
    {
      var k :| k in pending;
      keys := keys + [k];
      pending := pending - {k};
    }
  }

  /** Marshal: the encoding of v, or the error and no bytes. */
  method Marshal(v: GoValue) returns (r: Result<bytes>)
    ensures r == Marshalled(v)
  {
    var e := new EncodeState();
    var err := e.Marshal(v, false);
    if err.Some? {
      return Err(err.value);
    }
    assert e.buf == Enc(v, false).out;
    return Ok(e.buf);
  }

  /** An encoder writing to an in-memory writer: out is everything written. */
  class Encoder {
    var out: bytes
    const e: EncodeState

    constructor()
      ensures out == [] && fresh(e)
    {
      out := [];
      e := new EncodeState();
    }

    /** Encode: resets the buffer, marshals v, and writes the buffer only if
        marshalling succeeded. */
    method Encode(v: GoValue) returns (err: Option<Error>)
      modifies this, e
      ensures err == Enc(v, false).err && e.buf == Enc(v, false).out
      ensures out == if err.None? then old(out) + Enc(v, false).out else old(out)
    {
      e.Reset();
      err := e.Marshal(v, false);
      if err.Some? {
        return;
      }
      out := out + e.buf;
    }
  }
}

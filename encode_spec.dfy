/** The encoder as functions: what marshal appends to the buffer for a Go
    value, and the error it stops with. Output written before an error stays
    in the buffer, so the function returns both. */
module EncodeSpec {
  import opened Common
  import opened Strconv
  import opened Values
  import opened Sorting
  import opened TagParsing
  import opened Bencode

  /** The bytes appended and the error, if any. */
  datatype Emitted = Emitted(out: bytes, err: Option<Error>)

  /** a, then b unless a failed. */
  function Then(a: Emitted, b: Emitted): Emitted {
    if a.err.Some? then a else Emitted(a.out + b.out, b.err)
  }

  lemma ThenStops(a: Emitted, b: Emitted)
    requires a.err.Some?
    ensures Then(a, b) == a
  {
  }

  /** b preceded by bytes written unconditionally. */
  function Prefixed(p: bytes, b: Emitted): Emitted {
    Emitted(p + b.out, b.err)
  }

  /** A collection between its opening byte and an 'e' that is written only
      if the body succeeded. */
  function Wrapped(open: byte, body: Emitted): Emitted {
    if body.err.Some? then Emitted([open] + body.out, body.err)
    else Emitted([open] + body.out + "e", None)
  }

  /** positionedField: a struct field's effective key and its index. */
  datatype Positioned = Positioned(name: bytes, pos: nat)

  function NameOf(f: Positioned): bytes {
    f.name
  }

  /** The effective key of each declared field, in declaration order. */
  function EffectiveKeys(decls: seq<FieldDecl>): (r: seq<bytes>)
    ensures |r| == |decls|
  {
    seq(|decls|, i requires 0 <= i < |decls| => ExtractFieldOptions(decls, decls[i].name))
  }

  /** The fields among the first n whose effective key is not empty, in
      declaration order. */
  function PositionedUpTo(keys: seq<bytes>, n: nat): (r: seq<Positioned>)
    requires n <= |keys|
    ensures |r| <= n
  {
    if n == 0 then []
    else PositionedUpTo(keys, n - 1) + if keys[n - 1] == [] then [] else [Positioned(keys[n - 1], n - 1)]
  }

  /** Each gathered field is one of the first n, keyed by its effective key,
      which is not empty. */
  lemma {:induction false} PositionedUpToSound(keys: seq<bytes>, n: nat)
    requires n <= |keys|
    ensures forall f :: f in PositionedUpTo(keys, n) ==> f.pos < n && f.name != [] && f.name == keys[f.pos]
  {
    if n > 0 {
      PositionedUpToSound(keys, n - 1);
    }
  }

  /** Every field among the first n with a non-empty effective key is
      gathered. */
  lemma {:induction false} PositionedUpToComplete(keys: seq<bytes>, n: nat, i: nat)
    requires i < n <= |keys| && keys[i] != []
    ensures Positioned(keys[i], i) in PositionedUpTo(keys, n)
  {
    if i < n - 1 {
      PositionedUpToComplete(keys, n - 1, i);
    }
  }

  /** The order marshalStruct writes a struct's fields in: by effective key. */
  function FieldOrder(v: GoValue): (r: seq<Positioned>)
    requires v.Struct?
  {
    var keys := EffectiveKeys(TypeOf(v).decls);
    SortBy(PositionedUpTo(keys, |keys|), NameOf)
  }

  /** The written fields are exactly the fields with a non-empty effective
      key, each once, in ascending key order. */
  lemma FieldOrderSpec(v: GoValue)
    requires v.Struct?
    ensures var decls := TypeOf(v).decls;
            var keys := EffectiveKeys(decls);
            && multiset(FieldOrder(v)) == multiset(PositionedUpTo(keys, |keys|))
            && SortedBy(FieldOrder(v), NameOf)
            && forall f :: f in FieldOrder(v) ==>
                 f.pos < |v.fields| && f.name != [] && f.name == ExtractFieldOptions(decls, decls[f.pos].name)
  {
    var keys := EffectiveKeys(TypeOf(v).decls);
    var fields := PositionedUpTo(keys, |keys|);
    SortByPermutes(fields, NameOf);
    SortBySorted(fields, NameOf);
    FieldOrderSound(v);
  }

  /** Each written field is a declared field keyed by its non-empty
      effective key. */
  lemma FieldOrderSound(v: GoValue)
    requires v.Struct?
    ensures var decls := TypeOf(v).decls;
            forall f :: f in FieldOrder(v) ==>
              f.pos < |v.fields| && f.name != [] && f.name == ExtractFieldOptions(decls, decls[f.pos].name)
  {
    var keys := EffectiveKeys(TypeOf(v).decls);
    var fields := PositionedUpTo(keys, |keys|);
    SortByPermutes(fields, NameOf);
    PositionedUpToSound(keys, |keys|);
    forall f | f in FieldOrder(v)
      ensures f in fields
    {
      assert f in multiset(FieldOrder(v));
    }
  }

  /** What marshal writes for v. The flag ro says that v was reached through
      an unexported struct field: reflection then refuses to hand out the
      elements of a list as interfaces. */
  ghost function Enc(v: GoValue, ro: bool): Emitted
    decreases v, 2, 0
  {
    match v
    case Int(_, i) => Emitted(IntEncoding(i), None)
    case Uint(_, u) => Emitted(UintEncoding(u), None)
    case Str(s) => Emitted(StringEncoding(s), None)
    case ByteSlice(b) => Emitted(StringEncoding(b), None)
    case ByteArray(b) => Emitted(StringEncoding(b), None)
    case Slice(_, items) => Wrapped('l', ElemsUpTo(v, ro, |items|))
    case Array(_, items) => Wrapped('l', ElemsUpTo(v, ro, |items|))
    case Map(_, _, _) => MapEnc(v, ro)
    case Struct(_) => StructEnc(v, ro)
    case Ptr(_, ref) => if ref.Some? then Enc(ref.value, ro) else Emitted([], Some(UnknownKind))
    case Iface(d) => if d.Some? then Enc(d.value, ro) else Emitted([], Some(UnknownKind))
    case Unsupported => Emitted([], Some(UnknownKind))
  }

  /** The first n elements of a slice or array, in order. Each element is
      boxed in an interface and unboxed again, which drops the read-only mark,
      and fails when the mark is set. */
  ghost function ElemsUpTo(v: GoValue, ro: bool, n: nat): Emitted
    requires (v.Slice? || v.Array?) && n <= |v.items|
    decreases v, 0, n
  {
    if n == 0 then Emitted([], None) else Then(ElemsUpTo(v, ro, n - 1), ElemEnc(v, ro, n - 1))
  }

  /** One element, boxed and unboxed again. */
  ghost function ElemEnc(v: GoValue, ro: bool, i: nat): Emitted
    requires (v.Slice? || v.Array?) && i < |v.items|
    decreases v, 0, 0
  {
    if ro then Emitted([], Some(ReadOnlyInterface)) else Enc(v.items[i], false)
  }

  /** marshalMap: a map with keys of another kind than string fails on its
      first key; otherwise its entries in ascending key order. */
  ghost function MapEnc(v: GoValue, ro: bool): Emitted
    requires v.Map?
    decreases v, 1, 0
  {
    if v.key == OtherKey && |v.entries| > 0 then Emitted("d", Some(NonStringMapKey))
    else
      var keys := SortedKeys(v.entries.Keys);
      Wrapped('d', EntriesUpTo(v, ro, keys, |keys|))
  }

  /** The entries of the first n of the given keys: each key as a string,
      then its value. */
  ghost function EntriesUpTo(v: GoValue, ro: bool, keys: seq<bytes>, n: nat): Emitted
    requires v.Map? && n <= |keys|
    decreases v, 0, n
  {
    if n == 0 then Emitted([], None) else Then(EntriesUpTo(v, ro, keys, n - 1), EntryEnc(v, ro, keys[n - 1]))
  }

  /** One entry: the key as a string, then the value under it. Looking up a
      missing key yields reflection's invalid value, whose kind is unknown. */
  ghost function EntryEnc(v: GoValue, ro: bool, k: bytes): Emitted
    requires v.Map?
    decreases v, 0, 0
  {
    Prefixed(StringEncoding(k), if k in v.entries then Enc(v.entries[k], ro) else Emitted([], Some(UnknownKind)))
  }

  /** marshalStruct: the fields with a non-empty effective key, by key. */
  ghost function StructEnc(v: GoValue, ro: bool): Emitted
    requires v.Struct?
    decreases v, 1, 0
  {
    var order := FieldOrder(v);
    FieldOrderSpec(v);
    Wrapped('d', FieldsUpTo(v, ro, order, |order|))
  }

  /** Whether a field's value is read-only: the struct itself is, or the
      field is unexported. */
  predicate FieldReadOnly(v: GoValue, ro: bool, pos: nat)
    requires v.Struct? && pos < |v.fields|
  {
    ro || !IsExported(v.fields[pos].name)
  }

  /** Every position in the order names a field of the struct. */
  predicate InFields(v: GoValue, order: seq<Positioned>) {
    v.Struct? && forall j :: 0 <= j < |order| ==> order[j].pos < |v.fields|
  }

  /** The first n fields of the given order: each key as a string, then the
      field's value. */
  ghost function FieldsUpTo(v: GoValue, ro: bool, order: seq<Positioned>, n: nat): Emitted
    requires InFields(v, order) && n <= |order|
    decreases v, 0, n
  {
    if n == 0 then Emitted([], None) else Then(FieldsUpTo(v, ro, order, n - 1), FieldEnc(v, ro, order[n - 1]))
  }

  /** One field: its key as a string, then its value. */
  ghost function FieldEnc(v: GoValue, ro: bool, f: Positioned): Emitted
    requires v.Struct? && f.pos < |v.fields|
    decreases v, 0, 0
  {
    Prefixed(StringEncoding(f.name), Enc(v.fields[f.pos].value, FieldReadOnly(v, ro, f.pos)))
  }

  /** The element step: an element appends its own output after the previous
      ones, and its error becomes the list's. */
  lemma ElemsStep(v: GoValue, ro: bool, i: nat)
    requires (v.Slice? || v.Array?) && i < |v.items| && ElemsUpTo(v, ro, i).err.None?
    ensures ElemsUpTo(v, ro, i + 1) == Emitted(ElemsUpTo(v, ro, i).out + ElemEnc(v, ro, i).out, ElemEnc(v, ro, i).err)
  {
  }

  lemma EntriesStep(v: GoValue, ro: bool, keys: seq<bytes>, j: nat)
    requires v.Map? && j < |keys|
    requires EntriesUpTo(v, ro, keys, j).err.None?
    ensures EntriesUpTo(v, ro, keys, j + 1)
            == Emitted(EntriesUpTo(v, ro, keys, j).out + EntryEnc(v, ro, keys[j]).out, EntryEnc(v, ro, keys[j]).err)
  {
  }

  /** A map with string keys (or no keys) is its entries in ascending key
      order between 'd' and 'e'. */
  lemma MapEntries(v: GoValue, ro: bool)
    requires v.Map? && (v.key == StringKey || |v.entries| == 0)
    ensures var keys := SortedKeys(v.entries.Keys);
            MapEnc(v, ro) == Wrapped('d', EntriesUpTo(v, ro, keys, |keys|))
  {
  }

  /** A struct is its fields in key order between 'd' and 'e'. */
  lemma StructFields(v: GoValue, ro: bool)
    requires v.Struct?
    ensures var order := FieldOrder(v);
            && InFields(v, order)
            && StructEnc(v, ro) == Wrapped('d', FieldsUpTo(v, ro, order, |order|))
  {
    FieldOrderSpec(v);
  }

  lemma FieldsStep(v: GoValue, ro: bool, order: seq<Positioned>, j: nat)
    requires InFields(v, order) && j < |order|
    requires FieldsUpTo(v, ro, order, j).err.None?
    ensures FieldsUpTo(v, ro, order, j + 1)
            == Emitted(FieldsUpTo(v, ro, order, j).out + FieldEnc(v, ro, order[j]).out, FieldEnc(v, ro, order[j]).err)
  {
  }

  /** A read-only list fails on its first element, after its 'l'; an empty
      one is written as usual. */
  lemma ReadOnlyList(v: GoValue)
    requires v.Slice? || v.Array?
    ensures |v.items| > 0 ==> Enc(v, true) == Emitted("l", Some(ReadOnlyInterface))
    ensures |v.items| == 0 ==> Enc(v, true) == Emitted("le", None)
  {
    if |v.items| > 0 {
      ElemsStop(v, true, 1, |v.items|);
    }
  }

  /** Once an element fails, no later element is written. */
  lemma {:induction false} ElemsStop(v: GoValue, ro: bool, n: nat, m: nat)
    requires (v.Slice? || v.Array?) && n <= m <= |v.items| && ElemsUpTo(v, ro, n).err.Some?
    ensures ElemsUpTo(v, ro, m) == ElemsUpTo(v, ro, n)
    decreases m - n
  {
    if m > n {
      ElemsStop(v, ro, n, m - 1);
      ThenStops(ElemsUpTo(v, ro, m - 1), ElemEnc(v, ro, m - 1));
    }
  }

  /** Once an entry fails, no later entry is written. */
  lemma {:induction false} EntriesStop(v: GoValue, ro: bool, keys: seq<bytes>, n: nat, m: nat)
    requires v.Map? && n <= m <= |keys|
    requires EntriesUpTo(v, ro, keys, n).err.Some?
    ensures EntriesUpTo(v, ro, keys, m) == EntriesUpTo(v, ro, keys, n)
    decreases m - n
  {
    if m > n {
      EntriesStop(v, ro, keys, n, m - 1);
      ThenStops(EntriesUpTo(v, ro, keys, m - 1), EntryEnc(v, ro, keys[m - 1]));
    }
  }

  /** Once a field fails, no later field is written. */
  lemma {:induction false} FieldsStop(v: GoValue, ro: bool, order: seq<Positioned>, n: nat, m: nat)
    requires InFields(v, order) && n <= m <= |order|
    requires FieldsUpTo(v, ro, order, n).err.Some?
    ensures FieldsUpTo(v, ro, order, m) == FieldsUpTo(v, ro, order, n)
    decreases m - n
  {
    if m > n {
      FieldsStop(v, ro, order, n, m - 1);
      ThenStops(FieldsUpTo(v, ro, order, m - 1), FieldEnc(v, ro, order[m - 1]));
    }
  }

  /** Marshal's result: the bytes, or the error and no bytes. */
  ghost function Marshalled(v: GoValue): Result<bytes> {
    var e := Enc(v, false);
    if e.err.Some? then Err(e.err.value) else Ok(e.out)
  }

  /** No non-byte list with elements is reached through an unexported struct
      field: the values on which the encoder cannot panic. */
  predicate Encodable(v: GoValue, ro: bool) {
    match v
    case Slice(_, items) =>
      && (ro ==> items == [])
      && forall i {:trigger Encodable(items[i], ro)} :: 0 <= i < |items| ==> Encodable(items[i], ro)
    case Array(_, items) =>
      && (ro ==> items == [])
      && forall i {:trigger Encodable(items[i], ro)} :: 0 <= i < |items| ==> Encodable(items[i], ro)
    case Map(_, _, m) => forall k {:trigger Encodable(m[k], ro)} :: k in m ==> Encodable(m[k], ro)
    case Struct(fs) => forall i {:trigger fs[i].value} :: 0 <= i < |fs| ==> Encodable(fs[i].value, ro || !IsExported(fs[i].name))
    case Ptr(_, ref) => ref.Some? ==> Encodable(ref.value, ro)
    case Iface(d) => d.Some? ==> Encodable(d.value, ro)
    case _ => true
  }
}

/** The values the codec works on. Go's reflection is replaced by two closed
    datatypes: BValue, the untyped tree the decoder builds, and GoValue, the
    Go values the decoder writes into and the encoder reads (with GoType,
    their static types). */
module Values {
  import opened Common
  import opened Strconv

  /** A decoded bencode value, as unmarshalUnknownItem produces it: an
      int64, a string, a []interface{} or a map[string]interface{}. */
  datatype BValue =
    | BInt(i: int)
    | BStr(s: bytes)
    | BList(items: seq<BValue>)
    | BDict(entries: map<bytes, BValue>)

  /** The bit width of a Go integer kind; Native is `int` or `uint`. */
  datatype Width = Native | W8 | W16 | W32 | W64

  /** Whether a Go map's key type is `string`. */
  datatype KeyKind = StringKey | OtherKey

  /** A Go static type, as far as the codec inspects it. TUnsupported stands
      for every kind neither side handles (bool, floats, channels, funcs). */
  datatype GoType =
    | TInt(w: Width)
    | TUint(w: Width)
    | TString
    | TByteSlice
    | TByteArray(n: nat)
    | TSlice(elem: GoType)
    | TArray(elem: GoType, n: nat)
    | TMap(key: KeyKind, elem: GoType)
    | TStruct(decls: seq<FieldDecl>)
    | TPtr(target: GoType)
    | TIface
    | TUnsupported

  /** A struct field declaration: its name, its raw tag text and its type. */
  datatype FieldDecl = FieldDecl(name: bytes, tag: bytes, typ: GoType)

  /** A Go value. Go's []byte and [N]byte are written ByteSlice and
      ByteArray; Slice and Array are meant for other element types, a
      convention that WellTyped does not enforce. A map records whether its
      keys are strings; for other key kinds the byte keys only stand for the
      keys' identities. A field or element of static type interface{} holds an
      Iface value; a nil pointer or nil interface holds None. */
  datatype GoValue =
    | Int(w: Width, i: int)
    | Uint(w: Width, u: nat)
    | Str(s: bytes)
    | ByteSlice(b: bytes)
    | ByteArray(b: bytes)
    | Slice(elem: GoType, items: seq<GoValue>)
    | Array(elem: GoType, items: seq<GoValue>)
    | Map(key: KeyKind, elem: GoType, entries: map<bytes, GoValue>)
    | Struct(fields: seq<Field>)
    | Ptr(target: GoType, ref: Option<GoValue>)
    | Iface(dynamic: Option<GoValue>)
    | Unsupported

  /** A struct field with its current value. */
  datatype Field = Field(name: bytes, tag: bytes, value: GoValue)

  /** The static type of a value. */
  function TypeOf(v: GoValue): GoType {
    match v
    case Int(w, _) => TInt(w)
    case Uint(w, _) => TUint(w)
    case Str(_) => TString
    case ByteSlice(_) => TByteSlice
    case ByteArray(b) => TByteArray(|b|)
    case Slice(e, _) => TSlice(e)
    case Array(e, items) => TArray(e, |items|)
    case Map(k, e, _) => TMap(k, e)
    case Struct(fs) =>
      TStruct(seq(|fs|, i requires 0 <= i < |fs| => FieldDecl(fs[i].name, fs[i].tag, TypeOf(fs[i].value))))
    case Ptr(t, _) => TPtr(t)
    case Iface(_) => TIface
    case Unsupported => TUnsupported
  }

  /** The zero value of a type, as reflect.New allocates it. */
  function Zero(t: GoType): (v: GoValue)
    ensures TypeOf(v) == t
  {
    match t
    case TInt(w) => Int(w, 0)
    case TUint(w) => Uint(w, 0)
    case TString => Str([])
    case TByteSlice => ByteSlice([])
    case TByteArray(n) => ByteArray(seq(n, _ => 0 as char))
    case TSlice(e) => Slice(e, [])
    case TArray(e, n) => Array(e, seq(n, _ => Zero(e)))
    case TMap(k, e) => Map(k, e, map[])
    case TStruct(ds) =>
      var fs := seq(|ds|, i requires 0 <= i < |ds| => Field(ds[i].name, ds[i].tag, Zero(ds[i].typ)));
      assert TypeOf(Struct(fs)).decls == ds;
      Struct(fs)
    case TPtr(e) => Ptr(e, None)
    case TIface => Iface(None)
    case TUnsupported => Unsupported
  }

  /** The dynamic Go type of a decoded value. */
  function DynType(b: BValue): GoType {
    match b
    case BInt(_) => TInt(W64)
    case BStr(_) => TString
    case BList(_) => TSlice(TIface)
    case BDict(_) => TMap(StringKey, TIface)
  }

  /** The Go value unmarshalUnknownItem stores for a decoded value: int64,
      string, []interface{} or map[string]interface{}, with every element
      boxed in an interface. */
  function Dyn(b: BValue): (v: GoValue)
    ensures TypeOf(v) == DynType(b)
  {
    match b
    case BInt(i) => Int(W64, i)
    case BStr(s) => Str(s)
    case BList(items) => Slice(TIface, seq(|items|, i requires 0 <= i < |items| => Iface(Some(Dyn(items[i])))))
    case BDict(m) => Map(StringKey, TIface, map k | k in m :: Iface(Some(Dyn(m[k]))))
  }

  /** 2 to the power of the width's bit count; `int` and `uint` are 64 bits
      wide on the platforms this model assumes. */
  function Modulus(w: Width): nat {
    match w
    case W8 => 0x100
    case W16 => 0x1_0000
    case W32 => 0x1_0000_0000
    case _ => 0x1_0000_0000_0000_0000
  }

  /** reflect's SetInt on a signed integer of width w: the two's-complement
      truncation of x. */
  function WrapInt(w: Width, x: int): (r: int)
    ensures -(Modulus(w) / 2) <= r < Modulus(w) / 2
    ensures (x - r) % Modulus(w) == 0
  {
    var m := Modulus(w);
    (x + m / 2) % m - m / 2
  }

  /** reflect's SetUint on an unsigned integer of width w: x modulo 2^w. */
  function WrapUint(w: Width, x: nat): (r: nat)
    ensures r < Modulus(w)
    ensures (x - r) % Modulus(w) == 0
  {
    x % Modulus(w)
  }

  /** A value already in range is stored unchanged. */
  lemma WrapInRange(w: Width, x: int)
    requires -(Modulus(w) / 2) <= x < Modulus(w) / 2
    ensures WrapInt(w, x) == x
    ensures x >= 0 ==> WrapUint(w, x) == x
  {
    var m := Modulus(w);
    ModOfSmall(x + m / 2, m);
    if x >= 0 {
      ModOfSmall(x, m);
    }
  }

  lemma ModOfSmall(a: int, m: int)
    requires 0 <= a < m
    ensures a % m == a
  {
  }

  /** A Go identifier is exported when it starts with an upper-case letter
      (ASCII only in this model). */
  predicate IsExported(name: bytes) {
    |name| > 0 && 'A' <= name[0] <= 'Z'
  }

  /** A length that fits in an int64. */
  predicate FitsInt64(s: bytes) {
    |s| <= MaxInt64
  }

  /** Every integer fits in an int64 and every string length in an int64,
      as for anything the decoder can produce. */
  predicate Representable(b: BValue) {
    match b
    case BInt(i) => IsInt64(i)
    case BStr(s) => |s| <= MaxInt64
    case BList(items) => forall i :: 0 <= i < |items| ==> Representable(items[i])
    case BDict(m) => (forall k :: k in m ==> FitsInt64(k)) && forall v :: v in m.Values ==> Representable(v)
  }

  /** Every element, entry, field and referent has the type its container
      declares, and an interface never holds another interface, as Go's type
      system guarantees. */
  predicate WellTyped(v: GoValue) {
    match v
    case Slice(e, items) => forall i :: 0 <= i < |items| ==> TypeOf(items[i]) == e && WellTyped(items[i])
    case Array(e, items) => forall i :: 0 <= i < |items| ==> TypeOf(items[i]) == e && WellTyped(items[i])
    case Map(_, e, m) => forall k :: k in m ==> TypeOf(m[k]) == e && WellTyped(m[k])
    case Struct(fs) => forall i :: 0 <= i < |fs| ==> WellTyped(fs[i].value)
    case Ptr(t, ref) => ref.Some? ==> TypeOf(ref.value) == t && WellTyped(ref.value)
    case Iface(d) => d.Some? ==> !d.value.Iface? && WellTyped(d.value)
    case _ => true
  }

  /** Decoded values are well typed. */
  lemma {:induction false} DynWellTyped(b: BValue)
    ensures WellTyped(Dyn(b))
    decreases b, 1
  {
    match b
    case BInt(_) =>
    case BStr(_) =>
    case BList(items) => DynListWellTyped(items);
    case BDict(m) => DynDictWellTyped(m);
  }

  lemma {:induction false} DynListWellTyped(items: seq<BValue>)
    ensures WellTyped(Dyn(BList(items)))
    decreases BList(items), 0
  {
    var elems := Dyn(BList(items)).items;
    forall i | 0 <= i < |items| ensures TypeOf(elems[i]) == TIface && WellTyped(elems[i]) {
      assert elems[i] == Iface(Some(Dyn(items[i])));
      DynWellTyped(items[i]);
    }
  }

  lemma {:induction false} DynDictWellTyped(m: map<bytes, BValue>)
    ensures WellTyped(Dyn(BDict(m)))
    decreases BDict(m), 0
  {
    var entries := Dyn(BDict(m)).entries;
    forall k | k in entries ensures TypeOf(entries[k]) == TIface && WellTyped(entries[k]) {
      assert entries[k] == Iface(Some(Dyn(m[k])));
      DynWellTyped(m[k]);
    }
  }

  /** Zero values are well typed. */
  lemma {:induction false} ZeroWellTyped(t: GoType)
    ensures WellTyped(Zero(t))
  {
    match t
    case TArray(e, n) =>
      ZeroWellTyped(e);
    case TStruct(ds) =>
      forall i | 0 <= i < |ds| ensures WellTyped(Zero(ds[i].typ)) {
        ZeroWellTyped(ds[i].typ);
      }
    case _ =>
  }
}

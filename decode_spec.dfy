/** The streaming decoder as functions over the source and the reader state:
    each function is one routine of TorrentDecoder and returns its result
    with the reader state it leaves. The methods of the decoder class are
    proved equal to these. */
module DecodeSpec {
  import opened Common
  import opened Strconv
  import opened Values
  import opened HashingReader
  import opened MapBinding

  /** The outcome of decoding into a list or a dictionary: the error, if any,
      the elements stored so far (kept even on error, as they were already
      written into the target) and the reader state. */
  datatype Partial<T> = Partial(err: Option<Error>, value: T, st: RState)

  /** peek: the next byte, without consuming it. */
  function PeekByteF(data: bytes, st: RState): (r: Result<byte>)
    requires st.pos <= |data|
    ensures r.Ok? <==> st.pos < |data|
    ensures r.Ok? ==> r.value == data[st.pos]
    ensures r.Err? ==> r.error == EOF
  {
    match PeekF(data, st, 1)
    case Ok(b) => Ok(b[0])
    case Err(e) => Err(e)
  }

  /** The part shared by unmarshalInt and unmarshalUint: an 'i', then the
      bytes up to the next 'e', returned without that 'e'. */
  function IntLiteralF(data: bytes, st: RState): (r: Step<bytes>)
    requires ValidState(data, st)
    ensures ValidState(data, r.st) && st.pos <= r.st.pos
    ensures r.res.Ok? ==> r.st.pos == st.pos + |r.res.value| + 2
  {
    match PeekByteF(data, st)
    case Err(e) => Step(Err(e), st)
    case Ok(b) =>
      if b != 'i' then Step(Err(MalformedInteger), st)
      else
        var s1 := ReadByteF(data, st).st;
        var l := ReadBytesF(data, s1, 'e');
        match l.res
        case Err(e) => Step(Err(e), l.st)
        case Ok(lit) => Step(Ok(lit[..|lit| - 1]), l.st)
  }

  /** unmarshalInt: an integer parsed with ParseInt into a 64-bit target. */
  function IntF(data: bytes, st: RState): (r: Step<int>)
    requires ValidState(data, st)
    ensures ValidState(data, r.st) && st.pos <= r.st.pos
    ensures r.res.Ok? ==> IsInt64(r.res.value) && r.st.pos >= st.pos + 3
  {
    var l := IntLiteralF(data, st);
    match l.res
    case Err(e) => Step(Err(e), l.st)
    case Ok(digits) =>
      match ParseInt(digits)
      case Err(e) => Step(Err(e), l.st)
      case Ok(i) => Step(Ok(i), l.st)
  }

  /** unmarshalUint: an integer parsed with ParseUint into a 64-bit target. */
  function UintF(data: bytes, st: RState): (r: Step<nat>)
    requires ValidState(data, st)
    ensures ValidState(data, r.st) && st.pos <= r.st.pos
    ensures r.res.Ok? ==> r.res.value <= MaxUint64
  {
    var l := IntLiteralF(data, st);
    match l.res
    case Err(e) => Step(Err(e), l.st)
    case Ok(digits) =>
      match ParseUint(digits)
      case Err(e) => Step(Err(e), l.st)
      case Ok(u) => Step(Ok(u), l.st)
  }

  /** readExactly: n bytes read one at a time. Each byte read is hashed when
      hashing is on, including those read before the source runs out. */
  function ReadExactlyF(data: bytes, st: RState, n: nat): (r: Step<bytes>)
    requires ValidState(data, st)
    ensures ValidState(data, r.st) && st.pos <= r.st.pos
  {
    if st.pos + n <= |data| then
      Step(Ok(data[st.pos..st.pos + n]), Feed(st.(pos := st.pos + n), data[st.pos..st.pos + n]))
    else
      Step(Err(EOF), Feed(st.(pos := |data|), data[st.pos..]))
  }

  /** unmarshalString: a decimal length up to ':', parsed with ParseInt,
      then exactly that many bytes. A negative length, on which Go's `make`
      panics, is the error NegativeLength. */
  function StringF(data: bytes, st: RState): (r: Step<bytes>)
    requires ValidState(data, st)
    ensures ValidState(data, r.st) && st.pos <= r.st.pos
    ensures r.res.Ok? ==> r.st.pos > st.pos && |r.res.value| <= MaxInt64
  {
    var l := ReadBytesF(data, st, ':');
    match l.res
    case Err(e) => Step(Err(e), l.st)
    case Ok(lStr) =>
      match ParseInt(lStr[..|lStr| - 1])
      case Err(e) => Step(Err(e), l.st)
      case Ok(n) =>
        if n < 0 then Step(Err(NegativeLength), l.st)
        else ReadExactlyF(data, l.st, n)
  }

  /** unmarshalUnknownItem: dispatch on the next byte. */
  function ItemF(data: bytes, st: RState): (r: Step<BValue>)
    requires ValidState(data, st)
    ensures ValidState(data, r.st) && st.pos <= r.st.pos
    ensures r.res.Ok? ==> r.st.pos > st.pos
    decreases |data| - st.pos, 1
  {
    match PeekByteF(data, st)
    case Err(e) => Step(Err(e), st)
    case Ok(b) =>
      if b == 'i' then
        var r := IntF(data, st);
        Step(if r.res.Ok? then Ok(BInt(r.res.value)) else Err(r.res.error), r.st)
      else if IsDigit(b) then
        var r := StringF(data, st);
        Step(if r.res.Ok? then Ok(BStr(r.res.value)) else Err(r.res.error), r.st)
      else if b == 'l' then
        var p := ListF(data, st);
        Step(if p.err.None? then Ok(BList(p.value)) else Err(p.err.value), p.st)
      else if b == 'd' then
        var p := DictF(data, st);
        Step(if p.err.None? then Ok(BDict(p.value)) else Err(p.err.value), p.st)
      else
        Step(Err(UnknownItem), st)
  }

  /** unmarshalSlice for a []interface{} target: an 'l', then the elements,
      then an 'e'. Only the newly decoded elements are returned. */
  function ListF(data: bytes, st: RState): (r: Partial<seq<BValue>>)
    requires ValidState(data, st)
    ensures ValidState(data, r.st) && st.pos <= r.st.pos
    ensures r.err.None? ==> r.st.pos > st.pos
    decreases |data| - st.pos, 0
  {
    match PeekByteF(data, st)
    case Err(e) => Partial(Some(e), [], st)
    case Ok(b) =>
      if b != 'l' then Partial(Some(MalformedListBegin), [], st)
      else ListLoopF(data, ReadByteF(data, st).st, [])
  }

  /** The element loop of unmarshalSlice, with the elements decoded so far.
      An element that fails to decode ends the loop WITHOUT an error and
      without consuming the closing 'e'. */
  function ListLoopF(data: bytes, st: RState, acc: seq<BValue>): (r: Partial<seq<BValue>>)
    requires ValidState(data, st)
    ensures ValidState(data, r.st) && st.pos <= r.st.pos
    ensures |acc| <= |r.value| && r.value[..|acc|] == acc
    decreases |data| - st.pos, 2
  {
    match PeekByteF(data, st)
    case Err(e) => Partial(Some(e), acc, st)
    case Ok(b) =>
      if b == 'e' then Partial(None, acc, ReadByteF(data, st).st)
      else
        var r := ItemF(data, st);
        match r.res
        case Err(_) => Partial(None, acc, r.st)
        case Ok(v) =>
          var p := ListLoopF(data, r.st, acc + [v]);
          assert p.value[..|acc|] == (acc + [v])[..|acc|];
          p
  }

  /** unmarshalMap into a fresh map: a 'd', then key/value pairs, then an
      'e'. Only the newly decoded entries are returned. */
  function DictF(data: bytes, st: RState): (r: Partial<map<bytes, BValue>>)
    requires ValidState(data, st)
    ensures ValidState(data, r.st) && st.pos <= r.st.pos
    ensures r.err.None? ==> r.st.pos > st.pos
    decreases |data| - st.pos, 0
  {
    match PeekByteF(data, st)
    case Err(e) => Partial(Some(e), map[], st)
    case Ok(b) =>
      if b != 'd' then Partial(Some(MalformedDict), map[], st)
      else DictLoopF(data, ReadByteF(data, st).st, map[])
  }

  /** The entry loop of unmarshalMap, with the entries stored so far. A key
      "info" turns hashing on before its value and off after it. */
  function DictLoopF(data: bytes, st: RState, m: map<bytes, BValue>): (r: Partial<map<bytes, BValue>>)
    requires ValidState(data, st)
    ensures ValidState(data, r.st) && st.pos <= r.st.pos
    decreases |data| - st.pos, 2
  {
    match PeekByteF(data, st)
    case Err(e) => Partial(Some(e), m, st)
    case Ok(b) =>
      if b == 'e' then Partial(None, m, ReadByteF(data, st).st)
      else
        var k := StringF(data, st);
        match k.res
        case Err(e) => Partial(Some(e), m, k.st)
        case Ok(key) =>
          var info := key == "info";
          var s2 := if info then StartF(k.st) else k.st;
          var r := ItemF(data, s2);
          match r.res
          case Err(e) => Partial(Some(e), m, r.st)
          case Ok(v) => DictLoopF(data, if info then StopF(r.st) else r.st, m[key := v])
  }

  /** Decoded list elements as stored in a []interface{}. */
  function Boxed(items: seq<BValue>): (r: seq<GoValue>)
    ensures |r| == |items|
    ensures forall i :: 0 <= i < |items| ==> r[i] == Iface(Some(Dyn(items[i])))
  {
    seq(|items|, i requires 0 <= i < |items| => Iface(Some(Dyn(items[i]))))
  }

  /** Decoded dictionary entries as stored in a map[string]interface{}. */
  function BoxedMap(m: map<bytes, BValue>): (r: map<bytes, GoValue>)
    ensures r.Keys == m.Keys
    ensures forall k :: k in m ==> r[k] == Iface(Some(Dyn(m[k])))
  {
    map k | k in m :: Iface(Some(Dyn(m[k])))
  }

  /** The targets the decoder handles without a run-time panic: integers,
      strings, byte slices, []interface{}, map[string]interface{}, and
      structs onto which binding the decoded dictionary never sets a field
      reached through an unexported one; any other target is rejected with
      an error. */
  predicate Decodable(data: bytes, st: RState, v: GoValue)
    requires ValidState(data, st)
  {
    v.Ptr? && v.ref.Some? ==>
      match v.ref.value
      case Slice(e, _) => e == TIface
      case Map(k, e, _) => k == StringKey && e == TIface
      case Struct(_) =>
        && WellTyped(v.ref.value)
        && var p := DictF(data, st);
           p.err.None? ==> BindSafe(p.value, v.ref.value, false)
      case _ => true
  }

  /** The reader state unmarshalToVal leaves. */
  function UnmarshalState(data: bytes, st: RState, v: GoValue): RState
    requires ValidState(data, st)
  {
    if !v.Ptr? || v.ref.None? then st
    else match v.ref.value
      case Int(_, _) => IntF(data, st).st
      case Uint(_, _) => UintF(data, st).st
      case Str(_) => StringF(data, st).st
      case ByteSlice(_) => StringF(data, st).st
      case Slice(_, _) => ListF(data, st).st
      case Map(_, _, _) => DictF(data, st).st
      case Struct(_) => DictF(data, st).st
      case _ => st
  }

  /** A scalar target is set only on success. */
  ghost predicate SetOnSuccess<T>(v: GoValue, s: Step<T>, stored: GoValue, v': GoValue, err: Option<Error>)
    requires v.Ptr?
  {
    && (s.res.Ok? ==> v' == Ptr(v.target, Some(stored)) && err.None?)
    && (s.res.Err? ==> v' == v && err == Some(s.res.error))
  }

  /** unmarshalToVal: v' and err are what decoding into the target v may
      leave and return. A narrower integer target keeps the truncated value.
      Lists and maps keep what was stored before an error; a struct is bound
      only when its dictionary decodes. */
  ghost predicate Unmarshalled(data: bytes, st: RState, v: GoValue, v': GoValue, err: Option<Error>)
    requires ValidState(data, st)
  {
    if !v.Ptr? then v' == v && err == Some(NotAPointer)
    else if v.ref.None? then v' == v && err == Some(UnsupportedType)
    else match v.ref.value
      case Int(w, _) =>
        var s := IntF(data, st);
        SetOnSuccess(v, s, if s.res.Ok? then Int(w, WrapInt(w, s.res.value)) else Unsupported, v', err)
      case Uint(w, _) =>
        var s := UintF(data, st);
        SetOnSuccess(v, s, if s.res.Ok? then Uint(w, WrapUint(w, s.res.value)) else Unsupported, v', err)
      case Str(_) =>
        var s := StringF(data, st);
        SetOnSuccess(v, s, if s.res.Ok? then Str(s.res.value) else Unsupported, v', err)
      case ByteSlice(_) =>
        var s := StringF(data, st);
        SetOnSuccess(v, s, if s.res.Ok? then ByteSlice(s.res.value) else Unsupported, v', err)
      case Slice(e, items) =>
        var p := ListF(data, st);
        v' == Ptr(v.target, Some(Slice(e, items + Boxed(p.value)))) && err == p.err
      case Map(k, e, entries) =>
        var p := DictF(data, st);
        v' == Ptr(v.target, Some(Map(k, e, entries + BoxedMap(p.value)))) && err == p.err
      case Struct(_) =>
        var x := v.ref.value;
        var p := DictF(data, st);
        if p.err.Some? then v' == v && err == p.err
        else
          && v'.Ptr? && v'.target == v.target && v'.ref.Some?
          && (err.None? <==> AllBind(p.value, TypeOf(x).decls))
          && (err.None? ==> StructBound(p.value, x, v'.ref.value))
          && (err.Some? ==> BindError(p.value, TypeOf(x).decls, err.value))
          && MayBind(p.value, x, v'.ref.value)
      case _ => v' == v && err == Some(UnsupportedType)
  }
}

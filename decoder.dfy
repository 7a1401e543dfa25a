/** The streaming decoder: TorrentDecoder reads from a hashing reader and
    writes into Go values; Decoder wraps it for plain decoding. Every
    routine is proved to return what its counterpart in DecodeSpec returns
    and to leave the reader in the state that function computes. */
module Decoder {
  import opened Common
  import opened Strconv
  import opened Values
  import opened HashingReader
  import opened DecodeSpec
  import opened MapBinding

  /** What TorrentDecoder.Decode returns for an unmarshal outcome: the
      unmarshal error, else the hash input when "info" was met, else
      MissingInfoKey. */
  function TorrentResult(err: Option<Error>, hash: Option<bytes>): Result<bytes> {
    if err.Some? then Err(err.value)
    else if hash.Some? then Ok(hash.value)
    else Err(MissingInfoKey)
  }

  class TorrentDecoder {
    const r: Reader

    ghost predicate Valid()
      reads r
    {
      r.Valid()
    }

    /** A decoder over an in-memory source, not hashing, with a nil hash. */
    constructor(data: bytes)
      ensures fresh(r) && r.data == data && r.State() == RState(0, false, None) && Valid()
    {
      r := new Reader(data);
    }

    /** peek: the next byte, not consumed. */
    method Peek() returns (res: Result<byte>)
      requires Valid()
      ensures res == PeekByteF(r.data, r.State())
    {
      var b := r.Peek(1);
      match b
      case Ok(bs) => res := Ok(bs[0]);
      case Err(e) => res := Err(e);
    }

    /** unmarshalInt into a 64-bit target. */
    method UnmarshalInt() returns (res: Result<int>)
      requires Valid()
      modifies r
      ensures Valid() && Step(res, r.State()) == IntF(r.data, old(r.State()))
    {
      var b := Peek();
      if b.Err? {
        return Err(b.error);
      } else if b.value != 'i' {
        return Err(MalformedInteger);
      }
      var _ := r.ReadByte();
      var lit := r.ReadBytes('e');
      if lit.Err? {
        return Err(lit.error);
      }
      var v := ParseInt(lit.value[..|lit.value| - 1]);
      match v
      case Err(e) => res := Err(e);
      case Ok(i) => res := Ok(i);
    }

    /** unmarshalUint into a 64-bit target. */
    method UnmarshalUint() returns (res: Result<nat>)
      requires Valid()
      modifies r
      ensures Valid() && Step(res, r.State()) == UintF(r.data, old(r.State()))
    {
      var b := Peek();
      if b.Err? {
        return Err(b.error);
      } else if b.value != 'i' {
        return Err(MalformedInteger);
      }
      var _ := r.ReadByte();
      var lit := r.ReadBytes('e');
      if lit.Err? {
        return Err(lit.error);
      }
      var v := ParseUint(lit.value[..|lit.value| - 1]);
      match v
      case Err(e) => res := Err(e);
      case Ok(u) => res := Ok(u);
    }

    /** readExactly: fills out one byte at a time. */
    method ReadExactly(out: array<byte>) returns (err: Option<Error>)
      requires Valid()
      modifies r, out
      ensures Valid()
      ensures var s := ReadExactlyF(r.data, old(r.State()), out.Length);
              && r.State() == s.st
              && (err.None? <==> s.res.Ok?)
              && (s.res.Ok? ==> out[..] == s.res.value)
              && (s.res.Err? ==> err == Some(s.res.error))
    {
      ghost var st0 := r.State();
      assert st0.shouldHash ==> st0.hash.value + [] == st0.hash.value;
      var pos := 0;
      while pos < out.Length
        invariant Valid() && 0 <= pos <= out.Length
        invariant r.pos == st0.pos + pos
        invariant out[..pos] == r.data[st0.pos..r.pos]
        invariant r.State() == Feed(st0.(pos := r.pos), r.data[st0.pos..r.pos])
      {
        ghost var before := r.State();
        var b := r.ReadByte();
        if b.Err? {
          assert r.data[st0.pos..r.pos] == r.data[st0.pos..];
          return Some(b.error);
        }
        FeedFeed(st0.(pos := r.pos), r.data[st0.pos..before.pos], [b.value]);
        assert r.data[st0.pos..r.pos] == r.data[st0.pos..before.pos] + [b.value];
        out[pos] := b.value;
        pos := pos + 1;
      }
      err := None;
    }

    /** unmarshalString: the length, then the content. */
    method UnmarshalString() returns (res: Result<bytes>)
      requires Valid()
      modifies r
      ensures Valid() && Step(res, r.State()) == StringF(r.data, old(r.State()))
    {
      var lStr := r.ReadBytes(':');
      if lStr.Err? {
        return Err(lStr.error);
      }
      var length := ParseInt(lStr.value[..|lStr.value| - 1]);
      if length.Err? {
        return Err(length.error);
      } else if length.value < 0 {
        return Err(NegativeLength);
      }
      var content := new byte[length.value];
      var e := ReadExactly(content);
      if e.Some? {
        return Err(e.value);
      }
      res := Ok(content[..]);
    }

    /** unmarshalUnknownItem: an integer, a string, a list or a dictionary,
        chosen by the next byte. */
    method UnmarshalUnknownItem() returns (res: Result<BValue>)
      requires Valid()
      modifies r
      ensures Valid() && Step(res, r.State()) == ItemF(r.data, old(r.State()))
      decreases |r.data| - r.pos, 1
    {
      var b := Peek();
      if b.Err? {
        return Err(b.error);
      }
      if b.value == 'i' {
        var i := UnmarshalInt();
        res := if i.Ok? then Ok(BInt(i.value)) else Err(i.error);
      } else if IsDigit(b.value) {
        var s := UnmarshalString();
        res := if s.Ok? then Ok(BStr(s.value)) else Err(s.error);
      } else if b.value == 'l' {
        var items, e := UnmarshalList();
        res := if e.None? then Ok(BList(items)) else Err(e.value);
      } else if b.value == 'd' {
        var m, e := UnmarshalDict();
        res := if e.None? then Ok(BDict(m)) else Err(e.value);
      } else {
        res := Err(UnknownItem);
      }
    }

    /** unmarshalSlice into a fresh []interface{}: the elements decoded, and
        the error. An element that fails to decode ends the list without an
        error. */
    method UnmarshalList() returns (items: seq<BValue>, err: Option<Error>)
      requires Valid()
      modifies r
      ensures Valid() && Partial(err, items, r.State()) == ListF(r.data, old(r.State()))
      decreases |r.data| - r.pos, 0
    {
      var b := Peek();
      if b.Err? {
        return [], Some(b.error);
      } else if b.value != 'l' {
        return [], Some(MalformedListBegin);
      }
      var _ := r.ReadByte();
      ghost var s1 := r.State();
      items := [];
      while true
        invariant Valid() && r.pos > old(r.pos)
        invariant ListLoopF(r.data, r.State(), items) == ListLoopF(r.data, s1, [])
        decreases |r.data| - r.pos
      {
        var c := Peek();
        if c.Err? {
          return items, Some(c.error);
        } else if c.value == 'e' {
          break;
        }
        var v := UnmarshalUnknownItem();
        if v.Err? {
          return items, None;
        }
        items := items + [v.value];
      }
      var _ := r.ReadByte();
      err := None;
    }

    /** unmarshalMap into a fresh map[string]interface{}: the entries stored
        and the error. The value of a key "info" is read with hashing on. */
    method UnmarshalDict() returns (m: map<bytes, BValue>, err: Option<Error>)
      requires Valid()
      modifies r
      ensures Valid() && Partial(err, m, r.State()) == DictF(r.data, old(r.State()))
      decreases |r.data| - r.pos, 0
    {
      var b := Peek();
      if b.Err? {
        return map[], Some(b.error);
      } else if b.value != 'd' {
        return map[], Some(MalformedDict);
      }
      var _ := r.ReadByte();
      ghost var s1 := r.State();
      m := map[];
      while true
        invariant Valid() && r.pos > old(r.pos)
        invariant DictLoopF(r.data, r.State(), m) == DictLoopF(r.data, s1, map[])
        decreases |r.data| - r.pos
      {
        var c := Peek();
        if c.Err? {
          return m, Some(c.error);
        } else if c.value == 'e' {
          break;
        }
        var key := UnmarshalString();
        if key.Err? {
          return m, Some(key.error);
        }
        var infoEncountered := key.value == "info";
        if infoEncountered {
          r.StartHashing();
        }
        var v := UnmarshalUnknownItem();
        if v.Err? {
          return m, Some(v.error);
        }
        m := m[key.value := v.value];
        if infoEncountered {
          r.StopHashing();
        }
      }
      var _ := r.ReadByte();
      err := None;
    }

    /** unmarshalToVal: decodes into the referent of the pointer v and
        returns the pointer with its new referent. */
    method UnmarshalToVal(v: GoValue) returns (v': GoValue, err: Option<Error>)
      requires Valid() && Decodable(r.data, r.State(), v)
      modifies r
      ensures Valid()
      ensures r.State() == UnmarshalState(r.data, old(r.State()), v)
      ensures Unmarshalled(r.data, old(r.State()), v, v', err)
    {
      if !v.Ptr? {
        return v, Some(NotAPointer);
      } else if v.ref.None? {
        return v, Some(UnsupportedType);
      }
      var x := v.ref.value;
      match x
      case Int(w, _) =>
        var i := UnmarshalInt();
        if i.Ok? {
          v', err := Ptr(v.target, Some(Int(w, WrapInt(w, i.value)))), None;
        } else {
          v', err := v, Some(i.error);
        }
      case Uint(w, _) =>
        var u := UnmarshalUint();
        if u.Ok? {
          v', err := Ptr(v.target, Some(Uint(w, WrapUint(w, u.value)))), None;
        } else {
          v', err := v, Some(u.error);
        }
      case Str(_) =>
        var s := UnmarshalString();
        if s.Ok? {
          v', err := Ptr(v.target, Some(Str(s.value))), None;
        } else {
          v', err := v, Some(s.error);
        }
      case ByteSlice(_) =>
        var s := UnmarshalString();
        if s.Ok? {
          v', err := Ptr(v.target, Some(ByteSlice(s.value))), None;
        } else {
          v', err := v, Some(s.error);
        }
      case Slice(e, items) =>
        var added, le := UnmarshalList();
        v', err := Ptr(v.target, Some(Slice(e, items + Boxed(added)))), le;
      case Map(k, e, entries) =>
        var added, me := UnmarshalDict();
        v', err := Ptr(v.target, Some(Map(k, e, entries + BoxedMap(added)))), me;
      case Struct(_) =>
        var s, se := UnmarshalStruct(x);
        v', err := Ptr(v.target, Some(s)), se;
      case _ =>
        v', err := v, Some(UnsupportedType);
    }

    /** unmarshalStruct: a dictionary, then bound onto the struct; the
        struct is unchanged when the dictionary fails to decode. */
    method UnmarshalStruct(s: GoValue) returns (s': GoValue, err: Option<Error>)
      requires Valid() && s.Struct? && WellTyped(s)
      requires var p := DictF(r.data, r.State()); p.err.None? ==> BindSafe(p.value, s, false)
      modifies r
      ensures Valid()
      ensures var p := DictF(r.data, old(r.State()));
              && r.State() == p.st
              && (p.err.Some? ==> s' == s && err == p.err)
              && (p.err.None? ==>
                    && (err.None? <==> AllBind(p.value, TypeOf(s).decls))
                    && (err.None? ==> StructBound(p.value, s, s'))
                    && (err.Some? ==> BindError(p.value, TypeOf(s).decls, err.value))
                    && MayBind(p.value, s, s'))
    {
      var d, e := UnmarshalDict();
      if e.Some? {
        return s, e;
      }
      s', err := Bind(d, s, false);
    }

    /** Decode: unmarshals into v, then returns the hash input of the info
        value when one was hashed. The hash is never reset, so a later call
        on the same decoder still sees an earlier "info". */
    method Decode(v: GoValue) returns (v': GoValue, res: Result<bytes>)
      requires Valid() && Decodable(r.data, r.State(), v)
      modifies r
      ensures Valid()
      ensures r.State() == UnmarshalState(r.data, old(r.State()), v)
      ensures exists err :: Unmarshalled(r.data, old(r.State()), v, v', err)
                            && res == TorrentResult(err, r.hash)
    {
      var err;
      v', err := UnmarshalToVal(v);
      res := TorrentResult(err, r.hash);
    }
  }

  /** The plain decoder: the same reader, without the info hash. */
  class PlainDecoder {
    const td: TorrentDecoder

    ghost predicate Valid()
      reads td.r
    {
      td.Valid()
    }

    constructor(data: bytes)
      ensures fresh(td) && fresh(td.r) && td.r.data == data
      ensures td.r.State() == RState(0, false, None) && Valid()
    {
      td := new TorrentDecoder(data);
    }

    method Decode(v: GoValue) returns (v': GoValue, err: Option<Error>)
      requires Valid() && Decodable(td.r.data, td.r.State(), v)
      modifies td.r
      ensures Valid()
      ensures td.r.State() == UnmarshalState(td.r.data, old(td.r.State()), v)
      ensures Unmarshalled(td.r.data, old(td.r.State()), v, v', err)
    {
      v', err := td.UnmarshalToVal(v);
    }
  }

  /** Unmarshal: decodes data into the target v. */
  method Unmarshal(data: bytes, v: GoValue) returns (v': GoValue, err: Option<Error>)
    requires Decodable(data, RState(0, false, None), v)
    ensures Unmarshalled(data, RState(0, false, None), v, v', err)
  {
    var d := new PlainDecoder(data);
    v', err := d.Decode(v);
  }

  /** UnmarshalTorrent: decodes data into v and returns the hash input of
      its info value. */
  method UnmarshalTorrent(data: bytes, v: GoValue) returns (v': GoValue, res: Result<bytes>)
    requires Decodable(data, RState(0, false, None), v)
    ensures exists err :: Unmarshalled(data, RState(0, false, None), v, v', err)
                          && res == TorrentResult(err, UnmarshalState(data, RState(0, false, None), v).hash)
  {
    var d := new TorrentDecoder(data);
    v', res := d.Decode(v);
  }
}

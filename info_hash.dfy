/** The info hash: decoding the canonical encoding of a torrent's top-level
    dictionary feeds the hash exactly the bytes of the value under "info",
    and UnmarshalTorrent then returns those bytes. */
module InfoHash {
  import opened Common
  import opened Strconv
  import opened Values
  import opened Sorting
  import opened Bencode
  import opened HashingReader
  import opened DecodeSpec
  import opened DecodeLemmas
  import opened Decoder

  /** The hash input after the entries under keys[n..] were read, starting
      from h: the encoding of the value under "info" once that key is read. */
  ghost function HashAfter(b: BValue, keys: seq<bytes>, n: nat, h: Option<bytes>): Option<bytes>
    requires b.BDict? && n <= |keys| && forall i :: 0 <= i < |keys| ==> keys[i] in b.entries
    decreases |keys| - n
  {
    if n == |keys| then h
    else HashAfter(b, keys, n + 1, if keys[n] == "info" then Some(BEncode(b.entries[keys[n]])) else h)
  }

  /** Once "info" is among the keys still to read, or already hashed, the
      hash input ends up as the encoding of its value. */
  lemma {:induction false} HashAfterInfo(b: BValue, keys: seq<bytes>, n: nat, h: Option<bytes>)
    requires b.BDict? && n <= |keys| && forall i :: 0 <= i < |keys| ==> keys[i] in b.entries
    requires "info" in b.entries
    requires (exists i :: n <= i < |keys| && keys[i] == "info") || h == Some(BEncode(b.entries["info"]))
    ensures HashAfter(b, keys, n, h) == Some(BEncode(b.entries["info"]))
    decreases |keys| - n
  {
    if n < |keys| {
      HashAfterInfo(b, keys, n + 1, if keys[n] == "info" then Some(BEncode(b.entries[keys[n]])) else h);
    }
  }

  /** Without "info" among the keys still to read, the hash input is left
      as it is. */
  lemma {:induction false} HashAfterNone(b: BValue, keys: seq<bytes>, n: nat, h: Option<bytes>)
    requires b.BDict? && n <= |keys| && forall i :: 0 <= i < |keys| ==> keys[i] in b.entries
    requires forall i :: n <= i < |keys| ==> keys[i] != "info"
    ensures HashAfter(b, keys, n, h) == h
    decreases |keys| - n
  {
    if n < |keys| {
      HashAfterNone(b, keys, n + 1, h);
    }
  }

  /** One entry read while not hashing: the reader ends right after it, not
      hashing, and has hashed exactly the value when the key is "info". */
  lemma EntryHashAdvance(data: bytes, cur: RState, k: bytes, v: BValue, m: map<bytes, BValue>) returns (next: RState)
    requires ValidState(data, cur) && !cur.shouldHash
    requires |k| <= MaxInt64 && Representable(v) && NoInfo(v)
    requires At(data, cur.pos, StringEncoding(k) + BEncode(v))
    ensures next == RState(cur.pos + |StringEncoding(k)| + |BEncode(v)|, false,
                           if k == "info" then Some(BEncode(v)) else cur.hash)
    ensures DictLoopF(data, cur, m) == DictLoopF(data, next, m[k := v])
  {
    EntryRoundTrip(data, cur, k, v);
    if k == "info" {
      next := InfoEntryAdvance(data, cur, k, v, m);
    } else {
      next := EntryAdvance(data, cur, k, v, m);
    }
  }

  /** The entry under "info": its value is read with hashing on, and
      hashing is off again after it. */
  lemma InfoEntryAdvance(data: bytes, cur: RState, k: bytes, v: BValue, m: map<bytes, BValue>) returns (next: RState)
    requires ValidState(data, cur) && !cur.shouldHash
    requires |k| <= MaxInt64 && Representable(v) && NoInfo(v)
    requires At(data, cur.pos, StringEncoding(k) + BEncode(v))
    requires k == "info"
    ensures next == RState(cur.pos + |StringEncoding(k)| + |BEncode(v)|, false, Some(BEncode(v)))
    ensures DictLoopF(data, cur, m) == DictLoopF(data, next, m[k := v])
  {
    EntryRoundTrip(data, cur, k, v);
    AtSplit(data, cur.pos, StringEncoding(k), BEncode(v));
    var s2 := StartF(Consume(cur, StringEncoding(k)));
    assert s2.pos == cur.pos + |StringEncoding(k)|;
    ItemRoundTrip(data, s2, v);
    next := StopF(ItemF(data, s2).st);
    assert [] + BEncode(v) == BEncode(v);
    DictLoopStep(data, cur, m, k, v);
  }

  /** The entry loop of a dictionary whose values hold no "info" key, run
      while not hashing: it reads every entry back, and the hash input is
      the encoding of the value under "info" if that key is read. */
  lemma {:induction false} DictHashLoop(data: bytes, cur: RState, b: BValue, keys: seq<bytes>, n: nat)
    requires b.BDict? && ValidState(data, cur) && !cur.shouldHash && n <= |keys|
    requires forall i :: 0 <= i < |keys| ==> keys[i] in b.entries
    requires forall i :: 0 <= i < |keys| ==>
               |keys[i]| <= MaxInt64 && Representable(b.entries[keys[i]]) && NoInfo(b.entries[keys[i]])
    requires At(data, cur.pos, DictRest(b, keys, n) + "e")
    ensures DictLoopF(data, cur, Prefix(b.entries, keys, n))
            == Partial(None, Prefix(b.entries, keys, |keys|),
                       RState(cur.pos + |DictRest(b, keys, n)| + 1, false, HashAfter(b, keys, n, cur.hash)))
    decreases |keys| - n, 1
  {
    if n == |keys| {
      DictLoopDone(data, cur, b, keys, n);
    } else {
      DictHashLoopNext(data, cur, b, keys, n);
    }
  }

  lemma {:induction false} DictHashLoopNext(data: bytes, cur: RState, b: BValue, keys: seq<bytes>, n: nat)
    requires b.BDict? && ValidState(data, cur) && !cur.shouldHash && n < |keys|
    requires forall i :: 0 <= i < |keys| ==> keys[i] in b.entries
    requires forall i :: 0 <= i < |keys| ==>
               |keys[i]| <= MaxInt64 && Representable(b.entries[keys[i]]) && NoInfo(b.entries[keys[i]])
    requires At(data, cur.pos, DictRest(b, keys, n) + "e")
    ensures DictLoopF(data, cur, Prefix(b.entries, keys, n))
            == Partial(None, Prefix(b.entries, keys, |keys|),
                       RState(cur.pos + |DictRest(b, keys, n)| + 1, false, HashAfter(b, keys, n, cur.hash)))
    decreases |keys| - n, 0
  {
    var next := DictHashAdvance(data, cur, b, keys, n);
    DictHashLoop(data, next, b, keys, n + 1);
  }

  /** One turn of the entry loop while not hashing. */
  lemma DictHashAdvance(data: bytes, cur: RState, b: BValue, keys: seq<bytes>, n: nat) returns (next: RState)
    requires b.BDict? && ValidState(data, cur) && !cur.shouldHash && n < |keys|
    requires forall i :: 0 <= i < |keys| ==> keys[i] in b.entries
    requires |keys[n]| <= MaxInt64 && Representable(b.entries[keys[n]]) && NoInfo(b.entries[keys[n]])
    requires At(data, cur.pos, DictRest(b, keys, n) + "e")
    ensures ValidState(data, next) && !next.shouldHash
    ensures next.pos + |DictRest(b, keys, n + 1)| == cur.pos + |DictRest(b, keys, n)|
    ensures At(data, next.pos, DictRest(b, keys, n + 1) + "e")
    ensures HashAfter(b, keys, n + 1, next.hash) == HashAfter(b, keys, n, cur.hash)
    ensures DictLoopF(data, cur, Prefix(b.entries, keys, n)) == DictLoopF(data, next, Prefix(b.entries, keys, n + 1))
  {
    var k := keys[n];
    var v := b.entries[k];
    DictRestSplit(data, cur, b, keys, n);
    PrefixStep(b.entries, keys, n);
    next := EntryHashAdvance(data, cur, k, v, Prefix(b.entries, keys, n));
    assert |DictRest(b, keys, n)| == |StringEncoding(k)| + |BEncode(v)| + |DictRest(b, keys, n + 1)|;
  }

  /** Decoding the encoding of a dictionary whose values hold no "info" key,
      while not hashing, gives the dictionary back, stops right after it and
      leaves as hash input the encoding of the value under "info", or the
      earlier hash input when there is no such key. */
  lemma {:induction false} DictHashRoundTrip(data: bytes, st: RState, b: BValue)
    requires b.BDict? && ValidState(data, st) && !st.shouldHash && Representable(b)
    requires forall v :: v in b.entries.Values ==> NoInfo(v)
    requires At(data, st.pos, BEncode(b))
    ensures DictF(data, st)
            == Partial(None, b.entries,
                       RState(st.pos + |BEncode(b)|, false,
                              if "info" in b.entries then Some(BEncode(b.entries["info"])) else st.hash))
  {
    var keys := SortedKeys(b.entries.Keys);
    SortedKeysFacts(b);
    forall i | 0 <= i < |keys|
      ensures NoInfo(b.entries[keys[i]])
    {
      assert b.entries[keys[i]] in b.entries.Values;
    }
    var body := DictBody(b, keys, |keys|);
    assert BEncode(b) == "d" + body + "e";
    Framed(data, st, 'd', body, 'e');
    DictBodyRest(b, keys, 0);
    assert DictBody(b, keys, 0) + DictRest(b, keys, 0) == DictRest(b, keys, 0);
    assert Prefix(b.entries, keys, 0) == map[];
    DictHashLoop(data, Consume(st, "d"), b, keys, 0);
    PrefixAll(b.entries, keys);
    if "info" in b.entries {
      assert "info" in keys;
      HashAfterInfo(b, keys, 0, st.hash);
    } else {
      HashAfterNone(b, keys, 0, st.hash);
    }
  }

  /** UnmarshalTorrent of the encoding of a dictionary into a
      map[string]interface{}: the entries are added to the map, and the
      result is the encoding of the value under "info", or MissingInfoKey
      when there is none. */
  lemma TorrentIntoMap(b: BValue, entries: map<bytes, GoValue>, v': GoValue, err: Option<Error>)
    requires b.BDict? && Representable(b) && forall v :: v in b.entries.Values ==> NoInfo(v)
    requires var v := Ptr(TMap(StringKey, TIface), Some(Map(StringKey, TIface, entries)));
             Unmarshalled(BEncode(b), RState(0, false, None), v, v', err)
    ensures err.None?
    ensures v' == Ptr(TMap(StringKey, TIface), Some(Map(StringKey, TIface, entries + BoxedMap(b.entries))))
    ensures var v := Ptr(TMap(StringKey, TIface), Some(Map(StringKey, TIface, entries)));
            TorrentResult(err, UnmarshalState(BEncode(b), RState(0, false, None), v).hash)
            == if "info" in b.entries then Ok(BEncode(b.entries["info"])) else Err(MissingInfoKey)
  {
    var data := BEncode(b);
    assert data[0..|data|] == data;
    DictHashRoundTrip(data, RState(0, false, None), b);
  }

  /** The canonical encoding of a dictionary whose one key is "info". */
  lemma InfoOnlyEncoding(b: BValue)
    requires b.BDict? && b.entries.Keys == {"info"}
    ensures BEncode(b) == "d" + StringEncoding("info") + BEncode(b.entries["info"]) + "e"
  {
    var keys := SortedKeys(b.entries.Keys);
    SortedKeysMembers(b.entries.Keys);
    SortedKeysAscending(b.entries.Keys);
    LessIrreflexive("info");
    assert "info" in keys;
    assert keys == ["info"];
    assert DictBody(b, keys, 1) == [] + (StringEncoding("info") + BEncode(b.entries["info"]));
  }

  /** The entries of a dictionary {"info": v} read while hashing: its
      "info" key turns hashing off after v, before the closing 'e'. */
  lemma InnerInfoEntries(data: bytes, s3: RState, v: BValue)
    requires ValidState(data, s3) && s3.shouldHash
    requires Representable(v) && NoInfo(v)
    requires At(data, s3.pos, StringEncoding("info") + BEncode(v) + "e")
    ensures var ks := StringEncoding("info");
            DictLoopF(data, s3, map[])
            == Partial(None, map["info" := v],
                       RState(s3.pos + |ks| + |BEncode(v)| + 1, false, Some(s3.hash.value + ks + BEncode(v))))
  {
    var ks := StringEncoding("info");
    var e := BEncode(v);
    AtSplit(data, s3.pos, ks + e, "e");
    EntryRoundTrip(data, s3, "info", v);
    AtSplit(data, s3.pos, ks, e);
    var s4 := Consume(s3, ks);
    ItemRoundTrip(data, s4, v);
    ConsumeConsume(s3, ks, e);
    var s5 := StopF(Consume(s4, e));
    DictLoopStep(data, s3, map[], "info", v);
    AtHead(data, s5.pos, "e");
    DictLoopEnd(data, s5, map["info" := v]);
    assert map[]["info" := v] == map["info" := v];
  }

  /** A dictionary {"info": v} read with hashing just turned on: the hash
      input ends before the dictionary's closing 'e'. */
  lemma InnerInfoDict(data: bytes, p: nat, v: BValue)
    requires Representable(v) && NoInfo(v)
    requires At(data, p, "d" + StringEncoding("info") + BEncode(v) + "e")
    ensures var ks := StringEncoding("info");
            ItemF(data, RState(p, true, Some([])))
            == Step(Ok(BDict(map["info" := v])),
                    RState(p + |ks| + |BEncode(v)| + 2, false, Some("d" + ks + BEncode(v))))
  {
    var ks := StringEncoding("info");
    var e := BEncode(v);
    var st := RState(p, true, Some([]));
    assert "d" + ks + e + "e" == ['d'] + (ks + e + "e") && ks + e + "e" == ks + e + ['e'];
    Framed(data, st, 'd', ks + e, 'e');
    assert [] + ['d'] == "d";
    var s3 := RState(p + 1, true, Some("d"));
    InnerInfoEntries(data, s3, v);
  }

  /** The entries of the outer dictionary {"info": {"info": v}}, read while
      not hashing. */
  lemma OuterInfoEntries(data: bytes, s1: RState, v: BValue)
    requires ValidState(data, s1) && !s1.shouldHash
    requires Representable(v) && NoInfo(v)
    requires At(data, s1.pos, StringEncoding("info") + ("d" + StringEncoding("info") + BEncode(v) + "e") + "e")
    ensures var ks := StringEncoding("info");
            DictLoopF(data, s1, map[])
            == Partial(None, map["info" := BDict(map["info" := v])],
                       RState(s1.pos + |ks| + (|ks| + |BEncode(v)| + 2) + 1, false, Some("d" + ks + BEncode(v))))
  {
    var ks := StringEncoding("info");
    var inner := "d" + ks + BEncode(v) + "e";
    AtSplit(data, s1.pos, ks + inner, "e");
    var s2 := OuterInfoEntry(data, s1, v);
    AtHead(data, s2.pos, "e");
    DictLoopEnd(data, s2, map["info" := BDict(map["info" := v])]);
    assert ReadByteF(data, s2).st == s2.(pos := s2.pos + 1);
  }

  /** The outer entry "info": its value is read with hashing on, and the
      inner "info" key has turned hashing off when it ends. */
  lemma OuterInfoEntry(data: bytes, s1: RState, v: BValue) returns (s2: RState)
    requires ValidState(data, s1) && !s1.shouldHash
    requires Representable(v) && NoInfo(v)
    requires At(data, s1.pos, StringEncoding("info") + ("d" + StringEncoding("info") + BEncode(v) + "e"))
    ensures var ks := StringEncoding("info");
            s2 == RState(s1.pos + |ks| + (|ks| + |BEncode(v)| + 2), false, Some("d" + ks + BEncode(v)))
    ensures ValidState(data, s2)
    ensures DictLoopF(data, s1, map[]) == DictLoopF(data, s2, map["info" := BDict(map["info" := v])])
  {
    var ks := StringEncoding("info");
    var outer := BDict(map["info" := v]);
    OuterInfoKey(data, s1, "d" + ks + BEncode(v) + "e");
    OuterInfoValue(data, s1, v);
    s2 := RState(s1.pos + |ks| + (|ks| + |BEncode(v)| + 2), false, Some("d" + ks + BEncode(v)));
    var s1' := RState(s1.pos + |ks|, true, Some([]));
    assert StartF(StringF(data, s1).st) == s1';
    assert StopF(ItemF(data, s1').st) == s2;
    DictLoopStep(data, s1, map[], "info", outer);
    assert map[]["info" := outer] == map["info" := outer];
  }

  /** The key of the outer entry "info", read while not hashing. */
  lemma OuterInfoKey(data: bytes, s1: RState, rest: bytes)
    requires ValidState(data, s1) && !s1.shouldHash
    requires At(data, s1.pos, StringEncoding("info") + rest)
    ensures PeekByteF(data, s1).Ok? && PeekByteF(data, s1).value != 'e'
    ensures StringF(data, s1) == Step(Ok("info"), RState(s1.pos + |StringEncoding("info")|, false, s1.hash))
  {
    var ks := StringEncoding("info");
    AtSplit(data, s1.pos, ks, rest);
    AtHead(data, s1.pos, ks);
    FormatIntSign(4);
    assert ks[0] == FormatInt(4)[0];
    StringRoundTrip(data, s1, "info");
  }

  /** The value of the outer entry "info", read with hashing just turned on. */
  lemma OuterInfoValue(data: bytes, s1: RState, v: BValue)
    requires ValidState(data, s1) && !s1.shouldHash
    requires Representable(v) && NoInfo(v)
    requires At(data, s1.pos, StringEncoding("info") + ("d" + StringEncoding("info") + BEncode(v) + "e"))
    ensures var ks := StringEncoding("info");
            ItemF(data, RState(s1.pos + |ks|, true, Some([])))
            == Step(Ok(BDict(map["info" := v])),
                    RState(s1.pos + |ks| + (|ks| + |BEncode(v)| + 2), false, Some("d" + ks + BEncode(v))))
  {
    var ks := StringEncoding("info");
    AtSplit(data, s1.pos, ks, "d" + ks + BEncode(v) + "e");
    InnerInfoDict(data, s1.pos + |ks|, v);
  }

  /** An "info" key inside the value of "info" stops hashing at the end of
      its own value: the hash input then misses the closing 'e' of the
      outer info value, so it is not the encoding of that value. */
  lemma NestedInfoStopsHashing(data: bytes, v: BValue)
    requires Representable(v) && NoInfo(v)
    requires data == "d" + StringEncoding("info") + ("d" + StringEncoding("info") + BEncode(v) + "e") + "e"
    ensures var outer := BDict(map["info" := v]);
            var hashed := "d" + StringEncoding("info") + BEncode(v);
            && DictF(data, RState(0, false, None))
               == Partial(None, map["info" := outer], RState(|data|, false, Some(hashed)))
            && BEncode(outer) == hashed + "e"
  {
    var ks := StringEncoding("info");
    var e := BEncode(v);
    var inner := "d" + ks + e + "e";
    AppendAssoc("d", ks, inner);
    assert At(data, 0, data);
    Framed(data, RState(0, false, None), 'd', ks + inner, 'e');
    OuterInfoEntries(data, RState(1, false, None), v);
    InfoOnlyEncoding(BDict(map["info" := v]));
  }
}

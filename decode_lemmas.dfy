/** What the decoder does with canonical input: decoding the encoding of a
    value gives the value back and stops right after it, hashing exactly
    the bytes of an "info" value; plus the decoder's behaviour on the
    inputs its tests use. */
module DecodeLemmas {
  import opened Common
  import opened Strconv
  import opened Values
  import opened Sorting
  import opened Bencode
  import opened HashingReader
  import opened DecodeSpec

  /** The bytes s occur in the source at position p. */
  predicate At(data: bytes, p: nat, s: bytes) {
    p + |s| <= |data| && data[p..p + |s|] == s
  }

  /** The reader state after the bytes s were read: the position is past
      them and they were hashed iff hashing is on. */
  function Consume(st: RState, s: bytes): (r: RState)
    requires st.shouldHash ==> st.hash.Some?
    ensures r.pos == st.pos + |s| && r.shouldHash == st.shouldHash
    ensures r.hash == if st.shouldHash then Some(st.hash.value + s) else st.hash
  {
    Feed(st.(pos := st.pos + |s|), s)
  }

  /** No dictionary anywhere inside b has the key "info". */
  predicate NoInfo(b: BValue) {
    match b
    case BInt(_) => true
    case BStr(_) => true
    case BList(items) => forall i :: 0 <= i < |items| ==> NoInfo(items[i])
    case BDict(m) => "info" !in m && forall v :: v in m.Values ==> NoInfo(v)
  }

  lemma ConsumeNothing(st: RState)
    requires st.shouldHash ==> st.hash.Some?
    ensures Consume(st, []) == st
  {
    if st.shouldHash {
      assert st.hash.value + [] == st.hash.value;
    }
  }

  lemma ConsumeConsume(st: RState, a: bytes, b: bytes)
    requires st.shouldHash ==> st.hash.Some?
    ensures Consume(Consume(st, a), b) == Consume(st, a + b)
  {
    if st.shouldHash {
      assert st.hash.value + a + b == st.hash.value + (a + b);
    }
  }

  lemma AtSplit(data: bytes, p: nat, a: bytes, b: bytes)
    requires At(data, p, a + b)
    ensures At(data, p, a) && At(data, p + |a|, b)
  {
    var w := data[p..p + |a| + |b|];
    assert data[p..p + |a|] == w[..|a|];
    assert data[p + |a|..p + |a| + |b|] == w[|a|..];
  }

  lemma AtPrefix(data: bytes, p: nat, s: bytes, t: bytes)
    requires At(data, p, s) && t <= s
    ensures At(data, p, t)
  {
    assert s == t + s[|t|..];
    AtSplit(data, p, t, s[|t|..]);
  }

  /** The middle piece of a source segment. */
  lemma AtMiddle(data: bytes, p: nat, pre: bytes, x: bytes, rest: bytes)
    requires At(data, p, pre + x + rest)
    ensures At(data, p + |pre|, x)
  {
    AtSplit(data, p, pre + x, rest);
    AtSplit(data, p, pre, x);
  }

  lemma AtHead(data: bytes, p: nat, s: bytes)
    requires At(data, p, s) && |s| > 0
    ensures p < |data| && data[p] == s[0]
  {
    assert data[p..p + |s|][0] == data[p];
  }

  /** The first delim at or after i is the one at j when none lies between. */
  lemma {:induction false} IndexFromAt(data: bytes, i: nat, j: nat, delim: byte)
    requires i <= j < |data| && data[j] == delim
    requires forall k :: i <= k < j ==> data[k] != delim
    ensures IndexFrom(data, i, delim) == Some(j)
    decreases j - i
  {
    if i < j {
      IndexFromAt(data, i + 1, j, delim);
    }
  }

  /** The decimal text of an integer holds neither 'e' nor ':'. */
  lemma FormatIntNoDelim(i: int)
    ensures forall k :: 0 <= k < |FormatInt(i)| ==> FormatInt(i)[k] != 'e' && FormatInt(i)[k] != ':'
  {
    if i < 0 {
      FormatUintDigits(-i);
      assert forall k :: 1 <= k < |FormatInt(i)| ==> FormatInt(i)[k] == FormatUint(-i)[k - 1];
    } else {
      FormatUintDigits(i);
    }
  }

  /** ReadBytes over text free of delim followed by delim returns both and
      consumes them. */
  lemma ReadLiteral(data: bytes, st: RState, lit: bytes, delim: byte)
    requires ValidState(data, st) && At(data, st.pos, lit + [delim])
    requires forall k :: 0 <= k < |lit| ==> lit[k] != delim
    ensures ReadBytesF(data, st, delim) == Step(Ok(lit + [delim]), Consume(st, lit + [delim]))
  {
    var w := data[st.pos..st.pos + |lit| + 1];
    assert forall k :: st.pos <= k <= st.pos + |lit| ==> data[k] == w[k - st.pos];
    IndexFromAt(data, st.pos, st.pos + |lit|, delim);
  }

  /** unmarshalInt reads back what marshalInt wrote, for every int64. */
  lemma IntRoundTrip(data: bytes, st: RState, i: int)
    requires ValidState(data, st) && IsInt64(i) && At(data, st.pos, IntEncoding(i))
    ensures IntF(data, st) == Step(Ok(i), Consume(st, IntEncoding(i)))
  {
    var digits := FormatInt(i);
    assert IntEncoding(i) == "i" + (digits + "e");
    AtHead(data, st.pos, IntEncoding(i));
    AtSplit(data, st.pos, "i", digits + "e");
    var s1 := ReadByteF(data, st).st;
    assert s1 == Consume(st, "i");
    FormatIntNoDelim(i);
    ReadLiteral(data, s1, digits, 'e');
    assert (digits + "e")[..|digits|] == digits;
    FormatIntRoundTrip(i);
    ConsumeConsume(st, "i", digits + "e");
  }

  /** unmarshalUint reads back what marshalUnsignedInt wrote, for every uint64. */
  lemma UintRoundTrip(data: bytes, st: RState, u: nat)
    requires ValidState(data, st) && u <= MaxUint64 && At(data, st.pos, UintEncoding(u))
    ensures UintF(data, st) == Step(Ok(u), Consume(st, UintEncoding(u)))
  {
    var digits := FormatUint(u);
    assert digits == FormatInt(u);
    assert UintEncoding(u) == "i" + (digits + "e");
    AtHead(data, st.pos, UintEncoding(u));
    AtSplit(data, st.pos, "i", digits + "e");
    var s1 := ReadByteF(data, st).st;
    assert s1 == Consume(st, "i");
    FormatIntNoDelim(u);
    ReadLiteral(data, s1, digits, 'e');
    assert (digits + "e")[..|digits|] == digits;
    FormatUintRoundTrip(u);
    ConsumeConsume(st, "i", digits + "e");
  }

  /** unmarshalString reads back what marshalString wrote. */
  lemma StringRoundTrip(data: bytes, st: RState, s: bytes)
    requires ValidState(data, st) && |s| <= MaxInt64 && At(data, st.pos, StringEncoding(s))
    ensures StringF(data, st) == Step(Ok(s), Consume(st, StringEncoding(s)))
  {
    var digits := FormatInt(|s|);
    StringHeader(data, st, s);
    StringLength(s);
    var s1 := Consume(st, digits + ":");
    assert data[s1.pos..s1.pos + |s|] == s;
    ConsumeConsume(st, digits + ":", s);
  }

  /** The length prefix of a string's encoding is read up to its ':'. */
  lemma StringHeader(data: bytes, st: RState, s: bytes)
    requires ValidState(data, st) && At(data, st.pos, StringEncoding(s))
    ensures var digits := FormatInt(|s|);
            && ReadBytesF(data, st, ':') == Step(Ok(digits + ":"), Consume(st, digits + ":"))
            && At(data, st.pos + |digits| + 1, s)
  {
    var digits := FormatInt(|s|);
    AtSplit(data, st.pos, digits + ":", s);
    FormatIntNoDelim(|s|);
    ReadLiteral(data, st, digits, ':');
  }

  /** The length prefix, without its ':', parses back as the length. */
  lemma StringLength(s: bytes)
    requires |s| <= MaxInt64
    ensures var digits := FormatInt(|s|);
            ParseInt((digits + ":")[..|digits|]) == Ok(|s|)
  {
    var digits := FormatInt(|s|);
    assert (digits + ":")[..|digits|] == digits;
    FormatIntRoundTrip(|s|);
  }

  /** Moving one piece from the front of the rest to the end of the part
      before it keeps the whole. */
  lemma Regroup(before: bytes, piece: bytes, after: bytes, before': bytes, rest: bytes, whole: bytes)
    requires before' == before + piece && rest == piece + after && before' + after == whole
    ensures before + rest == whole
  {
    AppendAssoc(before, piece, after);
  }

  /** The encodings of the elements from the n-th on. */
  ghost function ListRest(b: BValue, n: nat): bytes
    requires b.BList? && n <= |b.items|
    decreases |b.items| - n
  {
    if n == |b.items| then [] else BEncode(b.items[n]) + ListRest(b, n + 1)
  }

  /** The elements before the n-th and those from it on make up the body. */
  lemma {:induction false} ListBodyRest(b: BValue, n: nat)
    requires b.BList? && n <= |b.items|
    ensures ListBody(b, n) + ListRest(b, n) == ListBody(b, |b.items|)
    decreases |b.items| - n, 1
  {
    if n == |b.items| {
      assert ListBody(b, n) + ListRest(b, n) == ListBody(b, n) + [];
    } else {
      ListBodyRestNext(b, n);
    }
  }

  lemma {:induction false} ListBodyRestNext(b: BValue, n: nat)
    requires b.BList? && n < |b.items|
    ensures ListBody(b, n) + ListRest(b, n) == ListBody(b, |b.items|)
    decreases |b.items| - n, 0
  {
    ListBodyRest(b, n + 1);
    Regroup(ListBody(b, n), BEncode(b.items[n]), ListRest(b, n + 1), ListBody(b, n + 1), ListRest(b, n), ListBody(b, |b.items|));
  }

  /** The entries under the keys from the n-th on. */
  ghost function DictRest(b: BValue, keys: seq<bytes>, n: nat): bytes
    requires b.BDict? && n <= |keys| && forall i :: 0 <= i < |keys| ==> keys[i] in b.entries
    decreases |keys| - n
  {
    if n == |keys| then [] else (StringEncoding(keys[n]) + BEncode(b.entries[keys[n]])) + DictRest(b, keys, n + 1)
  }

  /** The entries before the n-th key and those from it on make up the body. */
  lemma {:induction false} DictBodyRest(b: BValue, keys: seq<bytes>, n: nat)
    requires b.BDict? && n <= |keys| && forall i :: 0 <= i < |keys| ==> keys[i] in b.entries
    ensures DictBody(b, keys, n) + DictRest(b, keys, n) == DictBody(b, keys, |keys|)
    decreases |keys| - n, 1
  {
    if n == |keys| {
      assert DictBody(b, keys, n) + DictRest(b, keys, n) == DictBody(b, keys, n) + [];
    } else {
      DictBodyRestNext(b, keys, n);
    }
  }

  lemma {:induction false} DictBodyRestNext(b: BValue, keys: seq<bytes>, n: nat)
    requires b.BDict? && n < |keys| && forall i :: 0 <= i < |keys| ==> keys[i] in b.entries
    ensures DictBody(b, keys, n) + DictRest(b, keys, n) == DictBody(b, keys, |keys|)
    decreases |keys| - n, 0
  {
    DictBodyRest(b, keys, n + 1);
    Regroup(DictBody(b, keys, n), StringEncoding(keys[n]) + BEncode(b.entries[keys[n]]), DictRest(b, keys, n + 1),
            DictBody(b, keys, n + 1), DictRest(b, keys, n), DictBody(b, keys, |keys|));
  }

  /** The map the entry loop has built after the first n of the given keys. */
  function Prefix(m: map<bytes, BValue>, keys: seq<bytes>, n: nat): map<bytes, BValue>
    requires n <= |keys| && forall i :: 0 <= i < |keys| ==> keys[i] in m
  {
    if n == 0 then map[] else Prefix(m, keys, n - 1)[keys[n - 1] := m[keys[n - 1]]]
  }

  /** Every entry the loop has stored is an entry of m. */
  lemma {:induction false} PrefixWithin(m: map<bytes, BValue>, keys: seq<bytes>, n: nat)
    requires n <= |keys| && forall i :: 0 <= i < |keys| ==> keys[i] in m
    ensures forall k :: k in Prefix(m, keys, n) ==> k in m && Prefix(m, keys, n)[k] == m[k]
  {
    if n > 0 {
      PrefixWithin(m, keys, n - 1);
    }
  }

  lemma {:induction false} PrefixHolds(m: map<bytes, BValue>, keys: seq<bytes>, n: nat)
    requires n <= |keys| && forall i :: 0 <= i < |keys| ==> keys[i] in m
    ensures forall i :: 0 <= i < n ==> keys[i] in Prefix(m, keys, n)
  {
    if n > 0 {
      PrefixHolds(m, keys, n - 1);
    }
  }

  /** Storing the entries of all keys of m rebuilds m. */
  lemma PrefixAll(m: map<bytes, BValue>, keys: seq<bytes>)
    requires forall k :: k in keys <==> k in m
    requires forall i :: 0 <= i < |keys| ==> keys[i] in m
    ensures Prefix(m, keys, |keys|) == m
  {
    var p := Prefix(m, keys, |keys|);
    PrefixWithin(m, keys, |keys|);
    PrefixHolds(m, keys, |keys|);
    forall k | k in m
      ensures k in p
    {
      var i :| 0 <= i < |keys| && keys[i] == k;
    }
  }

  /** The byte an encoding starts with is never the 'e' that ends a list or
      a dictionary. */
  lemma HeadIsNotEnd(b: BValue)
    ensures |BEncode(b)| > 0 && BEncode(b)[0] != 'e'
  {
    BEncodeHead(b);
  }

  /** A body between an opening and a closing byte: the opening byte is
      next, and reading it and then the rest is reading the whole. */
  lemma Framed(data: bytes, st: RState, open: byte, body: bytes, close: byte)
    requires ValidState(data, st) && At(data, st.pos, [open] + body + [close])
    ensures PeekByteF(data, st) == Ok(open) && ReadByteF(data, st).st == Consume(st, [open])
    ensures At(data, st.pos + 1, body + [close])
    ensures Consume(Consume(st, [open]), body + [close]) == Consume(st, [open] + body + [close])
  {
    AtHead(data, st.pos, [open] + body + [close]);
    AppendAssoc([open], body, [close]);
    AtSplit(data, st.pos, [open], body + [close]);
    ConsumeConsume(st, [open], body + [close]);
  }

  /** Decoding the encoding of a value gives the value and stops right after
      its last byte; when no "info" key occurs inside it, exactly its bytes
      are hashed if hashing is on. */
  lemma {:induction false} ItemRoundTrip(data: bytes, st: RState, b: BValue)
    requires ValidState(data, st) && Representable(b) && At(data, st.pos, BEncode(b))
    ensures var r := ItemF(data, st);
            && r.res == Ok(b) && r.st.pos == st.pos + |BEncode(b)|
            && (NoInfo(b) ==> r.st == Consume(st, BEncode(b)))
    decreases b, 2
  {
    BEncodeHead(b);
    AtHead(data, st.pos, BEncode(b));
    match b
    case BInt(i) => IntRoundTrip(data, st, i);
    case BStr(s) => StringRoundTrip(data, st, s);
    case BList(_) => ListRoundTrip(data, st, b);
    case BDict(_) => DictRoundTrip(data, st, b);
  }

  lemma {:induction false} ListRoundTrip(data: bytes, st: RState, b: BValue)
    requires b.BList? && ValidState(data, st) && Representable(b) && At(data, st.pos, BEncode(b))
    ensures var r := ListF(data, st);
            && r.err.None? && r.value == b.items && r.st.pos == st.pos + |BEncode(b)|
            && (NoInfo(b) ==> r.st == Consume(st, BEncode(b)))
    decreases b, 1
  {
    var body := ListBody(b, |b.items|);
    Framed(data, st, 'l', body, 'e');
    ListBodyRest(b, 0);
    assert ListBody(b, 0) + ListRest(b, 0) == ListRest(b, 0);
    ListLoopRoundTrip(data, Consume(st, "l"), b, 0, NoInfo(b));
  }

  /** The element loop, with the encodings of the elements from the n-th on
      and the closing 'e' next in the source. When flat, no "info" key
      occurs and the bytes read are exactly those hashed. */
  lemma {:induction false} ListLoopRoundTrip(data: bytes, cur: RState, b: BValue, n: nat, flat: bool)
    requires b.BList? && n <= |b.items| && ValidState(data, cur)
    requires forall i :: 0 <= i < |b.items| ==> Representable(b.items[i])
    requires flat ==> forall i :: 0 <= i < |b.items| ==> NoInfo(b.items[i])
    requires At(data, cur.pos, ListRest(b, n) + "e")
    ensures var r := ListLoopF(data, cur, b.items[..n]);
            && r.err.None? && r.value == b.items && r.st.pos == cur.pos + |ListRest(b, n)| + 1
            && (flat ==> r.st == Consume(cur, ListRest(b, n) + "e"))
    decreases b, 0, |b.items| - n, 2
  {
    if n == |b.items| {
      ListLoopLast(data, cur, b, n, flat);
    } else {
      ListLoopNext(data, cur, b, n, flat);
    }
  }

  /** The element loop once every element is read. */
  lemma ListLoopLast(data: bytes, cur: RState, b: BValue, n: nat, flat: bool)
    requires b.BList? && n == |b.items| && ValidState(data, cur)
    requires forall i :: 0 <= i < |b.items| ==> Representable(b.items[i])
    requires flat ==> forall i :: 0 <= i < |b.items| ==> NoInfo(b.items[i])
    requires At(data, cur.pos, ListRest(b, n) + "e")
    ensures var r := ListLoopF(data, cur, b.items[..n]);
            && r.err.None? && r.value == b.items && r.st.pos == cur.pos + |ListRest(b, n)| + 1
            && (flat ==> r.st == Consume(cur, ListRest(b, n) + "e"))
  {
    ListLoopDone(data, cur, b, n);
  }

  /** The element loop with at least one element left. */
  lemma {:induction false} ListLoopNext(data: bytes, cur: RState, b: BValue, n: nat, flat: bool)
    requires b.BList? && n < |b.items| && ValidState(data, cur)
    requires forall i :: 0 <= i < |b.items| ==> Representable(b.items[i])
    requires flat ==> forall i :: 0 <= i < |b.items| ==> NoInfo(b.items[i])
    requires At(data, cur.pos, ListRest(b, n) + "e")
    ensures var r := ListLoopF(data, cur, b.items[..n]);
            && r.err.None? && r.value == b.items && r.st.pos == cur.pos + |ListRest(b, n)| + 1
            && (flat ==> r.st == Consume(cur, ListRest(b, n) + "e"))
    decreases b, 0, |b.items| - n, 1
  {
    var next := ListLoopAdvance(data, cur, b, n, flat);
    ListLoopRoundTrip(data, next, b, n + 1, flat);
  }

  /** The element loop meets the closing 'e' once every element is read. */
  lemma ListLoopDone(data: bytes, cur: RState, b: BValue, n: nat)
    requires b.BList? && ValidState(data, cur) && n == |b.items|
    requires At(data, cur.pos, ListRest(b, n) + "e")
    ensures var r := ListLoopF(data, cur, b.items[..n]);
            && r.err.None? && r.value == b.items && r.st == Consume(cur, ListRest(b, n) + "e")
  {
    assert ListRest(b, n) + "e" == "e";
    AtHead(data, cur.pos, "e");
    assert ReadByteF(data, cur).st == Consume(cur, "e");
    TakeAll(b.items);
    ListLoopEnd(data, cur, b.items);
  }

  /** One turn of the element loop reads the n-th element back. */
  lemma {:induction false} ListLoopAdvance(data: bytes, cur: RState, b: BValue, n: nat, flat: bool) returns (next: RState)
    requires b.BList? && n < |b.items| && ValidState(data, cur)
    requires Representable(b.items[n]) && (flat ==> NoInfo(b.items[n]))
    requires At(data, cur.pos, ListRest(b, n) + "e")
    ensures ValidState(data, next) && next.pos == cur.pos + |BEncode(b.items[n])|
    ensures At(data, next.pos, ListRest(b, n + 1) + "e")
    ensures flat ==> Consume(next, ListRest(b, n + 1) + "e") == Consume(cur, ListRest(b, n) + "e")
    ensures ListLoopF(data, cur, b.items[..n]) == ListLoopF(data, next, b.items[..n + 1])
    decreases b, 0, |b.items| - n, 0
  {
    var v := b.items[n];
    ListRestSplit(data, cur, b, n);
    next := ElementAdvance(data, cur, v, b.items[..n]);
    assert next.pos == cur.pos + |BEncode(v)|;
    TakeOneMore(b.items, n);
  }

  /** The n-th element comes first in the rest of a body. */
  lemma ListRestSplit(data: bytes, cur: RState, b: BValue, n: nat)
    requires b.BList? && ValidState(data, cur) && n < |b.items|
    requires At(data, cur.pos, ListRest(b, n) + "e")
    ensures var e := BEncode(b.items[n]);
            && At(data, cur.pos, e) && At(data, cur.pos + |e|, ListRest(b, n + 1) + "e")
            && Consume(Consume(cur, e), ListRest(b, n + 1) + "e") == Consume(cur, ListRest(b, n) + "e")
  {
    var e := BEncode(b.items[n]);
    var tail := ListRest(b, n + 1) + "e";
    AppendAssoc(e, ListRest(b, n + 1), "e");
    AtSplit(data, cur.pos, e, tail);
    ConsumeConsume(cur, e, tail);
  }

  /** The element loop reads one element back and appends it. */
  lemma {:induction false} ElementAdvance(data: bytes, cur: RState, v: BValue, acc: seq<BValue>) returns (next: RState)
    requires ValidState(data, cur) && Representable(v) && At(data, cur.pos, BEncode(v))
    ensures ValidState(data, next) && next.pos == cur.pos + |BEncode(v)|
    ensures NoInfo(v) ==> next == Consume(cur, BEncode(v))
    ensures ListLoopF(data, cur, acc) == ListLoopF(data, next, acc + [v])
    decreases v, 4
  {
    HeadIsNotEnd(v);
    AtHead(data, cur.pos, BEncode(v));
    ItemRoundTrip(data, cur, v);
    next := ItemF(data, cur).st;
    ListLoopStep(data, cur, acc, v);
  }

  lemma TakeAll(s: seq<BValue>)
    ensures s[..|s|] == s
  {
  }

  lemma TakeOneMore(s: seq<BValue>, n: nat)
    requires n < |s|
    ensures s[..n] + [s[n]] == s[..n + 1]
  {
  }

  lemma ListLoopEnd(data: bytes, cur: RState, acc: seq<BValue>)
    requires ValidState(data, cur) && PeekByteF(data, cur) == Ok('e')
    ensures ListLoopF(data, cur, acc) == Partial(None, acc, ReadByteF(data, cur).st)
  {
  }

  lemma ListLoopStep(data: bytes, cur: RState, acc: seq<BValue>, v: BValue)
    requires ValidState(data, cur) && PeekByteF(data, cur).Ok? && PeekByteF(data, cur).value != 'e'
    requires ItemF(data, cur).res == Ok(v)
    ensures ListLoopF(data, cur, acc) == ListLoopF(data, ItemF(data, cur).st, acc + [v])
  {
  }

  /** What the entry loop needs to know of the sorted keys of a dictionary
      that may be decoded back. */
  lemma SortedKeysFacts(b: BValue)
    requires b.BDict? && Representable(b)
    ensures var keys := SortedKeys(b.entries.Keys);
            && (forall k :: k in keys <==> k in b.entries)
            && (forall i :: 0 <= i < |keys| ==> keys[i] in b.entries)
            && (forall i :: 0 <= i < |keys| ==> |keys[i]| <= MaxInt64 && Representable(b.entries[keys[i]]))
            && (NoInfo(b) ==> forall i :: 0 <= i < |keys| ==> keys[i] != "info" && NoInfo(b.entries[keys[i]]))
  {
    var keys := SortedKeys(b.entries.Keys);
    SortedKeysMembers(b.entries.Keys);
    forall i | 0 <= i < |keys|
      ensures keys[i] in b.entries
    {
      assert keys[i] in keys;
    }
  }

  lemma {:induction false} DictRoundTrip(data: bytes, st: RState, b: BValue)
    requires b.BDict? && ValidState(data, st) && Representable(b) && At(data, st.pos, BEncode(b))
    ensures var r := DictF(data, st);
            && r.err.None? && r.value == b.entries && r.st.pos == st.pos + |BEncode(b)|
            && (NoInfo(b) ==> r.st == Consume(st, BEncode(b)))
    decreases b, 1
  {
    var keys := SortedKeys(b.entries.Keys);
    SortedKeysFacts(b);
    var body := DictBody(b, keys, |keys|);
    assert BEncode(b) == "d" + body + "e";
    Framed(data, st, 'd', body, 'e');
    DictBodyRest(b, keys, 0);
    assert DictBody(b, keys, 0) + DictRest(b, keys, 0) == DictRest(b, keys, 0);
    assert Prefix(b.entries, keys, 0) == map[];
    DictLoopRoundTrip(data, Consume(st, "d"), b, keys, 0, NoInfo(b));
    PrefixAll(b.entries, keys);
  }

  /** One dictionary entry read from cur: the key is read back, and its
      value, read with hashing switched on for the key "info", is read back
      and ends right after its encoding. */
  lemma {:induction false} EntryRoundTrip(data: bytes, cur: RState, k: bytes, v: BValue)
    requires ValidState(data, cur) && |k| <= MaxInt64 && Representable(v)
    requires At(data, cur.pos, StringEncoding(k) + BEncode(v))
    ensures var ks := StringEncoding(k);
            var s1 := Consume(cur, ks);
            var r := ItemF(data, if k == "info" then StartF(s1) else s1);
            && PeekByteF(data, cur) == Ok(ks[0]) && ks[0] != 'e'
            && StringF(data, cur) == Step(Ok(k), s1)
            && r.res == Ok(v) && r.st.pos == cur.pos + |ks| + |BEncode(v)|
            && (k != "info" && NoInfo(v) ==> r.st == Consume(cur, ks + BEncode(v)))
    decreases v, 3
  {
    var ks := StringEncoding(k);
    AtSplit(data, cur.pos, ks, BEncode(v));
    AtHead(data, cur.pos, ks);
    StringRoundTrip(data, cur, k);
    var s1 := Consume(cur, ks);
    var s2 := if k == "info" then StartF(s1) else s1;
    ItemRoundTrip(data, s2, v);
    if k != "info" && NoInfo(v) {
      ConsumeConsume(cur, ks, BEncode(v));
    }
  }

  /** The entry loop, with the entries under the keys from the n-th on and
      the closing 'e' next in the source. When flat, no "info" key occurs
      and the bytes read are exactly those hashed. */
  lemma {:induction false} DictLoopRoundTrip(data: bytes, cur: RState, b: BValue, keys: seq<bytes>, n: nat, flat: bool)
    requires b.BDict? && ValidState(data, cur) && n <= |keys|
    requires forall i :: 0 <= i < |keys| ==> keys[i] in b.entries
    requires forall i :: 0 <= i < |keys| ==> |keys[i]| <= MaxInt64 && Representable(b.entries[keys[i]])
    requires flat ==> forall i :: 0 <= i < |keys| ==> keys[i] != "info" && NoInfo(b.entries[keys[i]])
    requires At(data, cur.pos, DictRest(b, keys, n) + "e")
    ensures var r := DictLoopF(data, cur, Prefix(b.entries, keys, n));
            && r.err.None? && r.value == Prefix(b.entries, keys, |keys|)
            && r.st.pos == cur.pos + |DictRest(b, keys, n)| + 1
            && (flat ==> r.st == Consume(cur, DictRest(b, keys, n) + "e"))
    decreases b, 0, |keys| - n, 2
  {
    if n == |keys| {
      DictLoopLast(data, cur, b, keys, n, flat);
    } else {
      DictLoopNext(data, cur, b, keys, n, flat);
    }
  }

  /** The entry loop once every key is read. */
  lemma DictLoopLast(data: bytes, cur: RState, b: BValue, keys: seq<bytes>, n: nat, flat: bool)
    requires b.BDict? && ValidState(data, cur) && n == |keys|
    requires forall i :: 0 <= i < |keys| ==> keys[i] in b.entries
    requires forall i :: 0 <= i < |keys| ==> |keys[i]| <= MaxInt64 && Representable(b.entries[keys[i]])
    requires flat ==> forall i :: 0 <= i < |keys| ==> keys[i] != "info" && NoInfo(b.entries[keys[i]])
    requires At(data, cur.pos, DictRest(b, keys, n) + "e")
    ensures var r := DictLoopF(data, cur, Prefix(b.entries, keys, n));
            && r.err.None? && r.value == Prefix(b.entries, keys, |keys|)
            && r.st.pos == cur.pos + |DictRest(b, keys, n)| + 1
            && (flat ==> r.st == Consume(cur, DictRest(b, keys, n) + "e"))
  {
    DictLoopDone(data, cur, b, keys, n);
  }

  /** The entry loop with at least one key left. */
  lemma {:induction false} DictLoopNext(data: bytes, cur: RState, b: BValue, keys: seq<bytes>, n: nat, flat: bool)
    requires b.BDict? && ValidState(data, cur) && n < |keys|
    requires forall i :: 0 <= i < |keys| ==> keys[i] in b.entries
    requires forall i :: 0 <= i < |keys| ==> |keys[i]| <= MaxInt64 && Representable(b.entries[keys[i]])
    requires flat ==> forall i :: 0 <= i < |keys| ==> keys[i] != "info" && NoInfo(b.entries[keys[i]])
    requires At(data, cur.pos, DictRest(b, keys, n) + "e")
    ensures var r := DictLoopF(data, cur, Prefix(b.entries, keys, n));
            && r.err.None? && r.value == Prefix(b.entries, keys, |keys|)
            && r.st.pos == cur.pos + |DictRest(b, keys, n)| + 1
            && (flat ==> r.st == Consume(cur, DictRest(b, keys, n) + "e"))
    decreases b, 0, |keys| - n, 1
  {
    var next := DictLoopAdvance(data, cur, b, keys, n, flat);
    DictLoopRoundTrip(data, next, b, keys, n + 1, flat);
  }

  /** The entry loop meets the closing 'e' once every key is read. */
  lemma DictLoopDone(data: bytes, cur: RState, b: BValue, keys: seq<bytes>, n: nat)
    requires b.BDict? && ValidState(data, cur) && n == |keys|
    requires forall i :: 0 <= i < |keys| ==> keys[i] in b.entries
    requires At(data, cur.pos, DictRest(b, keys, n) + "e")
    ensures var r := DictLoopF(data, cur, Prefix(b.entries, keys, n));
            && r.err.None? && r.value == Prefix(b.entries, keys, |keys|)
            && r.st == Consume(cur, DictRest(b, keys, n) + "e")
  {
    assert DictRest(b, keys, n) + "e" == "e";
    AtHead(data, cur.pos, "e");
    assert ReadByteF(data, cur).st == Consume(cur, "e");
    DictLoopEnd(data, cur, Prefix(b.entries, keys, n));
  }

  /** One turn of the entry loop reads the entry under the n-th key back. */
  lemma {:induction false} DictLoopAdvance(data: bytes, cur: RState, b: BValue, keys: seq<bytes>, n: nat, flat: bool) returns (next: RState)
    requires b.BDict? && ValidState(data, cur) && n < |keys|
    requires forall i :: 0 <= i < |keys| ==> keys[i] in b.entries
    requires |keys[n]| <= MaxInt64 && Representable(b.entries[keys[n]])
    requires flat ==> keys[n] != "info" && NoInfo(b.entries[keys[n]])
    requires At(data, cur.pos, DictRest(b, keys, n) + "e")
    ensures ValidState(data, next) && next.pos == cur.pos + |StringEncoding(keys[n]) + BEncode(b.entries[keys[n]])|
    ensures At(data, next.pos, DictRest(b, keys, n + 1) + "e")
    ensures flat ==> Consume(next, DictRest(b, keys, n + 1) + "e") == Consume(cur, DictRest(b, keys, n) + "e")
    ensures DictLoopF(data, cur, Prefix(b.entries, keys, n)) == DictLoopF(data, next, Prefix(b.entries, keys, n + 1))
    decreases b, 0, |keys| - n, 0
  {
    var k := keys[n];
    var v := b.entries[k];
    DictRestSplit(data, cur, b, keys, n);
    PrefixStep(b.entries, keys, n);
    next := EntryAdvance(data, cur, k, v, Prefix(b.entries, keys, n));
  }

  lemma PrefixStep(m: map<bytes, BValue>, keys: seq<bytes>, n: nat)
    requires n < |keys| && forall i :: 0 <= i < |keys| ==> keys[i] in m
    ensures Prefix(m, keys, n + 1) == Prefix(m, keys, n)[keys[n] := m[keys[n]]]
  {
  }

  /** The entry under the n-th key comes first in the rest of a body. */
  lemma DictRestSplit(data: bytes, cur: RState, b: BValue, keys: seq<bytes>, n: nat)
    requires b.BDict? && ValidState(data, cur) && n < |keys|
    requires forall i :: 0 <= i < |keys| ==> keys[i] in b.entries
    requires At(data, cur.pos, DictRest(b, keys, n) + "e")
    ensures var e := StringEncoding(keys[n]) + BEncode(b.entries[keys[n]]);
            && At(data, cur.pos, e) && At(data, cur.pos + |e|, DictRest(b, keys, n + 1) + "e")
            && Consume(Consume(cur, e), DictRest(b, keys, n + 1) + "e") == Consume(cur, DictRest(b, keys, n) + "e")
  {
    var e := StringEncoding(keys[n]) + BEncode(b.entries[keys[n]]);
    var tail := DictRest(b, keys, n + 1) + "e";
    AppendAssoc(e, DictRest(b, keys, n + 1), "e");
    AtSplit(data, cur.pos, e, tail);
    ConsumeConsume(cur, e, tail);
  }

  /** The entry loop reads one entry back and stores it. */
  lemma {:induction false} EntryAdvance(data: bytes, cur: RState, k: bytes, v: BValue, m: map<bytes, BValue>) returns (next: RState)
    requires ValidState(data, cur) && |k| <= MaxInt64 && Representable(v)
    requires At(data, cur.pos, StringEncoding(k) + BEncode(v))
    ensures ValidState(data, next) && next.pos == cur.pos + |StringEncoding(k) + BEncode(v)|
    ensures k != "info" && NoInfo(v) ==> next == Consume(cur, StringEncoding(k) + BEncode(v))
    ensures DictLoopF(data, cur, m) == DictLoopF(data, next, m[k := v])
    decreases v, 4
  {
    EntryRoundTrip(data, cur, k, v);
    var s1 := Consume(cur, StringEncoding(k));
    var r := ItemF(data, if k == "info" then StartF(s1) else s1);
    next := if k == "info" then StopF(r.st) else r.st;
    DictLoopStep(data, cur, m, k, v);
  }

  lemma DictLoopEnd(data: bytes, cur: RState, m: map<bytes, BValue>)
    requires ValidState(data, cur) && PeekByteF(data, cur) == Ok('e')
    ensures DictLoopF(data, cur, m) == Partial(None, m, ReadByteF(data, cur).st)
  {
  }

  lemma DictLoopStep(data: bytes, cur: RState, m: map<bytes, BValue>, k: bytes, v: BValue)
    requires ValidState(data, cur) && PeekByteF(data, cur).Ok? && PeekByteF(data, cur).value != 'e'
    requires StringF(data, cur).res == Ok(k)
    requires var s1 := StringF(data, cur).st;
             ItemF(data, if k == "info" then StartF(s1) else s1).res == Ok(v)
    ensures var s1 := StringF(data, cur).st;
            var r := ItemF(data, if k == "info" then StartF(s1) else s1);
            DictLoopF(data, cur, m) == DictLoopF(data, if k == "info" then StopF(r.st) else r.st, m[k := v])
  {
  }
}

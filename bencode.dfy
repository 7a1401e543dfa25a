/** The bencode wire format of section "bencoding" of BEP 3 (the BitTorrent
    protocol specification), defined directly on decoded values: the
    reference that the encoder's output and the decoder's input are
    compared with. */
module Bencode {
  import opened Common
  import opened Strconv
  import opened Values
  import opened Sorting

  /** An integer: 'i', its decimal digits, 'e'. */
  function IntEncoding(i: int): (r: bytes)
    ensures |r| >= 3
  {
    "i" + FormatInt(i) + "e"
  }

  /** An unsigned integer, written the same way. */
  function UintEncoding(u: nat): (r: bytes)
    ensures |r| >= 3
  {
    "i" + FormatUint(u) + "e"
  }

  /** A string: its length in decimal, ':', its bytes. */
  function StringEncoding(s: bytes): (r: bytes)
    ensures |r| >= |s| + 2
  {
    FormatInt(|s|) + ":" + s
  }

  /** A value's canonical encoding: a list's elements in order, a
      dictionary's entries in ascending byte order of their keys. */
  ghost function BEncode(b: BValue): bytes
    decreases b, 2, 0
  {
    match b
    case BInt(i) => IntEncoding(i)
    case BStr(s) => StringEncoding(s)
    case BList(items) => "l" + ListBody(b, |items|) + "e"
    case BDict(_) => DictEncoding(b)
  }

  /** A dictionary: 'd', its entries in ascending key order, 'e'. */
  ghost function DictEncoding(b: BValue): bytes
    requires b.BDict?
    decreases b, 1, 0
  {
    var keys := SortedKeys(b.entries.Keys);
    SortedKeysMembers(b.entries.Keys);
    "d" + DictBody(b, keys, |keys|) + "e"
  }

  /** The encodings of the first n elements of a list. */
  ghost function ListBody(b: BValue, n: nat): bytes
    requires b.BList? && n <= |b.items|
    decreases b, 0, n
  {
    if n == 0 then [] else ListBody(b, n - 1) + BEncode(b.items[n - 1])
  }

  /** The encodings of the entries of the first n of the given keys. */
  ghost function DictBody(b: BValue, keys: seq<bytes>, n: nat): bytes
    requires b.BDict? && n <= |keys| && forall i :: 0 <= i < |keys| ==> keys[i] in b.entries
    decreases b, 0, n
  {
    if n == 0 then []
    else DictBody(b, keys, n - 1) + (StringEncoding(keys[n - 1]) + BEncode(b.entries[keys[n - 1]]))
  }

  /** Every encoding starts with the byte that announces its kind. */
  lemma BEncodeHead(b: BValue)
    ensures |BEncode(b)| >= 2
    ensures b.BInt? <==> BEncode(b)[0] == 'i'
    ensures b.BStr? <==> IsDigit(BEncode(b)[0])
    ensures b.BList? <==> BEncode(b)[0] == 'l'
    ensures b.BDict? <==> BEncode(b)[0] == 'd'
  {
    match b
    case BInt(i) =>
      assert BEncode(b) == "i" + (FormatInt(i) + "e");
    case BStr(s) =>
      FormatIntSign(|s|);
      assert BEncode(b) == FormatInt(|s|) + (":" + s);
    case BList(_) =>
    case BDict(_) =>
  }
}

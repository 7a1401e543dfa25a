/** Byte-wise ordering of keys (Go's bytes.Compare) and the in-place sort the
    encoder applies to map keys and struct fields. Go's sort.Sort is an
    insertion sort that swaps neighbours on up to 12 elements, which is the
    sort modelled here; on longer inputs it may put equal keys in another
    order, which only struct fields sharing an effective key can show. */
module Sorting {
  import opened Common

  /** bytes.Compare(a, b) == -1: a is a proper prefix of b, or the first
      differing byte of a is smaller. */
  predicate Less(a: bytes, b: bytes)
    decreases |a|
  {
    if a == [] then b != []
    else if b == [] then false
    else a[0] < b[0] || (a[0] == b[0] && Less(a[1..], b[1..]))
  }

  lemma {:induction false} LessIrreflexive(a: bytes)
    ensures !Less(a, a)
    decreases |a|
  {
    if a != [] {
      LessIrreflexive(a[1..]);
    }
  }

  lemma {:induction false} LessAsymmetric(a: bytes, b: bytes)
    ensures Less(a, b) ==> !Less(b, a)
    decreases |a|
  {
    if a != [] && b != [] {
      LessAsymmetric(a[1..], b[1..]);
    }
  }

  lemma {:induction false} LessTransitive(a: bytes, b: bytes, c: bytes)
    requires Less(a, b) && Less(b, c)
    ensures Less(a, c)
    decreases |a|
  {
    if a != [] && a[0] == b[0] && b[0] == c[0] {
      LessTransitive(a[1..], b[1..], c[1..]);
    }
  }

  /** Two different keys are always ordered one way or the other. */
  lemma {:induction false} LessTotal(a: bytes, b: bytes)
    requires a != b
    ensures Less(a, b) || Less(b, a)
    decreases |a|
  {
    if a != [] && b != [] && a[0] == b[0] {
      assert a == [a[0]] + a[1..] && b == [b[0]] + b[1..];
      LessTotal(a[1..], b[1..]);
    }
  }

  /** Not-greater is transitive as well. */
  lemma NotLessTransitive(a: bytes, b: bytes, c: bytes)
    requires !Less(b, a) && !Less(c, b)
    ensures !Less(c, a)
  {
    if Less(c, a) {
      if a == b {
      } else if b == c {
      } else {
        LessTotal(a, b);
        LessTotal(b, c);
        LessTransitive(c, a, b);
        LessAsymmetric(c, b);
      }
    }
  }

  /** Every element's key is not greater than any later element's key. */
  ghost predicate SortedBy<T>(s: seq<T>, key: T -> bytes) {
    forall i, j :: 0 <= i < j < |s| ==> !Less(key(s[j]), key(s[i]))
  }

  /** Every key is strictly smaller than any later key. */
  ghost predicate StrictlySorted(s: seq<bytes>) {
    forall i, j :: 0 <= i < j < |s| ==> Less(s[i], s[j])
  }

  /** One step of insertion sort: x moves left past every element whose key
      is greater than its own, and stops at the first that is not. */
  function Insert<T>(s: seq<T>, x: T, key: T -> bytes): (r: seq<T>)
    ensures |r| == |s| + 1
  {
    if s == [] || !Less(key(x), key(s[|s| - 1])) then
      s + [x]
    else
      Insert(s[..|s| - 1], x, key) + [s[|s| - 1]]
  }

  /** Inserting adds x and loses nothing. */
  lemma {:induction false} InsertPermutes<T>(s: seq<T>, x: T, key: T -> bytes)
    ensures multiset(Insert(s, x, key)) == multiset(s) + multiset{x}
  {
    if s != [] && Less(key(x), key(s[|s| - 1])) {
      InsertPermutes(s[..|s| - 1], x, key);
      assert s == s[..|s| - 1] + [s[|s| - 1]];
    }
  }

  lemma {:induction false} InsertSorted<T>(s: seq<T>, x: T, key: T -> bytes)
    requires SortedBy(s, key)
    ensures SortedBy(Insert(s, x, key), key)
  {
    if s == [] {
    } else if !Less(key(x), key(s[|s| - 1])) {
      var r := s + [x];
      forall i, j | 0 <= i < j < |r| ensures !Less(key(r[j]), key(r[i])) {
        if j == |s| && i < |s| - 1 {
          NotLessTransitive(key(s[i]), key(s[|s| - 1]), key(x));
        }
      }
    } else {
      var init, last := s[..|s| - 1], s[|s| - 1];
      assert SortedBy(init, key);
      InsertSorted(init, x, key);
      var r' := Insert(init, x, key);
      InsertPermutes(init, x, key);
      forall i | 0 <= i < |r'| ensures !Less(key(last), key(r'[i])) {
        assert r'[i] in multiset(r');
        if r'[i] == x {
          LessAsymmetric(key(x), key(last));
        } else {
          assert r'[i] in multiset(init);
          var k :| 0 <= k < |init| && init[k] == r'[i];
          assert s[k] == init[k];
        }
      }
      var r := r' + [last];
      forall i, j | 0 <= i < j < |r| ensures !Less(key(r[j]), key(r[i])) {
        if j < |r'| {
          assert r[i] == r'[i] && r[j] == r'[j];
        }
      }
    }
  }

  /** A stable insertion sort by key, taking elements from the front. */
  function SortBy<T>(s: seq<T>, key: T -> bytes): (r: seq<T>)
    ensures |r| == |s|
  {
    if s == [] then []
    else Insert(SortBy(s[..|s| - 1], key), s[|s| - 1], key)
  }

  /** The sort's result is a permutation of its input. */
  lemma {:induction false} SortByPermutes<T>(s: seq<T>, key: T -> bytes)
    ensures multiset(SortBy(s, key)) == multiset(s)
  {
    if s != [] {
      SortByPermutes(s[..|s| - 1], key);
      InsertPermutes(SortBy(s[..|s| - 1], key), s[|s| - 1], key);
      assert s == s[..|s| - 1] + [s[|s| - 1]];
    }
  }

  /** The sort's result is ordered by key. */
  lemma {:induction false} SortBySorted<T>(s: seq<T>, key: T -> bytes)
    ensures SortedBy(SortBy(s, key), key)
  {
    if s != [] {
      SortBySorted(s[..|s| - 1], key);
      InsertSorted(SortBy(s[..|s| - 1], key), s[|s| - 1], key);
    }
  }

  /** The key of a map key: the key itself. */
  function Id(k: bytes): bytes {
    k
  }

  /** Sorting keys that are all different yields a strictly ascending sequence. */
  lemma SortDistinct(s: seq<bytes>)
    requires forall i, j :: 0 <= i < j < |s| ==> s[i] != s[j]
    ensures StrictlySorted(SortBy(s, Id))
  {
    var r := SortBy(s, Id);
    SortBySorted(s, Id);
    SortByPermutes(s, Id);
    forall i, j | 0 <= i < j < |r| ensures Less(r[i], r[j]) {
      DistinctAfterPermutation(s, r, i, j);
      LessTotal(r[i], r[j]);
    }
  }

  lemma DistinctAfterPermutation(s: seq<bytes>, r: seq<bytes>, i: nat, j: nat)
    requires forall i, j :: 0 <= i < j < |s| ==> s[i] != s[j]
    requires multiset(r) == multiset(s) && i < j < |r|
    ensures r[i] != r[j]
  {
    if r[i] == r[j] {
      assert multiset(r)[r[i]] >= 2 by {
        assert r == r[..i] + [r[i]] + r[i + 1..j] + [r[j]] + r[j + 1..];
      }
      MultiplicityOfDistinct(s, r[i]);
    }
  }

  lemma {:induction false} MultiplicityOfDistinct(s: seq<bytes>, x: bytes)
    requires forall i, j :: 0 <= i < j < |s| ==> s[i] != s[j]
    ensures multiset(s)[x] <= 1
  {
    if s != [] {
      assert s == [s[0]] + s[1..];
      MultiplicityOfDistinct(s[1..], x);
      if x == s[0] {
        assert x !in s[1..];
      }
    }
  }

  /** Two strictly ascending sequences of the same keys are the same sequence,
      so the order the keys were collected in does not matter after sorting. */
  lemma {:induction false} StrictlySortedUnique(a: seq<bytes>, b: seq<bytes>)
    requires StrictlySorted(a) && StrictlySorted(b)
    requires multiset(a) == multiset(b)
    ensures a == b
  {
    if a == [] {
      assert |b| == |multiset(b)| == 0;
    } else {
      assert b != [] by {
        assert a[0] in multiset(b);
      }
      SameHeads(a, b);
      DropHead(a);
      DropHead(b);
      StrictlySortedUnique(a[1..], b[1..]);
      assert a == [a[0]] + a[1..] && b == [b[0]] + b[1..];
    }
  }

  /** Dropping the head keeps the rest sorted and removes one occurrence. */
  lemma DropHead(a: seq<bytes>)
    requires StrictlySorted(a) && a != []
    ensures StrictlySorted(a[1..])
    ensures multiset(a[1..]) == multiset(a) - multiset{a[0]}
  {
    assert a == [a[0]] + a[1..];
    forall i, j | 0 <= i < j < |a[1..]| ensures Less(a[1..][i], a[1..][j]) {
      assert a[1..][i] == a[i + 1] && a[1..][j] == a[j + 1];
    }
  }

  lemma SameHeads(a: seq<bytes>, b: seq<bytes>)
    requires StrictlySorted(a) && StrictlySorted(b)
    requires multiset(a) == multiset(b) && a != [] && b != []
    ensures a[0] == b[0]
  {
    assert a[0] in multiset(b) && b[0] in multiset(a);
    var k :| 0 <= k < |b| && b[k] == a[0];
    var m :| 0 <= m < |a| && a[m] == b[0];
    if a[0] != b[0] {
      assert k > 0 && m > 0;
      assert Less(b[0], a[0]) && Less(a[0], b[0]);
      LessAsymmetric(a[0], b[0]);
    }
  }

  /** Sorting one more element inserts it into the sorted rest. */
  lemma SortByStep<T>(s: seq<T>, x: T, key: T -> bytes)
    ensures SortBy(s + [x], key) == Insert(SortBy(s, key), x, key)
  {
    assert (s + [x])[..|s|] == s;
  }

  /** The in-place sort: insertion sort by adjacent swaps, as sort.Sort
      performs it on up to 12 elements. The result is exactly the
      functional stable sort. */
  method SortInPlace<T>(a: array<T>, key: T -> bytes)
    modifies a
    ensures a[..] == SortBy(old(a[..]), key)
  {
    ghost var o := a[..];
    var i := 0;
    while i < a.Length
      invariant 0 <= i <= a.Length && |o| == a.Length
      invariant a[..] == SortBy(o[..i], key) + o[i..]
    {
      assert a[..i] == SortBy(o[..i], key);
      assert a[i] == o[i];
      InsertInPlace(a, i, key);
      assert o[..i + 1] == o[..i] + [o[i]];
      SortByStep(o[..i], o[i], key);
      assert o[i..][1..] == o[i + 1..];
      i := i + 1;
    }
    assert o[..a.Length] == o;
  }

  /** The inner loop of the insertion sort: the element at index i is swapped
      leftwards into the sorted prefix a[..i]. */
  method InsertInPlace<T>(a: array<T>, i: nat, key: T -> bytes)
    requires i < a.Length
    modifies a
    ensures a[..] == Insert(old(a[..i]), old(a[i]), key) + old(a[i + 1..])
  {
    ghost var sorted := a[..i];
    ghost var rest := a[i + 1..];
    var x := a[i];
    assert a[..] == sorted + [x] + rest;
    var j := i;
    assert sorted[..j] == sorted && sorted[j..] == [];
    while j > 0 && Less(key(a[j]), key(a[j - 1]))
      invariant 0 <= j <= i
      invariant a[..] == sorted[..j] + [x] + sorted[j..] + rest
      invariant Insert(sorted[..j], x, key) + sorted[j..] == Insert(sorted, x, key)
    {
      assert a[j] == a[..][j] == x;
      assert a[j - 1] == a[..][j - 1] == sorted[j - 1];
      SwapStep(sorted, x, rest, j);
      InsertMovesLeft(sorted, x, key, j);
      a[j - 1], a[j] := a[j], a[j - 1];
      j := j - 1;
    }
    assert a[j] == a[..][j] == x;
    assert j > 0 ==> a[j - 1] == a[..][j - 1] == sorted[j - 1];
    InsertStops(sorted, x, key, j);
  }

  lemma InsertMovesLeft<T>(sorted: seq<T>, x: T, key: T -> bytes, j: nat)
    requires 0 < j <= |sorted| && Less(key(x), key(sorted[j - 1]))
    ensures Insert(sorted[..j - 1], x, key) + sorted[j - 1..] == Insert(sorted[..j], x, key) + sorted[j..]
  {
    assert sorted[..j][..j - 1] == sorted[..j - 1];
    assert sorted[j - 1..] == [sorted[j - 1]] + sorted[j..];
  }

  lemma InsertStops<T>(sorted: seq<T>, x: T, key: T -> bytes, j: nat)
    requires j <= |sorted| && (j == 0 || !Less(key(x), key(sorted[j - 1])))
    ensures Insert(sorted[..j], x, key) == sorted[..j] + [x]
  {
  }

  lemma SwapStep<T>(sorted: seq<T>, x: T, rest: seq<T>, j: nat)
    requires 0 < j <= |sorted|
    ensures (sorted[..j] + [x] + sorted[j..] + rest)[j - 1 := x][j := sorted[j - 1]]
         == sorted[..j - 1] + [x] + sorted[j - 1..] + rest
  {
  }

  /** Some enumeration of a set, without repetitions. */
  ghost function SetToSeq(s: set<bytes>): (r: seq<bytes>)
    ensures |r| == |s|
  {
    if s == {} then []
    else
      var x :| x in s;
      [x] + SetToSeq(s - {x})
  }

  /** The enumeration holds exactly the members of the set. */
  lemma {:induction false} SetToSeqMembers(s: set<bytes>)
    ensures forall x :: x in SetToSeq(s) <==> x in s
  {
    if s != {} {
      var r := SetToSeq(s);
      var x := r[0];
      assert x in s;
      assert r == [x] + SetToSeq(s - {x});
      SetToSeqMembers(s - {x});
      forall y ensures y in r <==> y in s {
        assert y in r <==> y == x || y in SetToSeq(s - {x});
      }
    }
  }

  /** The enumeration repeats no element. */
  lemma {:induction false} SetToSeqDistinct(s: set<bytes>)
    ensures forall i, j :: 0 <= i < j < |SetToSeq(s)| ==> SetToSeq(s)[i] != SetToSeq(s)[j]
  {
    if s != {} {
      var r := SetToSeq(s);
      var x := r[0];
      assert x in s;
      assert r[1..] == SetToSeq(s - {x});
      SetToSeqMembers(s - {x});
      SetToSeqDistinct(s - {x});
    }
  }

  /** The keys of a set in ascending byte order: the order in which the
      encoder emits a map's entries, whatever order it collects them in. */
  ghost function SortedKeys(s: set<bytes>): (r: seq<bytes>)
    ensures |r| == |s|
  {
    SortBy(SetToSeq(s), Id)
  }

  /** The sorted keys are exactly the members of the set. */
  lemma SortedKeysMembers(s: set<bytes>)
    ensures forall x :: x in SortedKeys(s) <==> x in s
  {
    var q := SetToSeq(s);
    var r := SortBy(q, Id);
    SetToSeqMembers(s);
    SortByPermutes(q, Id);
    assert forall x :: x in r <==> x in multiset(r);
    assert forall x :: x in q <==> x in multiset(q);
  }

  lemma SortedKeysAscending(s: set<bytes>)
    ensures StrictlySorted(SortedKeys(s))
  {
    SetToSeqDistinct(s);
    SortDistinct(SetToSeq(s));
  }

  /** Sorting any enumeration of a set without repetitions yields its sorted
      keys. */
  lemma SortedEnumeration(q: seq<bytes>, s: set<bytes>)
    requires |q| == |s| && forall x :: x in q <==> x in s
    requires forall i, j :: 0 <= i < j < |q| ==> q[i] != q[j]
    ensures SortBy(q, Id) == SortedKeys(s)
  {
    var a, b := SortBy(q, Id), SortedKeys(s);
    SortDistinct(q);
    var p := SetToSeq(s);
    SetToSeqMembers(s);
    SetToSeqDistinct(s);
    SortDistinct(p);
    assert multiset(q) == multiset(p) by {
      forall x ensures multiset(q)[x] == multiset(p)[x] {
        MultiplicityOfDistinct(q, x);
        MultiplicityOfDistinct(p, x);
        assert x in q <==> x in multiset(q);
        assert x in p <==> x in multiset(p);
      }
    }
    SortByPermutes(q, Id);
    SortByPermutes(p, Id);
    StrictlySortedUnique(a, SortBy(p, Id));
  }
}

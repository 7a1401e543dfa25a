/** The hashing reader: a buffered reader over an in-memory byte source that
    feeds every byte it hands out to a hash while `shouldHash` is set. The
    hash is modelled as the sequence of bytes written to it (SHA-1 itself is
    not part of this model). The pure step functions specify the class. */
module HashingReader {
  import opened Common

  /** The reader's state: the read position in the source, the hashing flag
      and the hash input, None while no hash has been installed (nil). */
  datatype RState = RState(pos: nat, shouldHash: bool, hash: Option<bytes>)

  /** The result of one read together with the state it leaves. */
  datatype Step<T> = Step(res: Result<T>, st: RState)

  /** The position is inside the source and hashing implies a hash exists. */
  predicate ValidState(data: bytes, st: RState) {
    st.pos <= |data| && (st.shouldHash ==> st.hash.Some?)
  }

  /** hash.Write(b) when hashing is on; nothing otherwise. */
  function Feed(st: RState, b: bytes): (r: RState)
    requires st.shouldHash ==> st.hash.Some?
    ensures r.pos == st.pos && r.shouldHash == st.shouldHash
    ensures !st.shouldHash ==> r.hash == st.hash
    ensures st.shouldHash ==> r.hash == Some(st.hash.value + b)
  {
    if st.shouldHash then st.(hash := Some(st.hash.value + b)) else st
  }

  /** Feeding two pieces in turn is feeding them joined. */
  lemma FeedFeed(st: RState, a: bytes, b: bytes)
    requires st.shouldHash ==> st.hash.Some?
    ensures Feed(Feed(st, a), b) == Feed(st, a + b)
  {
    if st.shouldHash {
      assert st.hash.value + a + b == st.hash.value + (a + b);
    }
  }

  /** The first index at or after i holding delim. */
  function IndexFrom(data: bytes, i: nat, delim: byte): (r: Option<nat>)
    requires i <= |data|
    ensures r.Some? ==> i <= r.value < |data| && data[r.value] == delim
    decreases |data| - i
  {
    if i == |data| then None
    else if data[i] == delim then Some(i)
    else IndexFrom(data, i + 1, delim)
  }

  /** IndexFrom finds the first delim at or after i, and None means there
      is none from i on. */
  lemma {:induction false} IndexFromSpec(data: bytes, i: nat, delim: byte)
    requires i <= |data|
    ensures var r := IndexFrom(data, i, delim);
            && (r.Some? ==> i <= r.value < |data| && data[r.value] == delim
                            && forall k :: i <= k < r.value ==> data[k] != delim)
            && (r.None? ==> forall k :: i <= k < |data| ==> data[k] != delim)
    decreases |data| - i
  {
    if i < |data| && data[i] != delim {
      IndexFromSpec(data, i + 1, delim);
    }
  }

  /** Peek(n): the next n bytes without consuming them, or EOF when fewer
      remain. */
  function PeekF(data: bytes, st: RState, n: nat): (r: Result<bytes>)
    requires st.pos <= |data|
    ensures r.Ok? <==> st.pos + n <= |data|
    ensures r.Ok? ==> |r.value| == n && r.value == data[st.pos..st.pos + n]
    ensures r.Err? ==> r.error == EOF
  {
    if st.pos + n <= |data| then Ok(data[st.pos..st.pos + n]) else Err(EOF)
  }

  /** ReadByte: the next byte, hashed when hashing is on; EOF at the end of
      the source, consuming and hashing nothing. */
  function ReadByteF(data: bytes, st: RState): (r: Step<byte>)
    requires ValidState(data, st)
  {
    if st.pos < |data| then
      Step(Ok(data[st.pos]), Feed(st.(pos := st.pos + 1), [data[st.pos]]))
    else
      Step(Err(EOF), st)
  }

  /** ReadBytes(delim): everything up to and including the first delim,
      hashed when hashing is on. Without a delim bufio consumes the rest of
      the source and returns EOF; nothing is hashed then. */
  function ReadBytesF(data: bytes, st: RState, delim: byte): (r: Step<bytes>)
    requires ValidState(data, st)
  {
    match IndexFrom(data, st.pos, delim)
    case Some(i) => Step(Ok(data[st.pos..i + 1]), Feed(st.(pos := i + 1), data[st.pos..i + 1]))
    case None => Step(Err(EOF), st.(pos := |data|))
  }

  /** StartHasing: a fresh, empty hash, unless hashing is already on. */
  function StartF(st: RState): (r: RState) {
    if !st.shouldHash then st.(shouldHash := true, hash := Some([])) else st
  }

  /** StopHashing: clears the flag and keeps the hash. */
  function StopF(st: RState): (r: RState) {
    st.(shouldHash := false)
  }

  /** A successful ReadByte consumes exactly one byte and hashes it iff
      hashing is on; a failed one changes nothing. */
  lemma ReadByteSpec(data: bytes, st: RState)
    requires ValidState(data, st)
    ensures var r := ReadByteF(data, st);
            && ValidState(data, r.st)
            && (r.res.Ok? <==> st.pos < |data|)
            && (r.res.Ok? ==> r.res.value == data[st.pos] && r.st.pos == st.pos + 1
                              && r.st.shouldHash == st.shouldHash
                              && r.st.hash == (if st.shouldHash then Some(st.hash.value + [data[st.pos]]) else st.hash))
            && (r.res.Err? ==> r.res.error == EOF && r.st == st)
  {
  }

  /** A successful ReadBytes returns the bytes up to and including the first
      delim, and hashes exactly those iff hashing is on. */
  lemma ReadBytesSpec(data: bytes, st: RState, delim: byte)
    requires ValidState(data, st)
    ensures var r := ReadBytesF(data, st, delim);
            && ValidState(data, r.st) && st.pos <= r.st.pos
            && (r.res.Ok? <==> delim in data[st.pos..])
            && (r.res.Ok? ==> var b := r.res.value;
                              && |b| > 0 && b[|b| - 1] == delim
                              && (forall k :: 0 <= k < |b| - 1 ==> b[k] != delim)
                              && b == data[st.pos..r.st.pos]
                              && r.st == Feed(st.(pos := r.st.pos), b))
            && (r.res.Err? ==> r.res.error == EOF && r.st == st.(pos := |data|))
  {
    IndexFromSpec(data, st.pos, delim);
    match IndexFrom(data, st.pos, delim)
    case Some(i) =>
      assert data[st.pos..][i - st.pos] == delim;
      var b := data[st.pos..i + 1];
      assert forall k :: 0 <= k < |b| - 1 ==> b[k] == data[st.pos + k];
    case None =>
      assert forall k :: 0 <= k < |data[st.pos..]| ==> data[st.pos..][k] == data[st.pos + k];
  }

  /** Starting hashes from an empty hash when off and changes nothing when
      on; stopping only clears the flag. */
  lemma StartStopSpec(st: RState)
    ensures !st.shouldHash ==> StartF(st) == RState(st.pos, true, Some([]))
    ensures st.shouldHash ==> StartF(st) == st
    ensures StopF(st) == RState(st.pos, false, st.hash)
  {
  }

  /** The reader itself. The source is fixed; the position, the flag and the
      hash input change as bytes are consumed. */
  class Reader {
    const data: bytes
    var pos: nat
    var shouldHash: bool
    var hash: Option<bytes>

    ghost predicate Valid()
      reads this
    {
      ValidState(data, State())
    }

    function State(): RState
      reads this
    {
      RState(pos, shouldHash, hash)
    }

    /** A reader at the start of the source, not hashing, with a nil hash. */
    constructor(source: bytes)
      ensures data == source && State() == RState(0, false, None)
      ensures Valid()
    {
      data := source;
      pos := 0;
      shouldHash := false;
      hash := None;
    }

    method Peek(n: nat) returns (r: Result<bytes>)
      requires Valid()
      ensures r == PeekF(data, State(), n)
    {
      if pos + n <= |data| {
        r := Ok(data[pos..pos + n]);
      } else {
        r := Err(EOF);
      }
    }

    method ReadByte() returns (r: Result<byte>)
      requires Valid()
      modifies this
      ensures Valid()
      ensures Step(r, State()) == ReadByteF(data, old(State()))
    {
      if pos < |data| {
        var b := data[pos];
        pos := pos + 1;
        if shouldHash {
          hash := Some(hash.value + [b]);
        }
        r := Ok(b);
      } else {
        r := Err(EOF);
      }
    }

    /** Scans the buffer for delim, as bufio does, and hashes the returned
        slice on success. */
    method ReadBytes(delim: byte) returns (r: Result<bytes>)
      requires Valid()
      modifies this
      ensures Valid()
      ensures Step(r, State()) == ReadBytesF(data, old(State()), delim)
    {
      var i := pos;
      while i < |data| && data[i] != delim
        invariant pos <= i <= |data|
        invariant IndexFrom(data, i, delim) == IndexFrom(data, pos, delim)
      {
        i := i + 1;
      }
      if i == |data| {
        pos := |data|;
        r := Err(EOF);
      } else {
        var b := data[pos..i + 1];
        pos := i + 1;
        if shouldHash {
          hash := Some(hash.value + b);
        }
        r := Ok(b);
      }
    }

    method StartHashing()
      requires Valid()
      modifies this
      ensures Valid()
      ensures State() == StartF(old(State()))
    {
      if !shouldHash {
        hash := Some([]);
        shouldHash := true;
      }
    }

    method StopHashing()
      requires Valid()
      modifies this
      ensures Valid()
      ensures State() == StopF(old(State()))
    {
      shouldHash := false;
    }
  }
}

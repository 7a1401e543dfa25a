/** Resolution of a struct field's dictionary key from its tag: the regular
    expression `bencoding:"([\w- ]*)"` is matched, leftmost first, by a
    scanner; an empty or "-" value means the field is ignored. */
module TagParsing {
  import opened Common
  import opened Values

  const Prefix: bytes := "bencoding:\""

  /** A byte of the class [\w- ]: an ASCII letter or digit, '_', '-' or space. */
  predicate InTagClass(c: byte) {
    'a' <= c <= 'z' || 'A' <= c <= 'Z' || '0' <= c <= '9' || c == '_' || c == '-' || c == ' '
  }

  predicate AllInTagClass(s: bytes) {
    forall i :: 0 <= i < |s| ==> InTagClass(s[i])
  }

  /** The regular expression matches at index i of the tag and its group
      captures v: the prefix `bencoding:"`, then v, then a closing quote. */
  ghost predicate MatchesAt(tag: bytes, i: nat, v: bytes) {
    var k := i + |Prefix|;
    && k + |v| < |tag|
    && tag[i..k] == Prefix
    && tag[k..k + |v|] == v
    && AllInTagClass(v)
    && tag[k + |v|] == '"'
  }

  /** The end of the longest run of class bytes that starts at index k. */
  function RunEnd(tag: bytes, k: nat): (j: nat)
    requires k <= |tag|
    ensures k <= j <= |tag|
    ensures j < |tag| ==> !InTagClass(tag[j])
    decreases |tag| - k
  {
    if k == |tag| || !InTagClass(tag[k]) then k else RunEnd(tag, k + 1)
  }

  /** Every byte of the run is a class byte. */
  lemma {:induction false} RunEndInClass(tag: bytes, k: nat)
    requires k <= |tag|
    ensures forall m :: k <= m < RunEnd(tag, k) ==> InTagClass(tag[m])
    decreases |tag| - k
  {
    if k < |tag| && InTagClass(tag[k]) {
      RunEndInClass(tag, k + 1);
    }
  }

  /** One attempt of the matcher at index i: the prefix, the greedy run of
      class bytes, then a closing quote. */
  function MatchAt(tag: bytes, i: nat): (r: Option<bytes>)
    requires i <= |tag|
    ensures r.Some? ==> i + |Prefix| + |r.value| < |tag|
  {
    var k := i + |Prefix|;
    if k <= |tag| && tag[i..k] == Prefix then
      var j := RunEnd(tag, k);
      if j < |tag| && tag[j] == '"' then Some(tag[k..j]) else None
    else
      None
  }

  /** What the attempt yields is a match of the regular expression. */
  lemma MatchAtSound(tag: bytes, i: nat)
    requires i <= |tag| && MatchAt(tag, i).Some?
    ensures MatchesAt(tag, i, MatchAt(tag, i).value)
  {
    var k := i + |Prefix|;
    var v := tag[k..RunEnd(tag, k)];
    RunEndInClass(tag, k);
    assert AllInTagClass(v) by {
      forall m | 0 <= m < |v| ensures InTagClass(v[m]) {
        assert v[m] == tag[k + m];
      }
    }
  }

  /** Whenever the regular expression matches at index i, the attempt finds
      that match. The class excludes '"', so backtracking inside the greedy
      run can never find a shorter match. */
  lemma MatchAtComplete(tag: bytes, i: nat, v: bytes)
    requires i <= |tag| && MatchesAt(tag, i, v)
    ensures MatchAt(tag, i) == Some(v)
  {
    MatchEndsRun(tag, i, v);
  }

  /** The attempt succeeds exactly when the regular expression matches at
      index i, and then yields its group. */
  lemma MatchAtSpec(tag: bytes, i: nat)
    requires i <= |tag|
    ensures MatchAt(tag, i).Some? ==> MatchesAt(tag, i, MatchAt(tag, i).value)
    ensures MatchAt(tag, i).None? ==> forall v :: !MatchesAt(tag, i, v)
  {
    if MatchAt(tag, i).Some? {
      MatchAtSound(tag, i);
    }
    forall v | MatchesAt(tag, i, v) ensures MatchAt(tag, i).Some? {
      MatchAtComplete(tag, i, v);
    }
  }

  /** A match's group is the whole run of class bytes after the prefix,
      because the closing quote is not a class byte. */
  lemma MatchEndsRun(tag: bytes, i: nat, v: bytes)
    requires MatchesAt(tag, i, v)
    ensures RunEnd(tag, i + |Prefix|) == i + |Prefix| + |v|
  {
    RunEndInClass(tag, i + |Prefix|);
  }

  /** The leftmost match at index i or later. */
  function FindFrom(tag: bytes, i: nat): (r: Option<bytes>)
    requires i <= |tag|
    decreases |tag| - i
  {
    match MatchAt(tag, i)
    case Some(v) => Some(v)
    case None => if i == |tag| then None else FindFrom(tag, i + 1)
  }

  lemma {:induction false} FindFromLeftmost(tag: bytes, i: nat)
    requires i <= |tag|
    ensures var r := FindFrom(tag, i);
            && (r.Some? ==> exists m :: i <= m <= |tag| && MatchesAt(tag, m, r.value)
                                        && forall m', v :: i <= m' < m ==> !MatchesAt(tag, m', v))
            && (r.None? ==> forall m, v :: i <= m ==> !MatchesAt(tag, m, v))
    decreases |tag| - i
  {
    MatchAtSpec(tag, i);
    if MatchAt(tag, i).None? && i < |tag| {
      FindFromLeftmost(tag, i + 1);
      var r := FindFrom(tag, i + 1);
      if r.Some? {
        var m :| i + 1 <= m <= |tag| && MatchesAt(tag, m, r.value)
                 && forall m', v :: i + 1 <= m' < m ==> !MatchesAt(tag, m', v);
        assert forall m', v :: i <= m' < m ==> !MatchesAt(tag, m', v);
      }
    } else if MatchAt(tag, i).None? {
      forall m: nat, v | i <= m ensures !MatchesAt(tag, m, v) {
        if m > i {
          assert m + |Prefix| > |tag|;
        }
      }
    }
  }

  /** parseTag: the captured group of the leftmost match of the regular
      expression, or None (nil) when it matches nowhere. */
  function ParseTag(tag: bytes): (r: Option<bytes>) {
    FindFrom(tag, 0)
  }

  /** parseTag finds the leftmost match anywhere in the tag, and finds
      nothing exactly when there is no match. */
  lemma ParseTagLeftmost(tag: bytes)
    ensures var r := ParseTag(tag);
            && (r.Some? ==> exists m :: 0 <= m <= |tag| && MatchesAt(tag, m, r.value)
                                        && forall m', v :: 0 <= m' < m ==> !MatchesAt(tag, m', v))
            && (r.None? <==> forall m: nat, v :: !MatchesAt(tag, m, v))
  {
    FindFromLeftmost(tag, 0);
  }

  /** tagForFieldNamed: the raw tag of the first field declared with that
      name, or the empty tag when the struct type has no such field. */
  function TagForFieldNamed(fields: seq<FieldDecl>, name: bytes): (r: bytes) {
    if fields == [] then []
    else if fields[0].name == name then fields[0].tag
    else TagForFieldNamed(fields[1..], name)
  }

  lemma {:induction false} TagForFieldNamedSpec(fields: seq<FieldDecl>, name: bytes)
    ensures (forall i :: 0 <= i < |fields| ==> fields[i].name != name) ==> TagForFieldNamed(fields, name) == []
    ensures forall i :: (0 <= i < |fields| && fields[i].name == name
                         && forall k :: 0 <= k < i ==> fields[k].name != name) ==> TagForFieldNamed(fields, name) == fields[i].tag
  {
    if fields != [] && fields[0].name != name {
      TagForFieldNamedSpec(fields[1..], name);
      assert forall i :: 1 <= i < |fields| ==> fields[i] == fields[1..][i - 1];
    }
  }

  /** extractFieldOptions: the field's effective dictionary key. Its own name
      when the tag has no bencoding entry, "" (ignored) for a value "" or "-",
      and otherwise the tag value. */
  function ExtractFieldOptions(fields: seq<FieldDecl>, name: bytes): (r: bytes) {
    match ParseTag(TagForFieldNamed(fields, name))
    case None => name
    case Some(v) => if v == [] || v == "-" then [] else v
  }

  /** A field whose tag has no bencoding entry anywhere is keyed by its own
      name. */
  lemma ExtractFieldOptionsUntagged(fields: seq<FieldDecl>, name: bytes)
    requires forall m: nat, v :: !MatchesAt(TagForFieldNamed(fields, name), m, v)
    ensures ExtractFieldOptions(fields, name) == name
  {
    ParseTagLeftmost(TagForFieldNamed(fields, name));
  }

  /** A field whose tag's leftmost bencoding entry has value v is keyed by v,
      except that "" and "-" both mean "ignored" (the empty key): the key is
      never "-". */
  lemma ExtractFieldOptionsTagged(fields: seq<FieldDecl>, name: bytes, m: nat, v: bytes)
    requires MatchesAt(TagForFieldNamed(fields, name), m, v)
    requires forall m', v' :: 0 <= m' < m ==> !MatchesAt(TagForFieldNamed(fields, name), m', v')
    ensures ExtractFieldOptions(fields, name) == [] <==> v == [] || v == "-"
    ensures ExtractFieldOptions(fields, name) != [] ==> ExtractFieldOptions(fields, name) == v
  {
    var tag := TagForFieldNamed(fields, name);
    ParseTagLeftmost(tag);
    var r := ParseTag(tag);
    var m0 :| 0 <= m0 <= |tag| && MatchesAt(tag, m0, r.value)
              && forall m', v' :: 0 <= m' < m0 ==> !MatchesAt(tag, m', v');
    assert m0 == m;
    MatchEndsRun(tag, m, v);
    MatchEndsRun(tag, m, r.value);
    assert r.value == v;
  }

  /** The tag cases of the package's tests: a well-formed entry yields its
      value, including the empty and "-" values. */
  lemma ParseTagFindsValue()
    ensures ParseTag("bencoding:\"foo\"") == Some("foo")
    ensures ParseTag("bencoding:\"\"") == Some([])
    ensures ParseTag("bencoding:\"-\"") == Some("-")
  {
    var foo: bytes := "bencoding:\"foo\"";
    assert foo[0..11] == Prefix;
    assert RunEnd(foo, 14) == 14;
    assert RunEnd(foo, 13) == 14;
    assert RunEnd(foo, 12) == 14;
    assert RunEnd(foo, 11) == 14;
    assert foo[11..14] == "foo";
    assert MatchAt(foo, 0) == Some("foo");
    var empty: bytes := "bencoding:\"\"";
    assert empty[0..11] == Prefix;
    assert RunEnd(empty, 11) == 11;
    assert MatchAt(empty, 0) == Some([]);
    var dash: bytes := "bencoding:\"-\"";
    assert dash[0..11] == Prefix;
    assert RunEnd(dash, 12) == 12;
    assert RunEnd(dash, 11) == 12;
    assert dash[11..12] == "-";
    assert MatchAt(dash, 0) == Some("-");
  }

  /** The tag cases of the package's tests: a truncated or misspelled entry
      yields nothing. */
  lemma ParseTagRejectsShort()
    ensures ParseTag("bencoding:") == None
    ensures ParseTag("foo:\"bar\"") == None
  {
  }

  lemma ParseTagRejectsUnclosed()
    ensures ParseTag("bencoding:\"foo") == None
  {
    var unclosed: bytes := "bencoding:\"foo";
    ParseTagLeftmost(unclosed);
    forall m: nat, v | MatchesAt(unclosed, m, v) ensures false {
    }
  }

  lemma ParseTagRejectsMisspelled()
    ensures ParseTag("bencoding\"foo\"") == None
  {
    var noColon: bytes := "bencoding\"foo\"";
    ParseTagLeftmost(noColon);
    assert noColon[9] == '"' && noColon[10] == 'f' && noColon[11] == 'o' && Prefix[9] == ':';
    assert noColon[0..11][9] != Prefix[9];
    assert noColon[1..12][9] != Prefix[9];
    assert noColon[2..13][9] != Prefix[9];
    forall m: nat, v | MatchesAt(noColon, m, v) ensures false {
    }
  }
}

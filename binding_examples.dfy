/** Binding a dictionary onto the structs of the decoder's tests: which field
    each key resolves to through the tags, which keys fail to bind, and a
    struct with an unexported field that no key reaches. */
module BindingExamples {
  import opened Common
  import opened Strconv
  import opened Values
  import opened TagParsing
  import opened MapBinding
  import opened HashingReader
  import opened DecodeSpec

  /** The struct of the tag test: LongName tagged "n", Ignore tagged "",
      AlsoIgnore tagged "-", F untagged and G tagged "a b". */
  function TaggedDecls(): seq<FieldDecl> {
    [ FieldDecl("LongName", "bencoding:\"n\"", TInt(W64)),
      FieldDecl("Ignore", "bencoding:\"\"", TInt(Native)),
      FieldDecl("AlsoIgnore", "bencoding:\"-\"", TInt(Native)),
      FieldDecl("F", [], TInt(W64)),
      FieldDecl("G", "bencoding:\"a b\"", TInt(W64)) ]
  }

  lemma ParseTagOneLetter()
    ensures ParseTag("bencoding:\"n\"") == Some("n")
  {
    var t: bytes := "bencoding:\"n\"";
    assert t[0..11] == Prefix;
    assert RunEnd(t, 12) == 12;
    assert RunEnd(t, 11) == 12;
    assert t[11..12] == "n";
    assert MatchAt(t, 0) == Some("n");
  }

  lemma ParseTagWithSpace()
    ensures ParseTag("bencoding:\"a b\"") == Some("a b")
  {
    var t: bytes := "bencoding:\"a b\"";
    assert t[0..11] == Prefix;
    assert RunEnd(t, 14) == 14;
    assert RunEnd(t, 13) == 14;
    assert RunEnd(t, 12) == 14;
    assert RunEnd(t, 11) == 14;
    assert t[11..14] == "a b";
    assert MatchAt(t, 0) == Some("a b");
  }

  /** The effective keys of the tag test's fields: "n", ignored, ignored,
      the field's own name, and "a b". */
  lemma TaggedKeys()
    ensures EffectiveKey(TaggedDecls(), 0) == "n"
    ensures EffectiveKey(TaggedDecls(), 1) == []
    ensures EffectiveKey(TaggedDecls(), 2) == []
    ensures EffectiveKey(TaggedDecls(), 3) == "F"
    ensures EffectiveKey(TaggedDecls(), 4) == "a b"
  {
    KeyOfLongName();
    KeyOfIgnore();
    KeyOfAlsoIgnore();
    KeyOfF();
    KeyOfG();
  }

  lemma KeyOfLongName()
    ensures EffectiveKey(TaggedDecls(), 0) == "n"
  {
    ParseTagOneLetter();
  }

  lemma KeyOfIgnore()
    ensures EffectiveKey(TaggedDecls(), 1) == []
  {
    var ds := TaggedDecls();
    assert ds[0].name != "Ignore";
    assert TagForFieldNamed(ds, "Ignore") == TagForFieldNamed(ds[1..], "Ignore");
    ParseTagFindsValue();
  }

  lemma KeyOfAlsoIgnore()
    ensures EffectiveKey(TaggedDecls(), 2) == []
  {
    var ds := TaggedDecls();
    assert ds[0].name != "AlsoIgnore" && ds[1].name != "AlsoIgnore";
    assert TagForFieldNamed(ds, "AlsoIgnore") == TagForFieldNamed(ds[2..], "AlsoIgnore");
    ParseTagFindsValue();
  }

  lemma KeyOfF()
    ensures EffectiveKey(TaggedDecls(), 3) == "F"
  {
    var ds := TaggedDecls();
    assert ds[0].name != "F" && ds[1].name != "F" && ds[2].name != "F";
    assert TagForFieldNamed(ds, "F") == TagForFieldNamed(ds[3..], "F");
    assert ParseTag([]) == None;
  }

  lemma KeyOfG()
    ensures EffectiveKey(TaggedDecls(), 4) == "a b"
  {
    var ds := TaggedDecls();
    assert ds[0].name != "G" && ds[1].name != "G" && ds[2].name != "G" && ds[3].name != "G";
    assert TagForFieldNamed(ds, "G") == TagForFieldNamed(ds[4..], "G");
    ParseTagWithSpace();
  }

  /** The keys of the tag test resolve through the tags. */
  lemma TaggedFieldsResolve()
    ensures TaggedField(TaggedDecls(), "n") == Some(0)
    ensures TaggedField(TaggedDecls(), "F") == Some(3)
    ensures TaggedField(TaggedDecls(), "a b") == Some(4)
  {
    TaggedKeys();
  }

  /** "foo" and the Go name of a tagged field resolve to nothing. The empty
      key resolves to the first ignored field: only the dictionary of the
      test has no such key. */
  lemma UntaggedKeysResolve()
    ensures TaggedField(TaggedDecls(), "foo") == None
    ensures TaggedField(TaggedDecls(), "LongName") == None
    ensures TaggedField(TaggedDecls(), []) == Some(1)
  {
    TaggedKeys();
  }

  /** A dictionary binds onto the tag test's struct when each of its keys
      either has no field or holds an integer, and no key is empty (the
      ignored fields are plain ints, an int64 is not assignable to them). */
  lemma IntegersBind(d: map<bytes, BValue>)
    requires [] !in d
    requires forall k :: k in d ==> d[k].BInt? || TaggedField(TaggedDecls(), k).None?
    ensures AllBind(d, TaggedDecls())
  {
    var ds := TaggedDecls();
    TaggedKeys();
    forall k | k in d
      ensures KeyBinds(d, ds, k)
    {
      var r := TaggedField(ds, k);
      if r.Some? {
        assert r.value == 0 || r.value == 3 || r.value == 4;
      }
    }
  }

  /** The dictionary of the tag test binds: its integers go to int64
      fields, and the key "foo" has no field. */
  lemma TaggedDictBinds()
    ensures AllBind(map["F" := BInt(1337), "foo" := BStr("bar"), "n" := BInt(42), "a b" := BInt(55)], TaggedDecls())
  {
    var d: map<bytes, BValue> := map["F" := BInt(1337), "foo" := BStr("bar"), "n" := BInt(42), "a b" := BInt(55)];
    TaggedDictShape(d);
    UntaggedKeysResolve();
    IntegersBind(d);
  }

  lemma TaggedDictShape(d: map<bytes, BValue>)
    requires d == map["F" := BInt(1337), "foo" := BStr("bar"), "n" := BInt(42), "a b" := BInt(55)]
    ensures [] !in d
    ensures forall k :: k in d ==> d[k].BInt? || k == "foo"
  {
  }

  /** A decoded list is a []interface{}, which is not assignable to a
      []string field: binding fails with the key's error, although the
      package's test of this case expects success. */
  lemma StringSliceFieldFails()
    ensures var d := map["X" := BList([BStr("foo")])];
            var decls := [FieldDecl("X", [], TSlice(TString))];
            && !AllBind(d, decls)
            && BindError(d, decls, FieldFailedToBind("X"))
  {
    var d: map<bytes, BValue> := map["X" := BList([BStr("foo")])];
    var decls := [FieldDecl("X", [], TSlice(TString))];
    assert ParseTag([]) == None;
    assert EffectiveKey(decls, 0) == "X";
    assert TaggedField(decls, "X") == Some(0);
    assert !KeyBinds(d, decls, "X");
    assert FieldError("X", d["X"], decls[0].typ, FieldFailedToBind("X"));
  }

  /** A struct with an exported field A and an unexported field b, both
      int64 and untagged. */
  function HiddenField(): GoValue {
    Struct([Field("A", [], Int(W64, 0)), Field("b", [], Int(W64, 0))])
  }

  lemma HiddenFieldKeys()
    ensures TaggedField(TypeOf(HiddenField()).decls, "A") == Some(0)
    ensures TaggedField(TypeOf(HiddenField()).decls, "b") == Some(1)
  {
    var ds := TypeOf(HiddenField()).decls;
    assert ds == [FieldDecl("A", [], TInt(W64)), FieldDecl("b", [], TInt(W64))];
    assert ParseTag([]) == None;
    assert TagForFieldNamed(ds, "b") == TagForFieldNamed(ds[1..], "b");
    assert EffectiveKey(ds, 0) == "A" && EffectiveKey(ds, 1) == "b";
  }

  /** Decoding "d1:Ai1ee" into such a struct binds A and leaves b alone: a
      field no key reaches may be unexported. */
  lemma ExportedKeyBinds()
    ensures var d := map["A" := BInt(1)];
            && BindSafe(d, HiddenField(), false)
            && AllBind(d, TypeOf(HiddenField()).decls)
            && StructBound(d, HiddenField(), Struct([Field("A", [], Int(W64, 1)), Field("b", [], Int(W64, 0))]))
  {
    var d: map<bytes, BValue> := map["A" := BInt(1)];
    var s := HiddenField();
    HiddenFieldKeys();
    assert KeySafe("A", d["A"], s, false);
    assert KeyBinds(d, TypeOf(s).decls, "A");
    assert Owner(d, TypeOf(s).decls, 0) == Some("A");
    assert Owner(d, TypeOf(s).decls, 1) == None;
  }

  /** A key that reaches the unexported field is outside what bind can do
      without reflect's panic. */
  lemma UnexportedKeyUnsafe()
    ensures !BindSafe(map["b" := BInt(1)], HiddenField(), false)
  {
    var d: map<bytes, BValue> := map["b" := BInt(1)];
    HiddenFieldKeys();
    assert !KeySafe("b", d["b"], HiddenField(), false);
  }

  lemma HiddenDict()
    ensures DictF("d1:Ai1ee", RState(0, false, None)) == Partial(None, map["A" := BInt(1)], RState(8, false, None))
  {
    var data: bytes := "d1:Ai1ee";
    assert IndexFrom(data, 1, ':') == Some(2);
    assert data[1..3] == "1:" && data[3..4] == "A";
    assert ParseInt("1") == Ok(1);
    assert StringF(data, RState(1, false, None)) == Step(Ok("A"), RState(4, false, None));
    assert IndexFrom(data, 5, 'e') == Some(6);
    assert data[5..7] == "1e";
    assert ItemF(data, RState(4, false, None)) == Step(Ok(BInt(1)), RState(7, false, None));
    assert DictLoopF(data, RState(7, false, None), map["A" := BInt(1)])
        == Partial(None, map["A" := BInt(1)], RState(8, false, None));
  }

  /** Unmarshal of "d1:Ai1ee" into a pointer to that struct is within the
      model and succeeds on every key order, setting A to 1 and leaving the
      unexported b at 0. */
  lemma HiddenFieldUnmarshals()
    ensures var v := Ptr(TypeOf(HiddenField()), Some(HiddenField()));
            && Decodable("d1:Ai1ee", RState(0, false, None), v)
            && forall v', err | Unmarshalled("d1:Ai1ee", RState(0, false, None), v, v', err) ::
                 && err.None? && v'.ref.Some? && v'.ref.value.Struct? && |v'.ref.value.fields| == 2
                 && v'.ref.value.fields[0].value == Int(W64, 1)
                 && v'.ref.value.fields[1].value == Int(W64, 0)
  {
    var s := HiddenField();
    var d: map<bytes, BValue> := map["A" := BInt(1)];
    HiddenDict();
    ExportedKeyBinds();
    HiddenFieldKeys();
    assert Owner(d, TypeOf(s).decls, 0) == Some("A");
    assert Owner(d, TypeOf(s).decls, 1) == None;
  }
}

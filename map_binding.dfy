/** Binding of a decoded dictionary onto a struct: every key is bound to the
    first field whose effective key equals it. Go's map iteration order is
    unspecified, so the key to bind next is chosen nondeterministically and
    the outcome is specified by relations that hold for every order. A Go
    struct is updated in place through reflection; here the struct value is
    rebuilt field by field. */
module MapBinding {
  import opened Common
  import opened Values
  import opened TagParsing

  /** The effective dictionary key of field i. */
  function EffectiveKey(decls: seq<FieldDecl>, i: nat): bytes
    requires i < |decls|
  {
    ExtractFieldOptions(decls, decls[i].name)
  }

  /** The first field at index i or later whose effective key is k. */
  function TaggedFieldFrom(decls: seq<FieldDecl>, k: bytes, i: nat): (r: Option<nat>)
    requires i <= |decls|
    ensures r.Some? ==> i <= r.value < |decls| && EffectiveKey(decls, r.value) == k
                        && forall j :: i <= j < r.value ==> EffectiveKey(decls, j) != k
    ensures r.None? ==> forall j :: i <= j < |decls| ==> EffectiveKey(decls, j) != k
    decreases |decls| - i
  {
    if i == |decls| then None
    else if EffectiveKey(decls, i) == k then Some(i)
    else TaggedFieldFrom(decls, k, i + 1)
  }

  /** The field a dictionary key binds to: the first in declaration order
      whose effective key is k. */
  function TaggedField(decls: seq<FieldDecl>, k: bytes): (r: Option<nat>)
    ensures r.Some? ==> r.value < |decls| && EffectiveKey(decls, r.value) == k
                        && forall j :: 0 <= j < r.value ==> EffectiveKey(decls, j) != k
    ensures r.None? ==> forall j :: 0 <= j < |decls| ==> EffectiveKey(decls, j) != k
  {
    TaggedFieldFrom(decls, k, 0)
  }

  /** The key of d that binds to field i, if any. */
  function Owner(d: map<bytes, BValue>, decls: seq<FieldDecl>, i: nat): (r: Option<bytes>)
    requires i < |decls|
    ensures r.Some? ==> r.value in d && TaggedField(decls, r.value) == Some(i)
    ensures r.None? ==> forall k :: k in d ==> TaggedField(decls, k) != Some(i)
  {
    var k := EffectiveKey(decls, i);
    if k in d && TaggedField(decls, k) == Some(i) then Some(k) else None
  }

  /** AssignableTo, for the types a decoded value can have: the same type,
      or an empty interface. */
  predicate Assignable(from: GoType, to: GoType) {
    from == to || to == TIface
  }

  /** The value field.Set stores for a decoded value. */
  function Assign(b: BValue, t: GoType): (v: GoValue)
    requires Assignable(DynType(b), t)
    ensures TypeOf(v) == t && WellTyped(v)
  {
    DynWellTyped(b);
    if t == TIface then Iface(Some(Dyn(b))) else Dyn(b)
  }

  /** isBindableStructAndDict. */
  predicate IsBindableStructAndDict(t: GoType, b: BValue) {
    t.TStruct? && b.BDict?
  }

  /** bindField succeeds for a field of type t: the value is assignable, or
      it is a dictionary for a struct whose binding succeeds, or the field is
      a pointer whose referent can take it. */
  predicate FieldBinds(b: BValue, t: GoType)
    decreases b, 2
  {
    || Assignable(DynType(b), t)
    || (IsBindableStructAndDict(t, b) && AllBind(b.entries, t.decls))
    || (t.TPtr? && (Assignable(DynType(b), t.target) || IsBindableStructAndDict(t.target, b)))
  }

  /** Key k of d binds: it has no field, or its field takes its value. */
  predicate KeyBinds(d: map<bytes, BValue>, decls: seq<FieldDecl>, k: bytes)
    requires k in d
    decreases BDict(d), 0
  {
    match TaggedField(decls, k)
    case None => true
    case Some(i) => FieldBinds(d[k], decls[i].typ)
  }

  /** bind succeeds: every key binds. */
  predicate AllBind(d: map<bytes, BValue>, decls: seq<FieldDecl>)
    decreases BDict(d), 1
  {
    forall k :: k in d ==> KeyBinds(d, decls, k)
  }

  /** e is an error bindField may return for key k, value b, field type t. */
  ghost predicate FieldError(k: bytes, b: BValue, t: GoType, e: Error)
    decreases b, 1
  {
    && !Assignable(DynType(b), t)
    && if IsBindableStructAndDict(t, b) then BindError(b.entries, t.decls, e)
       else if t.TPtr? then e == UnableToBind
       else e == FieldFailedToBind(k)
  }

  /** e is an error bind may return: the error of some key that fails. */
  ghost predicate BindError(d: map<bytes, BValue>, decls: seq<FieldDecl>, e: Error)
    decreases BDict(d), 0
  {
    exists k :: k in d && TaggedField(decls, k).Some?
                && FieldError(k, d[k], decls[TaggedField(decls, k).value].typ, e)
  }

  /** The struct prepare leaves behind a pointer: the referent, or a zero
      value when the pointer is nil. */
  function Prepared(p: GoValue): GoValue
    requires p.Ptr?
  {
    if p.ref.Some? then p.ref.value else Zero(p.target)
  }

  /** next is a value a successful bindField can leave in a field holding cur. */
  ghost predicate FieldBound(b: BValue, cur: GoValue, next: GoValue)
    decreases b, 1
  {
    var t := TypeOf(cur);
    if Assignable(DynType(b), t) then next == Assign(b, t)
    else if IsBindableStructAndDict(t, b) then StructBound(b.entries, cur, next)
    else if t.TPtr? then
      if Assignable(DynType(b), cur.target) then next == Ptr(cur.target, Some(Assign(b, cur.target)))
      else IsBindableStructAndDict(cur.target, b) && next.Ptr? && next.target == cur.target
           && next.ref.Some? && MayBind(b.entries, Prepared(cur), next.ref.value)
    else false
  }

  /** next is a value bindField can leave in a field holding cur: a
      successful binding, or a struct binding that stopped at an error. */
  ghost predicate FieldMayBind(b: BValue, cur: GoValue, next: GoValue)
    decreases b, 2
  {
    FieldBound(b, cur, next) || (cur.Struct? && b.BDict? && MayBind(b.entries, cur, next))
  }

  /** Both structs have the same fields, names and tags. */
  predicate SameShape(s: GoValue, s': GoValue) {
    && s.Struct? && s'.Struct? && |s'.fields| == |s.fields|
    && forall i :: 0 <= i < |s.fields| ==> s'.fields[i].name == s.fields[i].name && s'.fields[i].tag == s.fields[i].tag
  }

  /** s' is what a successful bind of d leaves of s: each field that a key
      binds to is bound, every other field is unchanged. */
  ghost predicate StructBound(d: map<bytes, BValue>, s: GoValue, s': GoValue)
    decreases BDict(d), 0
  {
    && SameShape(s, s')
    && forall i :: 0 <= i < |s.fields| ==>
         match Owner(d, TypeOf(s).decls, i)
         case None => s'.fields[i] == s.fields[i]
         case Some(k) => FieldBound(d[k], s.fields[i].value, s'.fields[i].value)
  }

  /** s' is what bind of d may leave of s, stopped at an error or not: a
      field is unchanged or holds what binding its key may leave. */
  ghost predicate MayBind(d: map<bytes, BValue>, s: GoValue, s': GoValue)
    decreases BDict(d), 0
  {
    && SameShape(s, s')
    && forall i :: 0 <= i < |s.fields| ==>
         || s'.fields[i] == s.fields[i]
         || match Owner(d, TypeOf(s).decls, i)
            case None => false
            case Some(k) => FieldMayBind(d[k], s.fields[i].value, s'.fields[i].value)
  }

  /** The fields of s after field i is given value v. */
  function SetField(s: GoValue, i: nat, v: GoValue): (r: GoValue)
    requires s.Struct? && i < |s.fields|
    ensures SameShape(s, r)
  {
    Struct(s.fields[i := s.fields[i].(value := v)])
  }

  lemma SetFieldTyped(s: GoValue, i: nat, v: GoValue)
    requires s.Struct? && i < |s.fields| && TypeOf(v) == TypeOf(s.fields[i].value)
    requires WellTyped(s) && WellTyped(v)
    ensures TypeOf(SetField(s, i, v)) == TypeOf(s) && WellTyped(SetField(s, i, v))
  {
    var r := SetField(s, i, v);
    assert TypeOf(r).decls == TypeOf(s).decls;
  }

  /** Binding b into a field holding f never sets a read-only value, that is
      one reached through an unexported struct field: reflect panics on such
      a Set, in the assignments of bindField and bindPtr and in the
      allocation prepare makes for a nil pointer. A nested bind must be safe
      in turn, with the read-only flag carried down. */
  predicate FieldSafe(b: BValue, f: GoValue, readOnly: bool)
    decreases b, 2
  {
    var t := TypeOf(f);
    if Assignable(DynType(b), t) then !readOnly
    else if IsBindableStructAndDict(t, b) then f.Struct? && BindSafe(b.entries, f, readOnly)
    else if f.Ptr? then
      if Assignable(DynType(b), f.target) then !readOnly
      else if IsBindableStructAndDict(f.target, b) then
        (!readOnly || f.ref.Some?) && Prepared(f).Struct? && BindSafe(b.entries, Prepared(f), readOnly)
      else true
    else true
  }

  /** Binding key k with value b into struct s is safe: k has no field, or
      its field, read-only when s is or when its name is unexported, is. */
  predicate KeySafe(k: bytes, b: BValue, s: GoValue, readOnly: bool)
    decreases b, 3
  {
    s.Struct? &&
    match TaggedField(TypeOf(s).decls, k)
    case None => true
    case Some(i) => FieldSafe(b, s.fields[i].value, readOnly || !IsExported(s.fields[i].name))
  }

  /** bind of d on s never panics, whatever order it takes the keys in.
      Fields no key binds to may be unexported. */
  predicate BindSafe(d: map<bytes, BValue>, s: GoValue, readOnly: bool)
    decreases BDict(d), 1
  {
    s.Struct? && forall k :: k in d ==> KeySafe(k, d[k], s, readOnly)
  }

  /** findCorrectlyTaggedField: scans the fields in declaration order and
      stops at the first whose effective key is k. */
  method FindCorrectlyTaggedField(k: bytes, decls: seq<FieldDecl>) returns (r: Option<nat>)
    ensures r == TaggedField(decls, k)
  {
    var i := 0;
    while i < |decls|
      invariant i <= |decls|
      invariant TaggedFieldFrom(decls, k, i) == TaggedField(decls, k)
    {
      if ExtractFieldOptions(decls, decls[i].name) == k {
        return Some(i);
      }
      i := i + 1;
    }
    return None;
  }

  /** prepare: a nil pointer is given a freshly allocated zero referent. */
  method Prepare(p: GoValue) returns (r: GoValue)
    requires p.Ptr? && WellTyped(p)
    ensures r.Ptr? && r.target == p.target && r.ref.Some? && r.ref.value == Prepared(p)
    ensures p.ref.Some? ==> r == p
    ensures TypeOf(r.ref.value) == p.target && WellTyped(r)
  {
    if p.ref.None? {
      ZeroWellTyped(p.target);
      r := Ptr(p.target, Some(Zero(p.target)));
    } else {
      r := p;
    }
  }

  /** The state of bind part-way: the fields whose keys are outside
      pending are bound, all others are unchanged. */
  ghost predicate BoundExcept(d: map<bytes, BValue>, pending: set<bytes>, s: GoValue, r: GoValue) {
    && SameShape(s, r)
    && forall i :: 0 <= i < |s.fields| ==>
         match Owner(d, TypeOf(s).decls, i)
         case None => r.fields[i] == s.fields[i]
         case Some(k) => if k in pending then r.fields[i] == s.fields[i]
                         else FieldBound(d[k], s.fields[i].value, r.fields[i].value)
  }

  /** r' is r with only the field of key k changed, if k has a field. */
  ghost predicate OnlyKeyField(decls: seq<FieldDecl>, k: bytes, r: GoValue, r': GoValue)
    requires SameShape(r, r')
  {
    match TaggedField(decls, k)
    case None => r' == r
    case Some(i) => i < |r.fields| && forall j :: 0 <= j < |r.fields| && j != i ==> r'.fields[j] == r.fields[j]
  }

  lemma BindStep(d: map<bytes, BValue>, pending: set<bytes>, s: GoValue, r: GoValue, k: bytes, r': GoValue)
    requires k in pending && pending <= d.Keys && BoundExcept(d, pending, s, r)
    requires SameShape(r, r') && OnlyKeyField(TypeOf(s).decls, k, r, r')
    requires TaggedField(TypeOf(s).decls, k).Some? ==>
               var i := TaggedField(TypeOf(s).decls, k).value;
               FieldBound(d[k], r.fields[i].value, r'.fields[i].value)
    ensures BoundExcept(d, pending - {k}, s, r')
  {
    var decls := TypeOf(s).decls;
    if TaggedField(decls, k).Some? {
      var i := TaggedField(decls, k).value;
      assert Owner(d, decls, i) == Some(k);
    }
  }

  lemma BindStopped(d: map<bytes, BValue>, pending: set<bytes>, s: GoValue, r: GoValue, k: bytes, r': GoValue)
    requires k in pending && pending <= d.Keys && BoundExcept(d, pending, s, r)
    requires SameShape(r, r') && TaggedField(TypeOf(s).decls, k).Some? && OnlyKeyField(TypeOf(s).decls, k, r, r')
    requires var i := TaggedField(TypeOf(s).decls, k).value;
             r'.fields[i] == r.fields[i] || FieldMayBind(d[k], r.fields[i].value, r'.fields[i].value)
    ensures MayBind(d, s, r')
  {
    var decls := TypeOf(s).decls;
    var i := TaggedField(decls, k).value;
    assert Owner(d, decls, i) == Some(k);
  }

  lemma BoundDone(d: map<bytes, BValue>, s: GoValue, r: GoValue)
    requires BoundExcept(d, {}, s, r)
    ensures StructBound(d, s, r) && MayBind(d, s, r)
  {
  }

  /** Changing only the field of key k0 keeps every other key safe. */
  lemma KeySafeKept(k: bytes, b: BValue, r: GoValue, r': GoValue, readOnly: bool, k0: bytes)
    requires k != k0 && SameShape(r, r') && TypeOf(r') == TypeOf(r)
    requires OnlyKeyField(TypeOf(r).decls, k0, r, r')
    requires KeySafe(k, b, r, readOnly)
    ensures KeySafe(k, b, r', readOnly)
  {
  }

  /** bind: binds the keys of d one at a time, in an unspecified order, and
      stops at the first key that fails. readOnly is reflect's flag for a
      struct reached through an unexported field. */
  method Bind(d: map<bytes, BValue>, s: GoValue, readOnly: bool) returns (r: GoValue, err: Option<Error>)
    requires s.Struct? && WellTyped(s) && BindSafe(d, s, readOnly)
    ensures TypeOf(r) == TypeOf(s) && WellTyped(r)
    ensures err.None? <==> AllBind(d, TypeOf(s).decls)
    ensures err.None? ==> StructBound(d, s, r)
    ensures err.Some? ==> BindError(d, TypeOf(s).decls, err.value)
    ensures MayBind(d, s, r)
    decreases BDict(d), 0
  {
    var decls := TypeOf(s).decls;
    r := s;
    var pending := d.Keys;
    while pending != {}
      invariant pending <= d.Keys
      invariant r.Struct? && TypeOf(r) == TypeOf(s) && WellTyped(r)
      invariant forall k :: k in d && k !in pending ==> KeyBinds(d, decls, k)
      invariant BoundExcept(d, pending, s, r)
      invariant forall k :: k in pending ==> KeySafe(k, d[k], r, readOnly)
      decreases |pending|
    {
      var k :| k in pending;
      var r', e := BindField(k, d[k], r, readOnly);
      if e.Some? {
        BindStopped(d, pending, s, r, k, r');
        r, err := r', e;
        return;
      }
      BindStep(d, pending, s, r, k, r');
      forall k' | k' in pending - {k} ensures KeySafe(k', d[k'], r', readOnly) {
        KeySafeKept(k', d[k'], r, r', readOnly, k);
      }
      r := r';
      pending := pending - {k};
    }
    BoundDone(d, s, r);
    err := None;
  }

  /** bindField: finds the field for key k and stores b in it directly,
      binds a dictionary into a struct field, or hands a pointer field to
      bindPtr; any other field fails. A key without a field is skipped. */
  method BindField(k: bytes, b: BValue, s: GoValue, readOnly: bool) returns (r: GoValue, e: Option<Error>)
    requires s.Struct? && WellTyped(s) && KeySafe(k, b, s, readOnly)
    ensures TypeOf(r) == TypeOf(s) && WellTyped(r) && SameShape(s, r)
    ensures OnlyKeyField(TypeOf(s).decls, k, s, r)
    ensures TaggedField(TypeOf(s).decls, k).None? ==> e.None?
    ensures TaggedField(TypeOf(s).decls, k).Some? ==>
              var i := TaggedField(TypeOf(s).decls, k).value;
              && (e.None? <==> FieldBinds(b, TypeOf(s).decls[i].typ))
              && (e.None? ==> FieldBound(b, s.fields[i].value, r.fields[i].value))
              && (e.Some? ==> FieldError(k, b, TypeOf(s).decls[i].typ, e.value)
                              && (r.fields[i] == s.fields[i] || FieldMayBind(b, s.fields[i].value, r.fields[i].value)))
    decreases b, 3
  {
    var decls := TypeOf(s).decls;
    var found := FindCorrectlyTaggedField(k, decls);
    if found.None? {
      return s, None;
    }
    var i := found.value;
    var f := s.fields[i].value;
    assert decls[i].typ == TypeOf(f);
    var t := TypeOf(f);
    var fieldReadOnly := readOnly || !IsExported(s.fields[i].name);
    var v: GoValue;
    if Assignable(DynType(b), t) {
      v, e := Assign(b, t), None;
    } else if IsBindableStructAndDict(t, b) {
      v, e := Bind(b.entries, f, fieldReadOnly);
    } else if t.TPtr? {
      v, e := BindPtr(b, f, fieldReadOnly);
    } else {
      v, e := f, Some(FieldFailedToBind(k));
    }
    SetFieldTyped(s, i, v);
    r := SetField(s, i, v);
  }

  /** bindPtr: the referent takes an assignable value, or a dictionary when
      it is a struct; the pointer is allocated first if nil. The error of
      the nested bind is dropped. */
  method BindPtr(b: BValue, p: GoValue, readOnly: bool) returns (r: GoValue, e: Option<Error>)
    requires p.Ptr? && WellTyped(p) && FieldSafe(b, p, readOnly)
    ensures TypeOf(r) == TypeOf(p) && WellTyped(r)
    ensures e.None? <==> Assignable(DynType(b), p.target) || IsBindableStructAndDict(p.target, b)
    ensures e.None? ==> if Assignable(DynType(b), p.target) then r == Ptr(p.target, Some(Assign(b, p.target)))
                        else r.Ptr? && r.target == p.target && r.ref.Some? && MayBind(b.entries, Prepared(p), r.ref.value)
    ensures e.Some? ==> r == p && e.value == UnableToBind
    decreases b, 2
  {
    if Assignable(DynType(b), p.target) {
      var q := Prepare(p);
      r, e := Ptr(q.target, Some(Assign(b, p.target))), None;
    } else if IsBindableStructAndDict(p.target, b) {
      var q := Prepare(p);
      var inner, _ := Bind(b.entries, q.ref.value, readOnly);
      r, e := Ptr(q.target, Some(inner)), None;
    } else {
      r, e := p, Some(UnableToBind);
    }
  }
}

/**
 * `ExtendedEnum` of the allocator's interpreter
 * (Src/Allocator/Interpreter/dataclass.py): field and value listings,
 * first-match lookups by value or by case-insensitive name, and the `in`
 * test of its metaclass, together with the two type maps built on it.
 *
 * An enum class is given by its declarations in source order. As in Python's
 * `Enum`, a declaration whose value equals that of an earlier declaration is
 * an alias: it is reachable by name through `__members__` but iterating the
 * class skips it, so none of the operations below see it.
 */
module ExtendedEnums {
  import opened Common

  /** The numpy scalar types the type maps refer to. */
  datatype NpType =
    | Int8 | Int16 | Int32 | Int64 | UInt8 | UInt16 | UInt32 | UInt64
    | Float16 | Float32 | Float64 | LongDouble | Float128

  /** A scalar that can appear in a member value: an int, or another object (a numpy type). */
  datatype Atom = AInt(i: int) | AObj(t: NpType)

  /** A member value: a scalar, or a tuple (a `Sequence`) of scalars. */
  datatype EnumValue = Scalar(a: Atom) | Tuple(elems: seq<Atom>)

  datatype Decl = Decl(name: string, value: EnumValue)

  predicate ValueIn(v: EnumValue, ds: seq<Decl>)
    ensures ValueIn(v, ds) <==> exists j :: 0 <= j < |ds| && ds[j].value == v
  {
    ds != [] && (ds[|ds| - 1].value == v || ValueIn(v, ds[..|ds| - 1]))
  }

  /** The members `for c in cls` visits: declarations that are not aliases, in order. */
  function Members(ds: seq<Decl>): (r: seq<Decl>)
    ensures forall m :: m in r ==> m in ds
    ensures forall i, j :: 0 <= i < j < |r| ==> r[i].value != r[j].value
  {
    if ds == [] then []
    else
      var init := ds[..|ds| - 1];
      var last := ds[|ds| - 1];
      if ValueIn(last.value, init) then Members(init)
      else
        var r := Members(init) + [last];
        assert forall i :: 0 <= i < |r| - 1 ==> r[i] in init;
        r
  }

  /** An alias (a later declaration repeating an earlier value) is never a member. */
  lemma AliasNotMember(ds: seq<Decl>, k: nat)
    requires k < |ds| && ValueIn(ds[k].value, ds[..k])
    requires forall j :: 0 <= j < |ds| && j != k ==> ds[j] != ds[k]
    ensures ds[k] !in Members(ds)
  {
    var j :| 0 <= j < k && ds[..k][j].value == ds[k].value;
    assert ds[j].value == ds[k].value;
    var r := Members(ds);
    if ds[k] in r {
      var a :| 0 <= a < |r| && r[a] == ds[k];
      var b :| 0 <= b < |r| && r[b].value == ds[j].value;
      assert a == b;
      MemberFirstOfValue(ds, k);
    }
  }

  /** Every member is the first declaration of its value. */
  lemma {:induction false} MemberFirstOfValue(ds: seq<Decl>, k: nat)
    requires k < |ds| && ds[k] in Members(ds)
    requires forall j :: 0 <= j < |ds| && j != k ==> ds[j] != ds[k]
    ensures !ValueIn(ds[k].value, ds[..k])
    decreases |ds|
  {
    var init := ds[..|ds| - 1];
    if k < |ds| - 1 {
      assert init[k] == ds[k];
      assert ds[k] != ds[|ds| - 1];
      assert ds[k] in Members(init);
      MemberFirstOfValue(init, k);
      assert init[..k] == ds[..k];
    } else {
      assert init == ds[..k];
      assert ds[k] !in init;
      assert ds[k] !in Members(init);
    }
  }

  // -------------------------------------------------------------- fields()

  function FieldsOf(ms: seq<Decl>): seq<string> {
    if ms == [] then []
    else (if StartsWith(ms[0].name, "_") then [] else [Upper(ms[0].name)]) + FieldsOf(ms[1..])
  }

  /** `fields()`: the upper-cased names of the members, except names starting with '_'. */
  function Fields(ds: seq<Decl>): (r: seq<string>)
    ensures forall f :: f in r <==>
      exists m :: m in Members(ds) && !StartsWith(m.name, "_") && f == Upper(m.name)
  {
    FieldsIff(Members(ds));
    FieldsOf(Members(ds))
  }

  lemma {:induction false} FieldsIff(ms: seq<Decl>)
    ensures forall f :: f in FieldsOf(ms) <==>
      exists m :: m in ms && !StartsWith(m.name, "_") && f == Upper(m.name)
  {
    if ms != [] {
      FieldsIff(ms[1..]);
      forall f | f in FieldsOf(ms)
        ensures exists m :: m in ms && !StartsWith(m.name, "_") && f == Upper(m.name)
      {
        if f !in FieldsOf(ms[1..]) {
          assert f == Upper(ms[0].name);
        } else {
          var m :| m in ms[1..] && !StartsWith(m.name, "_") && f == Upper(m.name);
          assert m in ms;
        }
      }
      forall f, m | m in ms && !StartsWith(m.name, "_") && f == Upper(m.name)
        ensures f in FieldsOf(ms)
      {
        if m != ms[0] {
          assert m in ms[1..];
        }
      }
    }
  }

  // -------------------------------------------------------------- values()

  function ScalarValues(ms: seq<Decl>): (r: seq<Atom>)
    ensures forall a :: a in r <==> exists m :: m in ms && m.value == Scalar(a)
  {
    if ms == [] then []
    else
      var rest := ScalarValues(ms[1..]);
      assert forall m :: m in ms[1..] ==> m in ms;
      (if ms[0].value.Scalar? then [ms[0].value.a] else []) + rest
  }

  function NestedValues(ms: seq<Decl>): (r: seq<Atom>)
    ensures forall a :: a in r <==> exists m :: m in ms && m.value.Tuple? && a in m.value.elems
  {
    if ms == [] then []
    else
      var rest := NestedValues(ms[1..]);
      assert forall m :: m in ms[1..] ==> m in ms;
      (if ms[0].value.Tuple? then ms[0].value.elems else []) + rest
  }

  /** A member value contains the atom: equal to a scalar, or an element of a tuple. */
  predicate HasAtom(v: EnumValue, a: Atom) {
    match v
    case Scalar(x) => x == a
    case Tuple(es) => a in es
  }

  /**
   * `values()`: the scalar member values in member order, then the elements
   * of the tuple values, flattened in member order.
   */
  function Values(ds: seq<Decl>): (r: seq<Atom>)
    ensures r == ScalarValues(Members(ds)) + NestedValues(Members(ds))
    ensures forall a :: a in r <==> exists m :: m in Members(ds) && HasAtom(m.value, a)
  {
    ScalarValues(Members(ds)) + NestedValues(Members(ds))
  }

  // --------------------------------------------------------------- lookups

  /** The first member satisfying the test, as `for member in cls: if …: return member` does. */
  function FirstByValue(ms: seq<Decl>, v: int): (r: Option<nat>)
    ensures r.Some? ==> r.value < |ms| && HasAtom(ms[r.value].value, AInt(v))
                        && forall j :: 0 <= j < r.value ==> !HasAtom(ms[j].value, AInt(v))
    ensures r.None? ==> forall j :: 0 <= j < |ms| ==> !HasAtom(ms[j].value, AInt(v))
  {
    if ms == [] then None
    else if HasAtom(ms[0].value, AInt(v)) then Some(0)
    else match FirstByValue(ms[1..], v)
      case None => None
      case Some(j) => Some(j + 1)
  }

  /**
   * `get_member_via_name_from_value(value)`: the first member whose scalar
   * value equals `value` or whose tuple value contains it; ValueError if none.
   */
  function GetMemberViaNameFromValue(ds: seq<Decl>, v: int): (r: Result<Decl>)
    ensures r.Err? <==> forall m :: m in Members(ds) ==> !HasAtom(m.value, AInt(v))
    ensures r.Err? ==> r.error == ValueError
    ensures r.Ok? ==> exists i :: (0 <= i < |Members(ds)| && Members(ds)[i] == r.value
      && HasAtom(r.value.value, AInt(v))
      && forall j :: 0 <= j < i ==> !HasAtom(Members(ds)[j].value, AInt(v)))
  {
    match FirstByValue(Members(ds), v)
    case None => Err(ValueError)
    case Some(i) => Ok(Members(ds)[i])
  }

  function FirstByName(ms: seq<Decl>, name: string): (r: Option<nat>)
    ensures r.Some? ==> r.value < |ms| && Upper(ms[r.value].name) == Upper(name)
                        && forall j :: 0 <= j < r.value ==> Upper(ms[j].name) != Upper(name)
    ensures r.None? ==> forall j :: 0 <= j < |ms| ==> Upper(ms[j].name) != Upper(name)
  {
    if ms == [] then None
    else if Upper(ms[0].name) == Upper(name) then Some(0)
    else match FirstByName(ms[1..], name)
      case None => None
      case Some(j) => Some(j + 1)
  }

  /**
   * `get_member_via_value_from_name(name)`: the first member whose name
   * equals `name` up to case; ValueError if none. Names starting with '_'
   * are found here even though `fields()` omits them.
   */
  function GetMemberViaValueFromName(ds: seq<Decl>, name: string): (r: Result<Decl>)
    ensures r.Err? <==> forall m :: m in Members(ds) ==> Upper(m.name) != Upper(name)
    ensures r.Err? ==> r.error == ValueError
    ensures r.Ok? ==> exists i :: (0 <= i < |Members(ds)| && Members(ds)[i] == r.value
      && Upper(r.value.name) == Upper(name)
      && forall j :: 0 <= j < i ==> Upper(Members(ds)[j].name) != Upper(name))
  {
    match FirstByName(Members(ds), name)
    case None => Err(ValueError)
    case Some(i) => Ok(Members(ds)[i])
  }

  // ----------------------------------------------------------- membership

  /** What `x in cls` may be asked about. */
  datatype Arg =
    | AStr(s: string)
    | AnInt(v: int)
    | AMember(ofThisEnum: bool)  // a member of this enum, or of an unrelated one
    | AnyOther

  /**
   * `_ExtendedEnumMeta.__contains__`: a string is in the enum iff its
   * upper-case form is a field, an int iff it is one of the values, a member
   * of the enum is in it, and anything else is not.
   */
  function Contains(ds: seq<Decl>, x: Arg): (r: bool)
    ensures x.AStr? ==> (r <==> Upper(x.s) in Fields(ds))
    ensures x.AnInt? ==> (r <==> AInt(x.v) in Values(ds))
    ensures x.AMember? ==> r == x.ofThisEnum
    ensures x.AnyOther? ==> !r
  {
    match x
    case AStr(s) => Upper(s) in Fields(ds)
    case AnInt(v) => AInt(v) in Values(ds)
    case AMember(mine) => mine
    case AnyOther => false
  }

  /** An int is in the enum exactly when looking it up by value succeeds. */
  lemma ContainsIntIffLookup(ds: seq<Decl>, v: int)
    ensures Contains(ds, AnInt(v)) <==> GetMemberViaNameFromValue(ds, v).Ok?
  {
  }

  /**
   * A string that is in the enum can be looked up by name. The converse fails
   * for names starting with '_', which lookups find but `fields()` omits.
   */
  lemma ContainsStrThenLookup(ds: seq<Decl>, s: string)
    requires Contains(ds, AStr(s))
    ensures GetMemberViaValueFromName(ds, s).Ok?
  {
    var m :| m in Members(ds) && !StartsWith(m.name, "_") && Upper(s) == Upper(m.name);
    UpperIdempotent(s);
    UpperIdempotent(m.name);
  }

  lemma {:induction false} UpperIdempotent(s: string)
    ensures Upper(Upper(s)) == Upper(s)
  {
    var u := Upper(s);
    forall k | 0 <= k < |s|
      ensures Upper(u)[k] == u[k]
    {
    }
  }

  // ------------------------------------------------------------ type maps

  /** Iterating a class with one more declaration: it is visited unless its value repeats. */
  lemma MembersSnoc(ds: seq<Decl>, d: Decl)
    ensures Members(ds + [d]) == if ValueIn(d.value, ds) then Members(ds) else Members(ds) + [d]
  {
    assert (ds + [d])[..|ds|] == ds;
  }

  /** A pair value whose type object differs from that of every earlier pair is not a repeat. */
  lemma NotValueInByType(d: Decl, ds: seq<Decl>)
    requires d.value.Tuple? && |d.value.elems| == 2
    requires forall j :: 0 <= j < |ds| ==>
      ds[j].value.Tuple? && |ds[j].value.elems| == 2 && ds[j].value.elems[1] != d.value.elems[1]
    ensures !ValueIn(d.value, ds)
  {
  }

  const DInt8 := Decl("INT8", Tuple([AInt(8), AObj(Int8)]))
  const DInt16 := Decl("INT16", Tuple([AInt(16), AObj(Int16)]))
  const DInt := Decl("INT", Tuple([AInt(32), AObj(Int32)]))
  const DInt32 := Decl("INT32", Tuple([AInt(32), AObj(Int32)]))
  const DInt64 := Decl("INT64", Tuple([AInt(64), AObj(Int64)]))
  const DUInt8 := Decl("UINT8", Tuple([AInt(8), AObj(UInt8)]))
  const DUInt16 := Decl("UINT16", Tuple([AInt(16), AObj(UInt16)]))
  const DUInt := Decl("UINT", Tuple([AInt(32), AObj(UInt32)]))
  const DUInt32 := Decl("UINT32", Tuple([AInt(32), AObj(UInt32)]))
  const DUInt64 := Decl("UINT64", Tuple([AInt(64), AObj(UInt64)]))

  /** `INT_STR_NPMAP`: bit width and numpy type by name; INT32 and UINT32 repeat INT and UINT. */
  const IntStrNpMap: seq<Decl> :=
    [DInt8, DInt16, DInt, DInt32, DInt64, DUInt8, DUInt16, DUInt, DUInt32, DUInt64]

  /**
   * What the host's numpy offers to `FLOAT_STR_NPMAP`: whether `longdouble`
   * is wider than 64 bits (and how wide), whether `float128` exists, and
   * whether `float128` is the same type object as `longdouble`.
   */
  datatype FloatPlatform = FloatPlatform(extended: bool, longdoubleBits: int, quad: bool, quadIsLongdouble: bool)

  /**
   * `FLOAT_STR_NPMAP`: HALF, FLOAT32, SINGLE and FLOAT64 repeat earlier
   * values, and so do EXTENDED and QUAD (and FLOAT128 too when it is the same
   * 128-bit `longdouble`).
   */
  function FloatStrNpMap(p: FloatPlatform): (r: seq<Decl>)
    ensures |r| == 7 + (if p.extended then 2 else 0) + (if p.quad then 2 else 0)
  {
    var ld := Tuple([AInt(p.longdoubleBits), AObj(LongDouble)]);
    var q := Tuple([AInt(128), AObj(if p.quadIsLongdouble then LongDouble else Float128)]);
    [ Decl("FLOAT16", Tuple([AInt(16), AObj(Float16)])),
      Decl("HALF", Tuple([AInt(16), AObj(Float16)])),
      Decl("FLOAT", Tuple([AInt(32), AObj(Float32)])),
      Decl("FLOAT32", Tuple([AInt(32), AObj(Float32)])),
      Decl("SINGLE", Tuple([AInt(32), AObj(Float32)])),
      Decl("DOUBLE", Tuple([AInt(64), AObj(Float64)])),
      Decl("FLOAT64", Tuple([AInt(64), AObj(Float64)])) ]
    + (if p.extended then [Decl("LONGDOUBLE", ld), Decl("EXTENDED", ld)] else [])
    + (if p.quad then [Decl("FLOAT128", q), Decl("QUAD", q)] else [])
  }

  /** A declaration whose value repeats an earlier one adds no member. */
  lemma MembersAlias(ds: seq<Decl>, d: Decl, j: int)
    requires 0 <= j < |ds| && ds[j].value == d.value
    ensures Members(ds + [d]) == Members(ds)
  {
    MembersSnoc(ds, d);
  }

  /** A pair declaration whose type object is new is a member. */
  lemma MembersFresh(ds: seq<Decl>, d: Decl)
    requires d.value.Tuple? && |d.value.elems| == 2
    requires forall j :: 0 <= j < |ds| ==>
      ds[j].value.Tuple? && |ds[j].value.elems| == 2 && ds[j].value.elems[1] != d.value.elems[1]
    ensures Members(ds + [d]) == Members(ds) + [d]
  {
    NotValueInByType(d, ds);
    MembersSnoc(ds, d);
  }

  /**
   * Iterating `INT_STR_NPMAP` visits eight members: the aliases INT32 and
   * UINT32 are skipped.
   */
  lemma IntMapMembers()
    ensures Members(IntStrNpMap) == [DInt8, DInt16, DInt, DInt64, DUInt8, DUInt16, DUInt, DUInt64]
  {
    var p := [DInt8, DInt16, DInt, DInt32, DInt64, DUInt8, DUInt16, DUInt];
    IntMapPrefix8();
    MembersAlias(p, DUInt32, 7);
    MembersFresh(p + [DUInt32], DUInt64);
    assert p + [DUInt32] + [DUInt64] == IntStrNpMap;
  }

  /** The first eight declarations of `INT_STR_NPMAP` hold one alias, INT32. */
  lemma IntMapPrefix8()
    ensures Members([DInt8, DInt16, DInt, DInt32, DInt64, DUInt8, DUInt16, DUInt])
         == [DInt8, DInt16, DInt, DInt64, DUInt8, DUInt16, DUInt]
  {
    var p := [DInt8, DInt16, DInt, DInt32, DInt64, DUInt8, DUInt16];
    IntMapPrefix7();
    MembersFresh(p, DUInt);
    assert p + [DUInt] == [DInt8, DInt16, DInt, DInt32, DInt64, DUInt8, DUInt16, DUInt];
  }

  /** The first seven declarations of `INT_STR_NPMAP` hold one alias, INT32. */
  lemma IntMapPrefix7()
    ensures Members([DInt8, DInt16, DInt, DInt32, DInt64, DUInt8, DUInt16])
         == [DInt8, DInt16, DInt, DInt64, DUInt8, DUInt16]
  {
    var p := [DInt8, DInt16, DInt, DInt32, DInt64];
    IntMapMembersHead();
    MembersFresh(p, DUInt8);
    MembersFresh(p + [DUInt8], DUInt16);
    assert p + [DUInt8] + [DUInt16] == [DInt8, DInt16, DInt, DInt32, DInt64, DUInt8, DUInt16];
  }

  /** The signed declarations: INT32 repeats INT's value. */
  lemma IntMapMembersHead()
    ensures Members([DInt8, DInt16, DInt, DInt32, DInt64]) == [DInt8, DInt16, DInt, DInt64]
  {
    var p := [DInt8, DInt16, DInt];
    IntMapPrefix3();
    MembersAlias(p, DInt32, 2);
    MembersFresh(p + [DInt32], DInt64);
    assert p + [DInt32] + [DInt64] == [DInt8, DInt16, DInt, DInt32, DInt64];
  }

  /** INT8, INT16 and INT have distinct values. */
  lemma IntMapPrefix3()
    ensures Members([DInt8, DInt16, DInt]) == [DInt8, DInt16, DInt]
  {
    MembersFresh([], DInt8);
    assert [] + [DInt8] == [DInt8];
    MembersFresh([DInt8], DInt16);
    assert [DInt8] + [DInt16] == [DInt8, DInt16];
    MembersFresh([DInt8, DInt16], DInt);
    assert [DInt8, DInt16] + [DInt] == [DInt8, DInt16, DInt];
  }

  /**
   * The aliases INT32 and UINT32 of `INT_STR_NPMAP` are not fields: neither
   * "int32" nor "UINT32" is in the enum, and looking them up by name fails.
   */
  lemma IntMapAliasesHidden()
    ensures !Contains(IntStrNpMap, AStr("int32")) && !Contains(IntStrNpMap, AStr("UINT32"))
    ensures GetMemberViaValueFromName(IntStrNpMap, "INT32") == Err(ValueError)
  {
    IntMapMembers();
    UpperLiterals();
    var ms := Members(IntStrNpMap);
    forall m | m in ms
      ensures Upper(m.name) != "INT32" && Upper(m.name) != "UINT32"
    {
      IntMapMemberName(m);
    }
    NameAbsent(IntStrNpMap, "int32");
    NameAbsent(IntStrNpMap, "UINT32");
    NameAbsent(IntStrNpMap, "INT32");
  }

  /** A name that matches no member up to case is neither in the enum nor found by name. */
  lemma NameAbsent(ds: seq<Decl>, name: string)
    requires forall m :: m in Members(ds) ==> Upper(m.name) != Upper(name)
    ensures !Contains(ds, AStr(name))
    ensures GetMemberViaValueFromName(ds, name) == Err(ValueError)
  {
    if Contains(ds, AStr(name)) {
      ContainsStrThenLookup(ds, name);
    }
  }

  lemma UpperLiterals()
    ensures Upper("int32") == "INT32" && Upper("INT32") == "INT32" && Upper("UINT32") == "UINT32"
  {
    UpperIs("int32", "INT32");
    UpperIs("INT32", "INT32");
    UpperIs("UINT32", "UINT32");
  }

  lemma UpperDiffers(a: string, b: string, k: nat)
    requires |a| != |b| || (k < |a| == |b| && UpperChar(a[k]) != b[k])
    ensures Upper(a) != b
  {
    if |a| == |b| {
      assert Upper(a)[k] != b[k];
    }
  }

  lemma IntMapMemberName(m: Decl)
    requires m in [DInt8, DInt16, DInt, DInt64, DUInt8, DUInt16, DUInt, DUInt64]
    ensures Upper(m.name) != "INT32" && Upper(m.name) != "UINT32"
  {
    if m == DInt8 || m == DInt16 || m == DInt || m == DInt64 {
      SignedMemberName(m);
    } else {
      UnsignedMemberName(m);
    }
  }

  lemma SignedMemberName(m: Decl)
    requires m == DInt8 || m == DInt16 || m == DInt || m == DInt64
    ensures Upper(m.name) != "INT32" && Upper(m.name) != "UINT32"
  {
    if m == DInt8 {
      UpperDiffers(DInt8.name, "INT32", 0);
      UpperDiffers(DInt8.name, "UINT32", 0);
    } else if m == DInt16 {
      UpperDiffers(DInt16.name, "INT32", 3);
      UpperDiffers(DInt16.name, "UINT32", 0);
    } else if m == DInt {
      UpperDiffers(DInt.name, "INT32", 0);
      UpperDiffers(DInt.name, "UINT32", 0);
    } else {
      UpperDiffers(DInt64.name, "INT32", 3);
      UpperDiffers(DInt64.name, "UINT32", 0);
    }
  }

  lemma UnsignedMemberName(m: Decl)
    requires m == DUInt8 || m == DUInt16 || m == DUInt || m == DUInt64
    ensures Upper(m.name) != "INT32" && Upper(m.name) != "UINT32"
  {
    if m == DUInt8 {
      UpperDiffers(DUInt8.name, "INT32", 0);
      UpperDiffers(DUInt8.name, "UINT32", 0);
    } else if m == DUInt16 {
      UpperDiffers(DUInt16.name, "INT32", 0);
      UpperDiffers(DUInt16.name, "UINT32", 4);
    } else if m == DUInt {
      UpperDiffers(DUInt.name, "INT32", 0);
      UpperDiffers(DUInt.name, "UINT32", 0);
    } else {
      UpperDiffers(DUInt64.name, "INT32", 0);
      UpperDiffers(DUInt64.name, "UINT32", 4);
    }
  }
}

/** internal/sleeper/helpers.go and settings.go: what a response decodes to, said without the decoders, for
    every response type. */
module Decoding {
  import opened Basics
  import opened FlexCodec
  import opened CacheCodec

  /** `a` is the document as a value of type any: numbers become float64, the rest stays. */
  ghost predicate AnyMeans(lib: Library, j: Json, a: Any)
    decreases j
  {
    match j
    case Null => a == ANull
    case Bool(b) => a == ABool(b)
    case Num(Integer(n)) => a.AFloat? && lib.roundInt(n) == Some(a.x)
    case Num(Other(t)) => a.AFloat? && lib.roundText(t) == Some(a.x)
    case Str(s) => a == AStr(s)
    case Arr(xs) => a.AArr? && |a.xs| == |xs| && forall i :: 0 <= i < |xs| ==> AnyMeans(lib, xs[i], a.xs[i])
    case Obj(m) => a.AObj? && a.m.Keys == m.Keys && forall key :: key in m ==> AnyMeans(lib, m[key], a.m[key])
  }

  lemma {:induction false} AnyMeansIff(lib: Library, j: Json, a: Any)
    ensures AnyMeans(lib, j, a) <==> Fits(lib, j) && a == ToAny(lib, j)
    decreases j
  {
    match j
    case Arr(xs) =>
      if a.AArr? && |a.xs| == |xs| {
        forall i | 0 <= i < |xs|
          ensures AnyMeans(lib, xs[i], a.xs[i]) <==> Fits(lib, xs[i]) && a.xs[i] == ToAny(lib, xs[i])
        {
          AnyMeansIff(lib, xs[i], a.xs[i]);
        }
        AnyArray(lib, xs, a);
      }
    case Obj(m) =>
      if a.AObj? && a.m.Keys == m.Keys {
        forall key | key in m
          ensures AnyMeans(lib, m[key], a.m[key]) <==> Fits(lib, m[key]) && a.m[key] == ToAny(lib, m[key])
        {
          AnyMeansIff(lib, m[key], a.m[key]);
        }
      }
    case _ =>
  }

  lemma AnyArray(lib: Library, xs: seq<Json>, a: Any)
    requires a.AArr? && |a.xs| == |xs|
    ensures Fits(lib, Arr(xs)) && (forall i :: 0 <= i < |xs| ==> a.xs[i] == ToAny(lib, xs[i])) ==>
              a == ToAny(lib, Arr(xs))
  {
  }

  /** `v` is what a variable of the type holds before anything is decoded into it. */
  ghost predicate IsZero(ty: Ty, v: Val)
    decreases ty
  {
    match ty
    case FString => v == VStr("")
    case PlainString => v == VStr("")
    case FInt => v == VInt(0)
    case PlainInt => v == VInt(0)
    case FFloat => v == VFloat(Finite(0.0))
    case FBool => v == VBool(false)
    case FStrings => v == VStrs(None)
    case FInts => v == VInts(None)
    case Epoch => v == VTime(0)
    case SettingsT(_) => v.VSettings? && v.raw.Keys == {}
    case AnyT => v == VAny(ANull)
    case ObjectT => v == VAny(ANull)
    case Ptr(_) => v.VNil?
    case Slice(_) => v.VNil?
    case Struct(fields) =>
      v.VStruct? && |v.vs| == |fields| && forall i :: 0 <= i < |fields| ==> IsZero(fields[i].ty, v.vs[i])
  }

  lemma {:induction false} IsZeroIff(ty: Ty, v: Val)
    ensures IsZero(ty, v) <==> v == Zero(ty)
    decreases ty
  {
    match ty
    case Struct(fields) =>
      if v.VStruct? && |v.vs| == |fields| {
        forall i | 0 <= i < |fields|
          ensures IsZero(fields[i].ty, v.vs[i]) <==> v.vs[i] == Zero(fields[i].ty)
        {
          IsZeroIff(fields[i].ty, v.vs[i]);
        }
        if IsZero(ty, v) {
          assert v.vs == Zero(ty).vs;
        }
      }
    case _ =>
  }

  /** `v` is what the document says, for a scalar type. */
  ghost predicate ScalarMeans(lib: Library, ty: Ty, j: Json, v: Val) {
    match ty
    case FString => v.VStr? && StringMeans(lib, j, v.s)
    case FInt => v.VInt? && IntMeans(lib, j, v.n)
    case FFloat => v.VFloat? && FloatMeans(lib, j, v.f)
    case FBool => v == VBool(j.Bool? && j.b)
    case FStrings =>
      && v.VStrs? && (v.strs.Some? <==> j.Arr?)
      && (j.Arr? ==> ListMeans(lib, j.xs, |j.xs|, v.strs.value))
    case FInts =>
      && v.VInts? && v.ints.Some? && |v.ints.value| == (if j.Arr? then |j.xs| else 0)
      && (j.Arr? ==> forall i :: 0 <= i < |j.xs| ==> IntMeans(lib, j.xs[i], v.ints.value[i]))
    case Epoch => v.VTime? && EpochMeans(lib, j, v.t)
    case SettingsT(_) => v.VSettings? && ((j.Null? && v.raw == map[]) || j == Obj(v.raw))
    case AnyT => v.VAny? && AnyMeans(lib, j, v.a)
    case ObjectT => v.VAny? && (j.Null? || j.Obj?) && AnyMeans(lib, j, v.a)
    case PlainString => v.VStr? && (j == Str(v.s) || (j.Null? && v.s == ""))
    case PlainInt => v.VInt? && ((j == Num(Integer(v.n)) && IsInt64(v.n)) || (j.Null? && v.n == 0))
    case _ => false
  }

  /** `v` is what the document says, for any type: a field is looked up by its name and zero when absent, a
      list is decoded entry by entry, a pointer is nil for null. */
  ghost predicate Means(lib: Library, ty: Ty, j: Json, v: Val)
    decreases ty
  {
    match ty
    case Ptr(of) => if j.Null? then v.VNil? else v.VPtr? && Means(lib, of, j, v.v)
    case Slice(elem) =>
      if j.Null? then v.VNil?
      else
        && j.Arr? && v.VList? && |v.vs| == |j.xs|
        && forall i :: 0 <= i < |j.xs| ==> Means(lib, elem, j.xs[i], v.vs[i])
    case Struct(fields) =>
      if j.Null? then IsZero(ty, v)
      else
        && j.Obj? && v.VStruct? && |v.vs| == |fields|
        && forall i :: 0 <= i < |fields| ==> FieldMeans(lib, fields[i], j.m, v.vs[i])
    case _ => ScalarMeans(lib, ty, j, v)
  }

  ghost predicate FieldMeans(lib: Library, f: Field, m: map<string, Json>, v: Val)
    decreases f
  {
    if f.name in m then Means(lib, f.ty, m[f.name], v) else IsZero(f.ty, v)
  }

  lemma ScalarMeansIff(lib: Library, ty: Ty, j: Json, v: Val)
    requires !ty.Ptr? && !ty.Slice? && !ty.Struct?
    ensures ScalarMeans(lib, ty, j, v) <==> DecodeScalar(lib, ty, j) == Some(v)
  {
    match ty
    case FString => if v.VStr? { StringMeansIff(lib, j, v.s); }
    case FInt => if v.VInt? { IntMeansIff(lib, j, v.n); }
    case FFloat => if v.VFloat? { FloatMeansIff(lib, j, v.f); }
    case FStrings => if v.VStrs? && v.strs.Some? && j.Arr? { ListMeansIff(lib, j.xs, v.strs.value); }
    case FInts => if v.VInts? && v.ints.Some? && j.Arr? { IntsMeanIff(lib, j.xs, v.ints.value); }
    case Epoch => if v.VTime? { EpochMeansIff(lib, j, v.t); }
    case AnyT => if v.VAny? { AnyMeansIff(lib, j, v.a); }
    case ObjectT => if v.VAny? { AnyMeansIff(lib, j, v.a); }
    case _ =>
  }

  lemma IntsMeanIff(lib: Library, xs: seq<Json>, ns: seq<int>)
    ensures |ns| == |xs| && (forall i :: 0 <= i < |xs| ==> IntMeans(lib, xs[i], ns[i])) <==> ns == Ints(lib, xs)
  {
    if |ns| == |xs| {
      forall i | 0 <= i < |xs|
        ensures IntMeans(lib, xs[i], ns[i]) <==> ns[i] == Ints(lib, xs)[i]
      {
        IntMeansIff(lib, xs[i], ns[i]);
      }
    }
  }

  /** Decoding succeeds with a value exactly when the document says that value, and with an error exactly when
      it says none: the meaning of every response type. */
  lemma {:induction false} DecodeIff(lib: Library, ty: Ty, j: Json, v: Val)
    ensures Decode(lib, ty, j) == Some(v) <==> Means(lib, ty, j, v)
    decreases ty, 1
  {
    match ty
    case Ptr(of) =>
      if v.VPtr? {
        DecodeIff(lib, of, j, v.v);
      }
    case Slice(elem) =>
      if j.Arr? && v.VList? && |v.vs| == |j.xs| {
        SliceIff(lib, elem, j, v);
      }
    case Struct(fields) =>
      if j.Null? {
        IsZeroIff(ty, v);
      } else if j.Obj? && v.VStruct? && |v.vs| == |fields| {
        StructIff(lib, ty, j, v);
      }
    case _ => ScalarMeansIff(lib, ty, j, v);
  }

  lemma {:induction false} SliceIff(lib: Library, elem: Ty, j: Json, v: Val)
    requires j.Arr? && v.VList? && |v.vs| == |j.xs|
    ensures Decode(lib, Slice(elem), j) == Some(v) <==> Means(lib, Slice(elem), j, v)
    decreases Slice(elem), 0
  {
    forall i | 0 <= i < |j.xs|
      ensures Decode(lib, elem, j.xs[i]) == Some(v.vs[i]) <==> Means(lib, elem, j.xs[i], v.vs[i])
    {
      DecodeIff(lib, elem, j.xs[i], v.vs[i]);
    }
    SliceIs(lib, elem, j, v);
  }

  lemma {:induction false} StructIff(lib: Library, ty: Ty, j: Json, v: Val)
    requires ty.Struct? && j.Obj? && v.VStruct? && |v.vs| == |ty.fields|
    ensures Decode(lib, ty, j) == Some(v) <==> Means(lib, ty, j, v)
    decreases ty, 0
  {
    forall i | 0 <= i < |ty.fields|
      ensures DecodeField(lib, ty.fields[i], j.m) == Some(v.vs[i]) <==> FieldMeans(lib, ty.fields[i], j.m, v.vs[i])
    {
      FieldIff(lib, ty.fields[i], j.m, v.vs[i]);
    }
    StructIs(lib, ty, j, v);
  }

  lemma {:induction false} FieldIff(lib: Library, f: Field, m: map<string, Json>, v: Val)
    ensures DecodeField(lib, f, m) == Some(v) <==> FieldMeans(lib, f, m, v)
    decreases f
  {
    if f.name in m {
      DecodeIff(lib, f.ty, m[f.name], v);
    } else {
      IsZeroIff(f.ty, v);
    }
  }

  lemma SliceIs(lib: Library, elem: Ty, j: Json, v: Val)
    requires j.Arr? && v.VList? && |v.vs| == |j.xs|
    ensures Decode(lib, Slice(elem), j) == Some(v) <==>
            forall i :: 0 <= i < |j.xs| ==> Decode(lib, elem, j.xs[i]) == Some(v.vs[i])
  {
    if forall i :: 0 <= i < |j.xs| ==> Decode(lib, elem, j.xs[i]) == Some(v.vs[i]) {
      assert Decode(lib, Slice(elem), j).value.vs == v.vs;
    }
  }

  lemma StructIs(lib: Library, ty: Ty, j: Json, v: Val)
    requires ty.Struct? && j.Obj? && v.VStruct? && |v.vs| == |ty.fields|
    ensures Decode(lib, ty, j) == Some(v) <==>
            forall i :: 0 <= i < |ty.fields| ==> DecodeField(lib, ty.fields[i], j.m) == Some(v.vs[i])
  {
    if forall i :: 0 <= i < |ty.fields| ==> DecodeField(lib, ty.fields[i], j.m) == Some(v.vs[i]) {
      assert Decode(lib, ty, j).value.vs == v.vs;
    }
  }

  /** The example of the traded picks: a season that comes as a string is the year it spells. */
  lemma SeasonIsRead(lib: Library, j: Json, season: string, year: int)
    requires lib.asNumber(season) == Some(Integer(year)) && IsInt64(year)
    requires j.Obj? && "season" in j.m && j.m["season"] == Str(season)
    ensures Decode(lib, Struct([Field("season", FInt)]), j) == Some(VStruct([VInt(year)]))
  {
    DecodeIff(lib, Struct([Field("season", FInt)]), j, VStruct([VInt(year)]));
  }

  // ---------- What can be stored ----------

  /** No float in the value is infinite or a NaN, and every instant but the zero one has an RFC 3339 text. */
  ghost predicate Printable(lib: Library, v: Val)
    decreases v
  {
    match v
    case VFloat(f) => f.Finite?
    case VTime(t) => t == 0 || lib.formatTime(t).Some?
    case VPtr(w) => Printable(lib, w)
    case VList(vs) => forall i :: 0 <= i < |vs| ==> Printable(lib, vs[i])
    case VStruct(vs) => forall i :: 0 <= i < |vs| ==> Printable(lib, vs[i])
    case _ => true
  }

  /** A value of a type can be encoded exactly then. */
  lemma {:induction false} EncodesIff(lib: Library, ty: Ty, v: Val)
    requires HasType(lib, ty, v)
    ensures Encode(lib, ty, v).Some? <==> Printable(lib, v)
    decreases ty
  {
    match ty
    case Ptr(of) =>
      if v.VPtr? {
        EncodesIff(lib, of, v.v);
      }
    case Slice(elem) =>
      if v.VList? {
        forall i | 0 <= i < |v.vs|
          ensures Encode(lib, elem, v.vs[i]).Some? <==> Printable(lib, v.vs[i])
        {
          EncodesIff(lib, elem, v.vs[i]);
        }
      }
    case Struct(fields) =>
      forall i | 0 <= i < |fields|
        ensures EncodeField(lib, fields[i], v.vs[i]).Some? <==> Printable(lib, v.vs[i])
      {
        EncodesIff(lib, fields[i].ty, v.vs[i]);
      }
    case _ =>
  }

  /** A fetch hands the caller exactly what the document says, if it says anything, that can be encoded, and
      whose encoding is within float64; otherwise it is an error. */
  lemma FetchIff(lib: Library, ty: Ty, body: Json, v: Val)
    requires Sound(lib)
    ensures (Fetch(lib, ty, body).Some? && Fetch(lib, ty, body).value.0 == v) <==>
            Means(lib, ty, body, v) && Printable(lib, v) && EncodedFits(lib, ty, v)
  {
    DecodeIff(lib, ty, body, v);
    if Decode(lib, ty, body) == Some(v) {
      DecodeTyped(lib, ty, body);
      EncodesIff(lib, ty, v);
    }
    FetchStores(lib, ty, body, v);
  }

  lemma FetchStores(lib: Library, ty: Ty, body: Json, v: Val)
    ensures (Fetch(lib, ty, body).Some? && Fetch(lib, ty, body).value.0 == v) <==>
            Decode(lib, ty, body) == Some(v) && Encode(lib, ty, v).Some? && EncodedFits(lib, ty, v)
  {
  }

  predicate EncodedFits(lib: Library, ty: Ty, v: Val) {
    Encode(lib, ty, v).Some? ==> Fits(lib, Encode(lib, ty, v).value)
  }

  /** The members of every settings object are within float64. */
  ghost predicate SettingsFit(lib: Library, v: Val)
    decreases v
  {
    match v
    case VSettings(raw) => Fits(lib, Obj(raw))
    case VPtr(w) => SettingsFit(lib, w)
    case VList(vs) => forall i :: 0 <= i < |vs| ==> SettingsFit(lib, vs[i])
    case VStruct(vs) => forall i :: 0 <= i < |vs| ==> SettingsFit(lib, vs[i])
    case _ => true
  }

  lemma {:induction false} MembersFit(lib: Library, fields: seq<Field>, js: seq<Json>, n: nat)
    requires n <= |fields| == |js| && forall i :: 0 <= i < n ==> Fits(lib, js[i])
    ensures Fits(lib, Obj(Members(fields, js, n)))
  {
    if n > 0 {
      MembersFit(lib, fields, js, n - 1);
    }
  }

  /** For integers within 2^53 the encoding is, if the settings are. */
  lemma {:induction false} SmallFits(lib: Library, ty: Ty, v: Val)
    requires Sound(lib) && HasType(lib, ty, v) && SmallInts(lib, ty, v) && SettingsFit(lib, v)
    ensures EncodedFits(lib, ty, v)
    decreases ty
  {
    match ty
    case Ptr(of) =>
      if v.VPtr? {
        SmallFits(lib, of, v.v);
      }
    case Slice(elem) =>
      if v.VList? {
        forall i | 0 <= i < |v.vs|
          ensures EncodedFits(lib, elem, v.vs[i])
        {
          SmallFits(lib, elem, v.vs[i]);
        }
      }
    case Struct(fields) =>
      forall i | 0 <= i < |fields|
        ensures EncodedFits(lib, fields[i].ty, v.vs[i])
      {
        SmallFits(lib, fields[i].ty, v.vs[i]);
      }
      StructFits(lib, fields, v);
    case AnyT => AnySurvives(lib, v.a);
    case ObjectT => AnySurvives(lib, v.a);
    case _ =>
  }

  lemma StructFits(lib: Library, fields: seq<Field>, v: Val)
    requires v.VStruct? && |v.vs| == |fields|
    requires forall i :: 0 <= i < |fields| ==> EncodedFits(lib, fields[i].ty, v.vs[i])
    ensures EncodedFits(lib, Struct(fields), v)
  {
    if Encode(lib, Struct(fields), v).Some? {
      var js := seq(|fields|, i requires 0 <= i < |fields| => EncodeField(lib, fields[i], v.vs[i]).value);
      MembersFit(lib, fields, js, |fields|);
    }
  }
}

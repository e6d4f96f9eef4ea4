/** internal/sleeper/client.go with helpers.go and settings.go: a cache hit decodes to the value the
    miss decoded. A response type is a tree of the package's decoders. */
module CacheCodec {
  import opened Basics
  import opened FlexCodec

  datatype Field = Field(name: string, ty: Ty)

  datatype Ty =
    | FString | FInt | FFloat | FBool | FStrings | FInts | Epoch
    | SettingsT(keys: set<string>)
    | AnyT | ObjectT | PlainString | PlainInt
    | Ptr(of: Ty)
    | Slice(elem: Ty)
    | Struct(fields: seq<Field>)

  datatype Val =
    | VStr(s: string)
    | VInt(n: int)
    | VFloat(f: Float)
    | VBool(b: bool)
    | VStrs(strs: Option<seq<string>>)
    | VInts(ints: Option<seq<int>>)
    | VTime(t: int)
    | VSettings(raw: map<string, Json>)
    | VAny(a: Any)
    | VNil
    | VPtr(v: Val)
    | VList(vs: seq<Val>)
    | VStruct(vs: seq<Val>)

  /** Pointers are only used on scalars, and field names are distinct. */
  predicate Proper(ty: Ty) {
    match ty
    case Ptr(of) => !of.Ptr? && !of.Slice? && !of.Struct? && !of.AnyT? && !of.ObjectT? && !of.FStrings? && !of.FInts?
    case Slice(elem) => Proper(elem)
    case Struct(fields) =>
      && (forall i :: 0 <= i < |fields| ==> Proper(fields[i].ty))
      && (forall i, j :: 0 <= i < j < |fields| ==> fields[i].name != fields[j].name)
    case _ => true
  }

  /** The value of a field the document does not mention. */
  function Zero(ty: Ty): Val {
    match ty
    case FString => VStr("")
    case FInt => VInt(0)
    case FFloat => VFloat(Finite(0.0))
    case FBool => VBool(false)
    case FStrings => VStrs(None)
    case FInts => VInts(None)
    case Epoch => VTime(0)
    case SettingsT(_) => VSettings(map[])
    case AnyT => VAny(ANull)
    case ObjectT => VAny(ANull)
    case PlainString => VStr("")
    case PlainInt => VInt(0)
    case Ptr(_) => VNil
    case Slice(_) => VNil
    case Struct(fields) => VStruct(seq(|fields|, i requires 0 <= i < |fields| => Zero(fields[i].ty)))
  }

  function DecodeScalar(lib: Library, ty: Ty, j: Json): Option<Val> {
    match ty
    case FString => (match DecodeString(lib, j) case Some(s) => Some(VStr(s)) case None => None)
    case FInt => Some(VInt(DecodeInt(lib, j)))
    case FFloat => Some(VFloat(DecodeFloat(lib, j)))
    case FBool => Some(VBool(DecodeBool(j)))
    case FStrings => Some(VStrs(if j.Arr? then Some(KeptStrings(lib, j.xs, |j.xs|)) else None))
    case FInts => Some(VInts(Some(if j.Arr? then Ints(lib, j.xs) else [])))
    case Epoch => Some(VTime(DecodeEpoch(lib, j)))
    case SettingsT(_) => if j.Null? then Some(VSettings(map[])) else if j.Obj? then Some(VSettings(j.m)) else None
    case AnyT => if Fits(lib, j) then Some(VAny(ToAny(lib, j))) else None
    case ObjectT => if (j.Null? || j.Obj?) && Fits(lib, j) then Some(VAny(ToAny(lib, j))) else None
    case PlainString => if j.Null? then Some(VStr("")) else if j.Str? then Some(VStr(j.s)) else None
    case PlainInt =>
      if j.Null? then Some(VInt(0))
      else if j.Num? && j.k.Integer? && IsInt64(j.k.n) then Some(VInt(j.k.n)) else None
    case _ => None
  }

  /** json.Unmarshal into a fresh variable of the type; None is a decoding error. */
  function Decode(lib: Library, ty: Ty, j: Json): Option<Val>
    decreases ty
  {
    match ty
    case Ptr(of) =>
      if j.Null? then Some(VNil)
      else (match Decode(lib, of, j) case Some(v) => Some(VPtr(v)) case None => None)
    case Slice(elem) =>
      if j.Null? then Some(VNil)
      else if j.Arr? && forall i :: 0 <= i < |j.xs| ==> Decode(lib, elem, j.xs[i]).Some? then
        Some(VList(seq(|j.xs|, i requires 0 <= i < |j.xs| => Decode(lib, elem, j.xs[i]).value)))
      else None
    case Struct(fields) =>
      if j.Null? then Some(Zero(ty))
      else if j.Obj? && forall i :: 0 <= i < |fields| ==> DecodeField(lib, fields[i], j.m).Some? then
        Some(VStruct(seq(|fields|, i requires 0 <= i < |fields| => DecodeField(lib, fields[i], j.m).value)))
      else None
    case _ => DecodeScalar(lib, ty, j)
  }

  function DecodeField(lib: Library, f: Field, m: map<string, Json>): Option<Val>
    decreases f
  {
    if f.name in m then Decode(lib, f.ty, m[f.name]) else Some(Zero(f.ty))
  }

  function Strs(ss: seq<string>): Json {
    Arr(seq(|ss|, i requires 0 <= i < |ss| => Str(ss[i])))
  }

  function Nums(ns: seq<int>): Json {
    Arr(seq(|ns|, i requires 0 <= i < |ns| => Num(Integer(ns[i]))))
  }

  function EncodeScalar(lib: Library, v: Val): Option<Json> {
    match v
    case VStr(s) => Some(Str(s))
    case VInt(n) => Some(Num(Integer(n)))
    case VFloat(f) => if f.Finite? then Some(Num(lib.show(f.x))) else None
    case VBool(b) => Some(Bool(b))
    case VStrs(o) => Some(match o case None => Null case Some(ss) => Strs(ss))
    case VInts(o) => Some(match o case None => Null case Some(ns) => Nums(ns))
    case VTime(t) =>
      if t == 0 then Some(Null)
      else (match lib.formatTime(t) case Some(s) => Some(Str(s)) case None => None)
    case VSettings(raw) => Some(Obj(raw))
    case VAny(a) => Some(FromAny(lib, a))
    case _ => None
  }

  /** json.Marshal; None is an encoding error (a NaN, a year beyond 9999). */
  function Encode(lib: Library, ty: Ty, v: Val): Option<Json>
    decreases ty
  {
    match ty
    case Ptr(of) => if v.VNil? then Some(Null) else if v.VPtr? then Encode(lib, of, v.v) else None
    case Slice(elem) =>
      if v.VNil? then Some(Null)
      else if v.VList? && forall i :: 0 <= i < |v.vs| ==> Encode(lib, elem, v.vs[i]).Some? then
        Some(Arr(seq(|v.vs|, i requires 0 <= i < |v.vs| => Encode(lib, elem, v.vs[i]).value)))
      else None
    case Struct(fields) =>
      if && v.VStruct? && |v.vs| == |fields|
         && forall i :: 0 <= i < |fields| ==> EncodeField(lib, fields[i], v.vs[i]).Some? then
        var js := seq(|fields|, i requires 0 <= i < |fields| => EncodeField(lib, fields[i], v.vs[i]).value);
        Some(Obj(Members(fields, js, |fields|)))
      else None
    case _ => EncodeScalar(lib, v)
  }

  function EncodeField(lib: Library, f: Field, v: Val): Option<Json>
    decreases f
  {
    Encode(lib, f.ty, v)
  }

  /** The object with the first `n` fields. */
  function Members(fields: seq<Field>, js: seq<Json>, n: nat): map<string, Json>
    requires n <= |fields| == |js|
  {
    if n == 0 then map[] else Members(fields, js, n - 1)[fields[n - 1].name := js[n - 1]]
  }

  lemma {:induction false} MemberAt(fields: seq<Field>, js: seq<Json>, n: nat, i: nat)
    requires i < n <= |fields| == |js|
    requires forall i, j :: 0 <= i < j < |fields| ==> fields[i].name != fields[j].name
    ensures fields[i].name in Members(fields, js, n) && Members(fields, js, n)[fields[i].name] == js[i]
  {
    if i < n - 1 {
      MemberAt(fields, js, n - 1, i);
    }
  }

  // ---------- Values a decoder can produce ----------

  /** The values of a type; those of Decode are among them. */
  predicate HasType(lib: Library, ty: Ty, v: Val) {
    match ty
    case FString => v.VStr?
    case FInt => v.VInt?
    case FFloat => v.VFloat? && (v.f.Finite? ==> lib.isDouble(v.f.x))
    case FBool => v.VBool?
    case FStrings =>
      v.VStrs? && (v.strs.Some? ==> forall i :: 0 <= i < |v.strs.value| ==> v.strs.value[i] !in {"", NIL_STR})
    case FInts => v.VInts?
    case Epoch => v.VTime?
    case SettingsT(_) => v.VSettings?
    case AnyT => v.VAny? && Doubles(lib, v.a)
    case ObjectT => v.VAny? && (v.a.ANull? || v.a.AObj?) && Doubles(lib, v.a)
    case PlainString => v.VStr?
    case PlainInt => v.VInt? && IsInt64(v.n)
    case Ptr(of) => v.VNil? || (v.VPtr? && HasType(lib, of, v.v))
    case Slice(elem) => v.VNil? || (v.VList? && forall i :: 0 <= i < |v.vs| ==> HasType(lib, elem, v.vs[i]))
    case Struct(fields) =>
      && v.VStruct? && |v.vs| == |fields|
      && forall i :: 0 <= i < |fields| ==> HasType(lib, fields[i].ty, v.vs[i])
  }

  lemma {:induction false} ZeroTyped(lib: Library, ty: Ty)
    requires Sound(lib)
    ensures HasType(lib, ty, Zero(ty))
  {
    match ty
    case FFloat => assert Small(0) && 0 as real == 0.0;
    case Struct(fields) =>
      forall i | 0 <= i < |fields| ensures HasType(lib, fields[i].ty, Zero(fields[i].ty)) {
        ZeroTyped(lib, fields[i].ty);
      }
    case _ =>
  }

  lemma {:induction false} KeptAreProper(lib: Library, xs: seq<Json>, n: nat)
    requires n <= |xs|
    ensures forall i :: 0 <= i < |KeptStrings(lib, xs, n)| ==> KeptStrings(lib, xs, n)[i] !in {"", NIL_STR}
  {
    if n > 0 {
      KeptAreProper(lib, xs, n - 1);
    }
  }

  lemma FloatTyped(lib: Library, j: Json)
    requires Sound(lib)
    ensures DecodeFloat(lib, j).Finite? ==> lib.isDouble(DecodeFloat(lib, j).x)
  {
    assert Small(0) && 0 as real == 0.0;
  }

  lemma ScalarTyped(lib: Library, ty: Ty, j: Json)
    requires Sound(lib) && DecodeScalar(lib, ty, j).Some?
    ensures HasType(lib, ty, DecodeScalar(lib, ty, j).value)
  {
    match ty
    case FFloat => FloatTyped(lib, j);
    case FStrings => if j.Arr? { KeptAreProper(lib, j.xs, |j.xs|); }
    case AnyT => DecodedAreDoubles(lib, j);
    case ObjectT => DecodedAreDoubles(lib, j);
    case _ =>
  }

  lemma {:induction false} DecodeTyped(lib: Library, ty: Ty, j: Json)
    requires Sound(lib) && Decode(lib, ty, j).Some?
    ensures HasType(lib, ty, Decode(lib, ty, j).value)
  {
    match ty
    case Ptr(of) => if !j.Null? { DecodeTyped(lib, of, j); }
    case Slice(elem) =>
      if !j.Null? {
        forall i | 0 <= i < |j.xs| ensures HasType(lib, elem, Decode(lib, elem, j.xs[i]).value) {
          DecodeTyped(lib, elem, j.xs[i]);
        }
      }
    case Struct(fields) =>
      if j.Null? {
        ZeroTyped(lib, ty);
      } else {
        forall i | 0 <= i < |fields| ensures HasType(lib, fields[i].ty, DecodeField(lib, fields[i], j.m).value) {
          if fields[i].name in j.m {
            DecodeTyped(lib, fields[i].ty, j.m[fields[i].name]);
          } else {
            ZeroTyped(lib, fields[i].ty);
          }
        }
      }
    case _ => ScalarTyped(lib, ty, j);
  }

  // ---------- Settings ----------

  /** Has: the key was in the object. */
  predicate Has(raw: map<string, Json>, key: string) {
    key in raw
  }

  /** A typed field: zero when its key is absent. */
  function View(lib: Library, raw: map<string, Json>, key: string): int {
    if key in raw then DecodeInt(lib, raw[key]) else 0
  }

  /** The loop over the raw object that fills the typed fields. */
  method FillViews(lib: Library, keys: set<string>, raw: map<string, Json>) returns (views: map<string, int>)
    ensures views.Keys == keys
    ensures forall key :: key in keys ==> views[key] == View(lib, raw, key)
    ensures forall key :: key in keys && key in raw ==> IntMeans(lib, raw[key], views[key])
    ensures forall key :: key in keys && key !in raw ==> views[key] == 0
  {
    views := map key | key in keys :: 0;
    var rest := raw.Keys;
    while rest != {}
      invariant rest <= raw.Keys && views.Keys == keys
      invariant forall key :: key in views ==> views[key] == if key in rest then 0 else View(lib, raw, key)
      decreases |rest|
    {
      var key :| key in rest;
      rest := rest - {key};
      if key !in keys {
        continue;
      }
      views := views[key := DecodeInt(lib, raw[key])];
    }
  }

  // ---------- Hit and miss ----------

  /** All integers are within 2^53. */
  predicate SmallInts(lib: Library, ty: Ty, v: Val)
    requires HasType(lib, ty, v)
  {
    match ty
    case FInt => Small(v.n)
    case PlainInt => Small(v.n)
    case FInts => v.ints.Some? ==> forall i :: 0 <= i < |v.ints.value| ==> Small(v.ints.value[i])
    case SettingsT(keys) => forall key :: key in keys ==> Small(View(lib, v.raw, key))
    case Ptr(of) => v.VPtr? ==> SmallInts(lib, of, v.v)
    case Slice(elem) => v.VList? ==> forall i :: 0 <= i < |v.vs| ==> SmallInts(lib, elem, v.vs[i])
    case Struct(fields) => forall i :: 0 <= i < |fields| ==> SmallInts(lib, fields[i].ty, v.vs[i])
    case _ => true
  }

  /** No pointer to the zero instant, and no absent integer list. */
  predicate Survives(ty: Ty, v: Val) {
    match ty
    case FInts => v != VInts(None)
    case Ptr(of) => v != VPtr(VTime(0)) || !of.Epoch?
    case Slice(elem) => v.VList? ==> forall i :: 0 <= i < |v.vs| ==> Survives(elem, v.vs[i])
    case Struct(fields) =>
      v.VStruct? && |v.vs| == |fields| ==> forall i :: 0 <= i < |fields| ==> Survives(fields[i].ty, v.vs[i])
    case _ => true
  }

  /** Two documents that decode as `any` to the same value; only the text of numbers may differ. */
  predicate SameValue(lib: Library, j: Json, k: Json) {
    Fits(lib, j) ==> Fits(lib, k) && ToAny(lib, k) == ToAny(lib, j)
  }

  /** Equal, where settings objects are compared by their keys, their typed views and the values, not the
      text, of their members. */
  predicate Agree(lib: Library, ty: Ty, v: Val, w: Val) {
    match ty
    case SettingsT(keys) =>
      && v.VSettings? && w.VSettings?
      && (forall key :: key in v.raw.Keys + w.raw.Keys ==> Has(v.raw, key) == Has(w.raw, key))
      && (forall key :: key in keys ==> View(lib, v.raw, key) == View(lib, w.raw, key))
      && (forall key :: key in v.raw && key in w.raw ==> SameValue(lib, v.raw[key], w.raw[key]))
    case Ptr(of) => (v.VNil? && w.VNil?) || (v.VPtr? && w.VPtr? && Agree(lib, of, v.v, w.v))
    case Slice(elem) =>
      || (v.VNil? && w.VNil?)
      || (v.VList? && w.VList? && |v.vs| == |w.vs|
          && forall i :: 0 <= i < |v.vs| ==> Agree(lib, elem, v.vs[i], w.vs[i]))
    case Struct(fields) =>
      && v.VStruct? && w.VStruct? && |v.vs| == |w.vs| == |fields|
      && forall i :: 0 <= i < |fields| ==> Agree(lib, fields[i].ty, v.vs[i], w.vs[i])
    case _ => v == w
  }

  /** The document decodes, and to a value that agrees with `v` iff `survives`. */
  predicate Back(lib: Library, ty: Ty, v: Val, again: Json, survives: bool) {
    Decode(lib, ty, again).Some? && (Agree(lib, ty, v, Decode(lib, ty, again).value) <==> survives)
  }

  /** That is so for a hit on the cached document `j`. */
  predicate HitIs(lib: Library, ty: Ty, v: Val, j: Json, survives: bool) {
    Fits(lib, j) && Back(lib, ty, v, Reread(lib, j), survives)
  }

  lemma RereadArr(lib: Library, xs: seq<Json>)
    requires Fits(lib, Arr(xs))
    ensures Reread(lib, Arr(xs)).Arr? && |Reread(lib, Arr(xs)).xs| == |xs|
    ensures forall i :: 0 <= i < |xs| ==> Reread(lib, Arr(xs)).xs[i] == Reread(lib, xs[i])
  {
  }

  lemma RereadObj(lib: Library, m: map<string, Json>)
    requires Fits(lib, Obj(m))
    ensures Reread(lib, Obj(m)).Obj? && Reread(lib, Obj(m)).m.Keys == m.Keys
    ensures forall key :: key in m ==> Reread(lib, Obj(m)).m[key] == Reread(lib, m[key])
  {
  }

  lemma {:induction false} KeptOfStrs(lib: Library, xs: seq<Json>, ss: seq<string>, n: nat)
    requires n <= |xs| == |ss|
    requires forall i :: 0 <= i < n ==> xs[i] == Str(ss[i]) && ss[i] !in {"", NIL_STR}
    ensures KeptStrings(lib, xs, n) == ss[..n]
  {
    if n > 0 {
      KeptOfStrs(lib, xs, ss, n - 1);
      assert ss[..n] == ss[..n - 1] + [ss[n - 1]];
    }
  }

  lemma StringsHit(lib: Library, v: Val)
    requires Sound(lib) && HasType(lib, FStrings, v) && v.strs.Some? && Fits(lib, Strs(v.strs.value))
    ensures DecodeScalar(lib, FStrings, Reread(lib, Strs(v.strs.value))) == Some(v)
  {
    var ss := v.strs.value;
    RereadArr(lib, Strs(ss).xs);
    var xs := Reread(lib, Strs(ss)).xs;
    KeptOfStrs(lib, xs, ss, |ss|);
    assert ss[..|ss|] == ss;
  }

  lemma IntsHit(lib: Library, ns: seq<int>)
    requires Sound(lib) && Fits(lib, Nums(ns)) && forall i :: 0 <= i < |ns| ==> Small(ns[i])
    ensures DecodeScalar(lib, FInts, Reread(lib, Nums(ns))) == Some(VInts(Some(ns)))
  {
    RereadArr(lib, Nums(ns).xs);
    var xs := Reread(lib, Nums(ns)).xs;
    forall i | 0 <= i < |ns|
      ensures DecodeInt(lib, xs[i]) == ns[i]
    {
      SmallHit(lib, ns[i]);
      assert xs[i] == Reread(lib, Nums(ns).xs[i]);
    }
    assert Ints(lib, xs) == ns;
  }

  lemma SmallHit(lib: Library, n: int)
    requires Sound(lib) && Small(n)
    ensures Fits(lib, Num(Integer(n))) && Reread(lib, Num(Integer(n))) == Num(Integer(n))
    ensures DecodeInt(lib, Num(Integer(n))) == n
  {
  }

  lemma SettingsHit(lib: Library, keys: set<string>, raw: map<string, Json>)
    requires Sound(lib) && Fits(lib, Obj(raw)) && SmallInts(lib, SettingsT(keys), VSettings(raw))
    ensures HitIs(lib, SettingsT(keys), VSettings(raw), Obj(raw), true)
  {
    RereadObj(lib, raw);
    var again := Reread(lib, Obj(raw)).m;
    forall key | key in keys
      ensures View(lib, raw, key) == View(lib, again, key)
    {
      if key in raw {
        assert Small(View(lib, raw, key));
        IntRereads(lib, raw[key]);
      }
    }
    forall key | key in raw
      ensures SameValue(lib, raw[key], again[key])
    {
      DecodedAreDoubles(lib, raw[key]);
      AnySurvives(lib, ToAny(lib, raw[key]));
    }
  }

  lemma AnyHit(lib: Library, ty: Ty, v: Val)
    requires Sound(lib) && (ty.AnyT? || ty.ObjectT?) && HasType(lib, ty, v)
    ensures HitIs(lib, ty, v, FromAny(lib, v.a), true)
  {
    AnySurvives(lib, v.a);
  }

  lemma IntHit(lib: Library, ty: Ty, v: Val)
    requires Sound(lib) && (ty.FInt? || ty.PlainInt?) && HasType(lib, ty, v) && Small(v.n)
    ensures HitIs(lib, ty, v, Num(Integer(v.n)), true)
  {
    SmallHit(lib, v.n);
  }

  lemma FloatHit(lib: Library, v: Val)
    requires Sound(lib) && HasType(lib, FFloat, v) && v.f.Finite?
    ensures HitIs(lib, FFloat, v, Num(lib.show(v.f.x)), true)
  {
  }

  lemma TimeHit(lib: Library, v: Val)
    requires Sound(lib) && v.VTime? && EncodeScalar(lib, v).Some?
    ensures HitIs(lib, Epoch, v, EncodeScalar(lib, v).value, true)
  {
  }

  lemma StringSliceHit(lib: Library, v: Val)
    requires Sound(lib) && HasType(lib, FStrings, v) && Fits(lib, EncodeScalar(lib, v).value)
    ensures HitIs(lib, FStrings, v, EncodeScalar(lib, v).value, true)
  {
    if v.strs.Some? {
      StringsHit(lib, v);
    }
  }

  lemma IntSliceHit(lib: Library, v: Val)
    requires Sound(lib) && HasType(lib, FInts, v) && SmallInts(lib, FInts, v) && Fits(lib, EncodeScalar(lib, v).value)
    ensures HitIs(lib, FInts, v, EncodeScalar(lib, v).value, v != VInts(None))
  {
    if v.ints.Some? {
      IntsHit(lib, v.ints.value);
    }
  }

  /** The leaves of the type tree. */
  lemma ScalarHit(lib: Library, ty: Ty, v: Val)
    requires Sound(lib) && !ty.Ptr? && !ty.Slice? && !ty.Struct?
    requires HasType(lib, ty, v) && SmallInts(lib, ty, v)
    requires EncodeScalar(lib, v).Some? && Fits(lib, EncodeScalar(lib, v).value)
    ensures HitIs(lib, ty, v, EncodeScalar(lib, v).value, Survives(ty, v))
  {
    match ty
    case FInt => IntHit(lib, ty, v);
    case PlainInt => IntHit(lib, ty, v);
    case FFloat => FloatHit(lib, v);
    case Epoch => TimeHit(lib, v);
    case FStrings => StringSliceHit(lib, v);
    case FInts => IntSliceHit(lib, v);
    case SettingsT(keys) => SettingsHit(lib, keys, v.raw);
    case AnyT => AnyHit(lib, ty, v);
    case ObjectT => AnyHit(lib, ty, v);
    case _ =>
  }

  /** The whole type tree: for every value with integers within 2^53 that could be encoded and stored, a
      later hit decodes without error, and to an agreeing value exactly when the value survives. */
  lemma {:induction false} HitAgreesIff(lib: Library, ty: Ty, v: Val)
    requires Sound(lib) && Proper(ty) && HasType(lib, ty, v) && SmallInts(lib, ty, v)
    requires Encode(lib, ty, v).Some? && Fits(lib, Encode(lib, ty, v).value)
    ensures HitIs(lib, ty, v, Encode(lib, ty, v).value, Survives(ty, v))
    decreases ty, 1
  {
    match ty
    case Ptr(of) => if v.VPtr? { PointerHit(lib, of, v.v); }
    case Slice(elem) => if v.VList? { SliceHit(lib, elem, v); }
    case Struct(fields) => StructHit(lib, fields, v);
    case _ => ScalarHit(lib, ty, v);
  }

  lemma RereadNull(lib: Library, j: Json)
    requires Fits(lib, j)
    ensures Reread(lib, j).Null? <==> j.Null?
  {
  }

  lemma NullIsZeroTime(lib: Library, of: Ty, v: Val)
    requires Proper(Ptr(of)) && HasType(lib, of, v) && Encode(lib, of, v).Some?
    ensures Encode(lib, of, v).value.Null? <==> v == VTime(0)
    ensures v == VTime(0) ==> of.Epoch?
    ensures Survives(of, v) && !of.Ptr? && !of.Slice? && !of.Struct?
  {
  }

  lemma PointerBack(lib: Library, of: Ty, v: Val, again: Json, survives: bool)
    requires !again.Null? && Back(lib, of, v, again, survives)
    ensures Back(lib, Ptr(of), VPtr(v), again, survives)
  {
  }

  /** A pointer is lost only when what it points to is encoded as null. */
  lemma PointerHit(lib: Library, of: Ty, v: Val)
    requires Sound(lib) && Proper(Ptr(of)) && HasType(lib, of, v) && SmallInts(lib, of, v)
    requires Encode(lib, of, v).Some? && Fits(lib, Encode(lib, of, v).value)
    ensures HitIs(lib, Ptr(of), VPtr(v), Encode(lib, of, v).value, v != VTime(0))
    ensures Survives(Ptr(of), VPtr(v)) <==> v != VTime(0)
  {
    var j := Encode(lib, of, v).value;
    NullIsZeroTime(lib, of, v);
    RereadNull(lib, j);
    if v != VTime(0) {
      ScalarHit(lib, of, v);
      PointerBack(lib, of, v, Reread(lib, j), true);
    }
  }

  lemma SliceDecodes(lib: Library, elem: Ty, again: seq<Json>) returns (ws: seq<Val>)
    requires forall i :: 0 <= i < |again| ==> Decode(lib, elem, again[i]).Some?
    ensures Decode(lib, Slice(elem), Arr(again)) == Some(VList(ws)) && |ws| == |again|
    ensures forall i :: 0 <= i < |again| ==> ws[i] == Decode(lib, elem, again[i]).value
  {
    ws := Decode(lib, Slice(elem), Arr(again)).value.vs;
  }

  lemma SliceAgrees(lib: Library, elem: Ty, v: Val, ws: seq<Val>)
    requires v.VList? && |ws| == |v.vs|
    requires forall i :: 0 <= i < |ws| ==> (Agree(lib, elem, v.vs[i], ws[i]) <==> Survives(elem, v.vs[i]))
    ensures Agree(lib, Slice(elem), v, VList(ws)) <==> Survives(Slice(elem), v)
  {
  }

  lemma SliceBack(lib: Library, elem: Ty, v: Val, again: seq<Json>)
    requires v.VList? && |again| == |v.vs|
    requires forall i :: 0 <= i < |again| ==> Back(lib, elem, v.vs[i], again[i], Survives(elem, v.vs[i]))
    ensures Back(lib, Slice(elem), v, Arr(again), Survives(Slice(elem), v))
  {
    forall i | 0 <= i < |again|
      ensures Decode(lib, elem, again[i]).Some?
      ensures Agree(lib, elem, v.vs[i], Decode(lib, elem, again[i]).value) <==> Survives(elem, v.vs[i])
    {
      assert Back(lib, elem, v.vs[i], again[i], Survives(elem, v.vs[i]));
    }
    var ws := SliceDecodes(lib, elem, again);
    SliceAgrees(lib, elem, v, ws);
  }

  lemma SliceHit(lib: Library, elem: Ty, v: Val)
    requires Sound(lib) && Proper(elem) && v.VList? && HasType(lib, Slice(elem), v) && SmallInts(lib, Slice(elem), v)
    requires Encode(lib, Slice(elem), v).Some? && Fits(lib, Encode(lib, Slice(elem), v).value)
    ensures HitIs(lib, Slice(elem), v, Encode(lib, Slice(elem), v).value, Survives(Slice(elem), v))
    decreases Slice(elem), 0
  {
    var js := Encode(lib, Slice(elem), v).value.xs;
    RereadArr(lib, js);
    var again := Reread(lib, Arr(js)).xs;
    forall i | 0 <= i < |v.vs|
      ensures Back(lib, elem, v.vs[i], again[i], Survives(elem, v.vs[i]))
    {
      assert Fits(lib, js[i]) && js[i] == Encode(lib, elem, v.vs[i]).value;
      HitAgreesIff(lib, elem, v.vs[i]);
    }
    SliceBack(lib, elem, v, again);
  }

  lemma StructBack(lib: Library, fields: seq<Field>, v: Val, again: map<string, Json>)
    requires v.VStruct? && |v.vs| == |fields|
    requires forall i :: 0 <= i < |fields| ==>
               && fields[i].name in again
               && Back(lib, fields[i].ty, v.vs[i], again[fields[i].name], Survives(fields[i].ty, v.vs[i]))
    ensures Back(lib, Struct(fields), v, Obj(again), Survives(Struct(fields), v))
  {
    assert forall i :: 0 <= i < |fields| ==>
      DecodeField(lib, fields[i], again) == Decode(lib, fields[i].ty, again[fields[i].name]);
  }

  lemma StructHit(lib: Library, fields: seq<Field>, v: Val)
    requires Sound(lib) && Proper(Struct(fields))
    requires HasType(lib, Struct(fields), v) && SmallInts(lib, Struct(fields), v)
    requires Encode(lib, Struct(fields), v).Some? && Fits(lib, Encode(lib, Struct(fields), v).value)
    ensures HitIs(lib, Struct(fields), v, Encode(lib, Struct(fields), v).value, Survives(Struct(fields), v))
    decreases Struct(fields), 0
  {
    var js := seq(|fields|, i requires 0 <= i < |fields| => EncodeField(lib, fields[i], v.vs[i]).value);
    var m := Members(fields, js, |fields|);
    assert Encode(lib, Struct(fields), v).value == Obj(m);
    RereadObj(lib, m);
    var again := Reread(lib, Obj(m)).m;
    forall i | 0 <= i < |fields|
      ensures fields[i].name in again
      ensures Back(lib, fields[i].ty, v.vs[i], again[fields[i].name], Survives(fields[i].ty, v.vs[i]))
    {
      MemberAt(fields, js, |fields|, i);
      HitAgreesIff(lib, fields[i].ty, v.vs[i]);
    }
    StructBack(lib, fields, v, again);
  }

  // ---------- The two halves of get ----------

  /** What a successful fetch hands to the caller and puts into the cache; None is an error of get. */
  function Fetch(lib: Library, ty: Ty, body: Json): Option<(Val, Any)> {
    var target := Decode(lib, ty, body);
    if target.None? then None
    else
      var raw := Encode(lib, ty, target.value);
      if raw.None? || !Fits(lib, raw.value) then None else Some((target.value, ToAny(lib, raw.value)))
  }

  /** copyCacheEntry. */
  function CopyEntry(lib: Library, ty: Ty, data: Any): Option<Val> {
    Decode(lib, ty, FromAny(lib, data))
  }

  /** When the integers are within 2^53, a hit never fails to decode, and gives what the miss gave
      exactly when that value held no pointer to the zero instant and no absent integer list. */
  lemma HitIsMissIff(lib: Library, ty: Ty, body: Json)
    requires Sound(lib) && Proper(ty) && Fetch(lib, ty, body).Some?
    ensures var (v, data) := Fetch(lib, ty, body).value;
      HasType(lib, ty, v) && (SmallInts(lib, ty, v) ==>
        && CopyEntry(lib, ty, data).Some?
        && (Agree(lib, ty, v, CopyEntry(lib, ty, data).value) <==> Survives(ty, v)))
  {
    DecodeTyped(lib, ty, body);
    var v := Fetch(lib, ty, body).value.0;
    if SmallInts(lib, ty, v) {
      HitAgreesIff(lib, ty, v);
    }
  }

  /** A type with neither EpochMs pointers nor FlexIntSlice. */
  predicate AlwaysStable(ty: Ty) {
    match ty
    case FInts => false
    case Ptr(of) => !of.Epoch?
    case Slice(elem) => AlwaysStable(elem)
    case Struct(fields) => forall i :: 0 <= i < |fields| ==> AlwaysStable(fields[i].ty)
    case _ => true
  }

  lemma {:induction false} StableSurvives(ty: Ty, v: Val)
    requires AlwaysStable(ty)
    ensures Survives(ty, v)
  {
    match ty
    case Slice(elem) =>
      if v.VList? {
        forall i | 0 <= i < |v.vs| ensures Survives(elem, v.vs[i]) { StableSurvives(elem, v.vs[i]); }
      }
    case Struct(fields) =>
      if v.VStruct? && |v.vs| == |fields| {
        forall i | 0 <= i < |fields| ensures Survives(fields[i].ty, v.vs[i]) { StableSurvives(fields[i].ty, v.vs[i]); }
      }
    case _ =>
  }

  /** For such response types hit and miss always agree. */
  lemma StableHitIsMiss(lib: Library, ty: Ty, body: Json)
    requires Sound(lib) && Proper(ty) && AlwaysStable(ty) && Fetch(lib, ty, body).Some?
    ensures var (v, data) := Fetch(lib, ty, body).value;
      HasType(lib, ty, v) && (SmallInts(lib, ty, v) ==>
        CopyEntry(lib, ty, data).Some? && Agree(lib, ty, v, CopyEntry(lib, ty, data).value))
  {
    HitIsMissIff(lib, ty, body);
    StableSurvives(ty, Fetch(lib, ty, body).value.0);
  }

  /** The typed views of a settings object. */
  const SETTINGS_KEYS: set<string> := {
    "type", "best_ball", "waiver_budget", "waiver_bid_min", "waiver_clear_days", "waiver_day_of_week",
    "waiver_type", "daily_waivers", "daily_waivers_hour", "disable_adds", "num_teams", "max_keepers",
    "draft_rounds", "pick_trading", "playoff_week_start", "playoff_teams", "playoff_type",
    "playoff_round_type", "playoff_seed_type", "reserve_slots", "reserve_allow_cov", "reserve_allow_dnr",
    "reserve_allow_doubtful", "reserve_allow_na", "reserve_allow_out", "reserve_allow_sus", "taxi_slots",
    "taxi_years", "taxi_allow_vets", "taxi_deadline", "trade_deadline", "trade_review_days", "bench_lock",
    "capacity_override", "commissioner_direct_invite", "league_average_match", "offseason_adds", "leg"
  }

  /** League.settings. */
  function LeagueSettings(): Ty {
    Ptr(SettingsT(SETTINGS_KEYS))
  }

  function Matchup(): Ty {
    Struct([
      Field("roster_id", FInt), Field("matchup_id", Ptr(FInt)), Field("points", Ptr(FFloat)),
      Field("custom_points", Ptr(FFloat)), Field("starters", FStrings), Field("players", FStrings)
    ])
  }

  /** Matchups and league settings are of that kind: they are always read back as they were fetched. */
  lemma StableResponses()
    ensures Proper(Slice(Matchup())) && AlwaysStable(Slice(Matchup()))
    ensures Proper(LeagueSettings()) && AlwaysStable(LeagueSettings())
  {
  }

  /** MarshalJSON keeps the text of every member of a settings object, the cache does not: 2^53 + 1
      has become 2^53, although the two decode to the same float64. */
  lemma SettingsTextChanges(lib: Library, keys: set<string>, key: string)
    requires Sound(lib) && lib.roundInt(EXACT + 1) == Some(EXACT as real)
    ensures var body := Obj(map[key := Num(Integer(EXACT + 1))]);
      && Fetch(lib, SettingsT(keys), body).Some?
      && Fetch(lib, SettingsT(keys), body).value.0 == VSettings(map[key := Num(Integer(EXACT + 1))])
      && CopyEntry(lib, SettingsT(keys), Fetch(lib, SettingsT(keys), body).value.1)
         == Some(VSettings(map[key := Num(Integer(EXACT))]))
  {
    OneMemberReread(lib, key);
  }

  lemma OneMemberReread(lib: Library, key: string)
    requires Sound(lib) && lib.roundInt(EXACT + 1) == Some(EXACT as real)
    ensures var raw := map[key := Num(Integer(EXACT + 1))];
      Fits(lib, Obj(raw)) && Reread(lib, Obj(raw)) == Obj(map[key := Num(Integer(EXACT))])
  {
    var raw := map[key := Num(Integer(EXACT + 1))];
    assert Small(EXACT) && Fits(lib, raw[key]);
    RereadObj(lib, raw);
    assert Reread(lib, Obj(raw)).m == map[key := Num(Integer(EXACT))];
  }

  /** One way a value changes: an unreadable timestamp is a pointer to the zero instant on a miss, and
      nil on a hit. */
  lemma ZeroInstantLost(lib: Library, name: string, text: string)
    requires lib.asNumber(text).None? && lib.atoi(text).None? && lib.parseTime(text).None?
    ensures var ty := Struct([Field(name, Ptr(Epoch))]);
      var body := Obj(map[name := Str(text)]);
      && Fetch(lib, ty, body).Some? && Fetch(lib, ty, body).value.0 == VStruct([VPtr(VTime(0))])
      && CopyEntry(lib, ty, Fetch(lib, ty, body).value.1) == Some(VStruct([VNil]))
  {
    var created := Field(name, Ptr(Epoch));
    var body := map[name := Str(text)];
    UnreadableTime(lib, created, text);
    OneFieldNull(lib, created, VPtr(VTime(0)));
    OneFieldDecoded(lib, created, body);
  }

  lemma UnreadableTime(lib: Library, f: Field, text: string)
    requires f.ty == Ptr(Epoch)
    requires lib.asNumber(text).None? && lib.atoi(text).None? && lib.parseTime(text).None?
    ensures DecodeField(lib, f, map[f.name := Str(text)]) == Some(VPtr(VTime(0)))
    ensures EncodeField(lib, f, VPtr(VTime(0))) == Some(Null)
    ensures DecodeField(lib, f, map[f.name := Null]) == Some(VNil)
  {
  }

  /** The other: a FlexIntSlice the document lacks is nil on a miss and empty on a hit. */
  lemma AbsentListFilled(lib: Library, name: string)
    ensures var ty := Struct([Field(name, FInts)]);
      && Fetch(lib, ty, Obj(map[])).Some? && Fetch(lib, ty, Obj(map[])).value.0 == VStruct([VInts(None)])
      && CopyEntry(lib, ty, Fetch(lib, ty, Obj(map[])).value.1) == Some(VStruct([VInts(Some([]))]))
  {
    var lists := Field(name, FInts);
    OneFieldNull(lib, lists, VInts(None));
    OneFieldDecoded(lib, lists, map[]);
  }

  lemma OneFieldDecoded(lib: Library, f: Field, m: map<string, Json>)
    requires DecodeField(lib, f, m).Some?
    ensures Decode(lib, Struct([f]), Obj(m)) == Some(VStruct([DecodeField(lib, f, m).value]))
  {
    var fields, vals := [f], [DecodeField(lib, f, m).value];
    var all := seq(|fields|, i requires 0 <= i < |fields| => DecodeField(lib, fields[i], m).value);
    assert all == vals;
  }

  lemma OneFieldEncoded(lib: Library, f: Field, v: Val)
    requires EncodeField(lib, f, v) == Some(Null)
    ensures Encode(lib, Struct([f]), VStruct([v])) == Some(Obj(map[f.name := Null]))
  {
    var fields, vs, js := [f], [v], [Null];
    var all := seq(|fields|, i requires 0 <= i < |fields| => EncodeField(lib, fields[i], vs[i]).value);
    assert all == js;
    assert Members(fields, js, 1) == Members(fields, js, 0)[f.name := Null];
  }

  /** A struct whose only field is encoded as null. */
  lemma OneFieldNull(lib: Library, f: Field, v: Val)
    requires EncodeField(lib, f, v) == Some(Null)
    requires DecodeField(lib, f, map[f.name := Null]).Some?
    ensures var raw := Encode(lib, Struct([f]), VStruct([v]));
      && raw.Some? && Fits(lib, raw.value)
      && CopyEntry(lib, Struct([f]), ToAny(lib, raw.value))
         == Some(VStruct([DecodeField(lib, f, map[f.name := Null]).value]))
  {
    OneFieldEncoded(lib, f, v);
    RereadObj(lib, map[f.name := Null]);
    assert Reread(lib, Obj(map[f.name := Null])) == Obj(map[f.name := Null]);
    OneFieldDecoded(lib, f, map[f.name := Null]);
  }
}

/** internal/sleeper/helpers.go and settings.go: lenient decoding of API payloads, and what becomes of
    a decoded value on its way through the response cache (encode, decode as `any`, encode, decode).
    JSON text, float printing and calendar formatting are the fields of a Library; what is taken for
    granted about them is Sound(lib). */
module FlexCodec {
  import opened Basics

  /** A JSON number: an integer literal, or one with a fraction or an exponent. */
  datatype Number = Integer(n: int) | Other(text: string)

  /** A JSON document. */
  datatype Json =
    | Null
    | Bool(b: bool)
    | Num(k: Number)
    | Str(s: string)
    | Arr(xs: seq<Json>)
    | Obj(m: map<string, Json>)

  /** A float64: a real number, or one of the values JSON cannot express. */
  datatype Float = Finite(x: real) | NotFinite

  datatype Library = Library(
    digits: int -> string,
    isDouble: real -> bool,
    roundInt: int -> Option<real>,
    roundText: string -> Option<real>,
    show: real -> Number,
    trunc: Float -> int,
    asNumber: string -> Option<Number>,
    atoi: string -> Option<int>,
    parseFloat: string -> Option<Float>,
    formatTime: int -> Option<string>,
    parseTime: string -> Option<int>)

  const EXACT: int := 0x20_0000_0000_0000   // 2^53
  const MAX_INT64: int := 0x7fff_ffff_ffff_ffff
  const MIN_INT64: int := 0 - 0x8000_0000_0000_0000
  /** Instants are nanoseconds since the zero time; this one is 1970-01-01. */
  const UNIX_EPOCH: int := 62135596800 * 1000000000

  predicate IsInt64(n: int) {
    MIN_INT64 <= n <= MAX_INT64
  }

  predicate Small(n: int) {
    0 - EXACT <= n <= EXACT
  }

  /** json.Number.Float64; None is an out-of-range error. */
  function FloatOf(lib: Library, k: Number): Option<real> {
    match k
    case Integer(n) => lib.roundInt(n)
    case Other(t) => lib.roundText(t)
  }

  function TextOf(lib: Library, k: Number): string {
    match k
    case Integer(n) => lib.digits(n)
    case Other(t) => t
  }

  /** Integers within 2^53 are doubles and print as themselves, rounding is monotone around that bound,
      printing a double reads back as that double, and printed times are not numbers and parse back. */
  ghost predicate Sound(lib: Library) {
    && (forall n :: Small(n) ==>
          && lib.roundInt(n) == Some(n as real) && lib.isDouble(n as real)
          && lib.show(n as real) == Integer(n) && lib.trunc(Finite(n as real)) == n)
    && (forall n :: lib.roundInt(n).Some? ==>
          && lib.isDouble(lib.roundInt(n).value)
          && (n > EXACT ==> lib.roundInt(n).value >= EXACT as real)
          && (n < 0 - EXACT ==> lib.roundInt(n).value <= 0.0 - EXACT as real))
    && (forall t :: lib.roundText(t).Some? ==> lib.isDouble(lib.roundText(t).value))
    && (forall t :: lib.parseFloat(t).Some? && lib.parseFloat(t).value.Finite? ==>
          lib.isDouble(lib.parseFloat(t).value.x))
    && (forall x :: lib.isDouble(x) ==> FloatOf(lib, lib.show(x)) == Some(x))
    && (forall x :: lib.isDouble(x) && (x > EXACT as real || x < 0.0 - EXACT as real) ==>
          !Small(lib.trunc(Finite(x))))
    && (forall t :: lib.formatTime(t).Some? ==>
          && lib.parseTime(lib.formatTime(t).value) == Some(t)
          && lib.asNumber(lib.formatTime(t).value).None? && lib.atoi(lib.formatTime(t).value).None?)
  }

  // ---------- Go values of dynamic type ----------

  datatype Any =
    | ANull
    | ABool(b: bool)
    | AFloat(x: real)
    | AStr(s: string)
    | AArr(xs: seq<Any>)
    | AObj(m: map<string, Any>)

  /** Every number is in float64 range. */
  predicate Fits(lib: Library, j: Json) {
    match j
    case Num(k) => FloatOf(lib, k).Some?
    case Arr(xs) => forall i :: 0 <= i < |xs| ==> Fits(lib, xs[i])
    case Obj(m) => forall key :: key in m ==> Fits(lib, m[key])
    case _ => true
  }

  /** json.Unmarshal into a variable of type any. */
  function ToAny(lib: Library, j: Json): Any
    requires Fits(lib, j)
  {
    match j
    case Null => ANull
    case Bool(b) => ABool(b)
    case Num(k) => AFloat(FloatOf(lib, k).value)
    case Str(s) => AStr(s)
    case Arr(xs) => AArr(seq(|xs|, i requires 0 <= i < |xs| => ToAny(lib, xs[i])))
    case Obj(m) => AObj(map key | key in m :: ToAny(lib, m[key]))
  }

  /** json.Marshal of such a value. */
  function FromAny(lib: Library, a: Any): Json {
    match a
    case ANull => Null
    case ABool(b) => Bool(b)
    case AFloat(x) => Num(lib.show(x))
    case AStr(s) => Str(s)
    case AArr(xs) => Arr(seq(|xs|, i requires 0 <= i < |xs| => FromAny(lib, xs[i])))
    case AObj(m) => Obj(map key | key in m :: FromAny(lib, m[key]))
  }

  predicate Doubles(lib: Library, a: Any) {
    match a
    case AFloat(x) => lib.isDouble(x)
    case AArr(xs) => forall i :: 0 <= i < |xs| ==> Doubles(lib, xs[i])
    case AObj(m) => forall key :: key in m ==> Doubles(lib, m[key])
    case _ => true
  }

  lemma {:induction false} DecodedAreDoubles(lib: Library, j: Json)
    requires Sound(lib) && Fits(lib, j)
    ensures Doubles(lib, ToAny(lib, j))
  {
    match j
    case Arr(xs) =>
      forall i | 0 <= i < |xs| ensures Doubles(lib, ToAny(lib, xs[i])) { DecodedAreDoubles(lib, xs[i]); }
    case Obj(m) =>
      forall key | key in m ensures Doubles(lib, ToAny(lib, m[key])) { DecodedAreDoubles(lib, m[key]); }
    case _ =>
  }

  /** Once a document has been decoded as `any`, printing and decoding it again changes nothing. */
  lemma {:induction false} AnySurvives(lib: Library, a: Any)
    requires Sound(lib) && Doubles(lib, a)
    ensures Fits(lib, FromAny(lib, a)) && ToAny(lib, FromAny(lib, a)) == a
  {
    match a
    case AArr(xs) =>
      forall i | 0 <= i < |xs|
        ensures Fits(lib, FromAny(lib, xs[i])) && ToAny(lib, FromAny(lib, xs[i])) == xs[i]
      {
        AnySurvives(lib, xs[i]);
      }
    case AObj(m) =>
      forall key | key in m
        ensures Fits(lib, FromAny(lib, m[key])) && ToAny(lib, FromAny(lib, m[key])) == m[key]
      {
        AnySurvives(lib, m[key]);
      }
    case _ =>
  }

  /** What a document looks like after a stay in the cache. */
  function Reread(lib: Library, j: Json): Json
    requires Fits(lib, j)
  {
    FromAny(lib, ToAny(lib, j))
  }

  // ---------- The lenient scalar decoders ----------

  /** FlexString: strings and numbers; null is empty; anything else is an error. */
  function DecodeString(lib: Library, j: Json): Option<string> {
    match j
    case Null => Some("")
    case Str(s) => Some(s)
    case Num(k) => Some(TextOf(lib, k))
    case _ => None
  }

  function IntOf(lib: Library, k: Number): int {
    if k.Integer? && IsInt64(k.n) then k.n
    else match FloatOf(lib, k)
      case Some(x) => lib.trunc(Finite(x))
      case None => 0
  }

  /** FlexInt never fails; json.Number also takes a string that is a valid number. */
  function DecodeInt(lib: Library, j: Json): int {
    match j
    case Num(k) => IntOf(lib, k)
    case Str(s) =>
      if lib.asNumber(s).Some? then IntOf(lib, lib.asNumber(s).value)
      else if lib.atoi(s).Some? then lib.atoi(s).value
      else if lib.parseFloat(s).Some? then lib.trunc(lib.parseFloat(s).value)
      else 0
    case _ => 0
  }

  function FloatOrZero(lib: Library, k: Number): Float {
    match FloatOf(lib, k)
    case Some(x) => Finite(x)
    case None => Finite(0.0)
  }

  function DecodeFloat(lib: Library, j: Json): Float {
    match j
    case Num(k) => FloatOrZero(lib, k)
    case Str(s) =>
      if lib.asNumber(s).Some? then FloatOrZero(lib, lib.asNumber(s).value)
      else if lib.parseFloat(s).Some? then lib.parseFloat(s).value
      else Finite(0.0)
    case _ => Finite(0.0)
  }

  function DecodeBool(j: Json): bool {
    j == Bool(true)
  }

  function UnixMilli(ms: int): int {
    UNIX_EPOCH + ms * 1000000
  }

  function EpochOfNumber(lib: Library, k: Number): int {
    if k.Integer? && IsInt64(k.n) then UnixMilli(k.n)
    else match FloatOf(lib, k)
      case Some(x) => UnixMilli(lib.trunc(Finite(x)))
      case None => 0
  }

  /** EpochMs: milliseconds, or RFC 3339 text; anything else leaves the zero instant. */
  function DecodeEpoch(lib: Library, j: Json): int {
    match j
    case Num(k) => EpochOfNumber(lib, k)
    case Str(s) =>
      if lib.asNumber(s).Some? then EpochOfNumber(lib, lib.asNumber(s).value)
      else if lib.atoi(s).Some? then UnixMilli(lib.atoi(s).value)
      else if lib.parseTime(s).Some? then lib.parseTime(s).value
      else 0
    case _ => 0
  }

  // ---------- What they decode ----------

  /** `v` is what a number stands for as an integer: itself if it is an int64 literal, otherwise its float64
      cut off, and 0 when it has none. */
  ghost predicate IntOfNumber(lib: Library, k: Number, v: int) {
    match k
    case Integer(n) =>
      if 0 - 0x8000_0000_0000_0000 <= n <= 0x7fff_ffff_ffff_ffff then v == n
      else (match lib.roundInt(n) case Some(x) => v == lib.trunc(Finite(x)) case None => v == 0)
    case Other(t) => (match lib.roundText(t) case Some(x) => v == lib.trunc(Finite(x)) case None => v == 0)
  }

  /** `v` is what FlexInt makes of a document: a string counts as the number it spells, or else as what atoi,
      or else parseFloat, reads in it; all else is 0. */
  ghost predicate IntMeans(lib: Library, j: Json, v: int) {
    && (j.Num? ==> IntOfNumber(lib, j.k, v))
    && (j.Str? && lib.asNumber(j.s).Some? ==> IntOfNumber(lib, lib.asNumber(j.s).value, v))
    && (j.Str? && lib.asNumber(j.s).None? && lib.atoi(j.s).Some? ==> lib.atoi(j.s) == Some(v))
    && (j.Str? && lib.asNumber(j.s).None? && lib.atoi(j.s).None? ==>
          v == match lib.parseFloat(j.s) case Some(f) => lib.trunc(f) case None => 0)
    && (!j.Num? && !j.Str? ==> v == 0)
  }

  lemma IntMeansIff(lib: Library, j: Json, v: int)
    ensures IntMeans(lib, j, v) <==> v == DecodeInt(lib, j)
  {
  }

  ghost predicate FloatOfNumber(lib: Library, k: Number, f: Float) {
    match (match k case Integer(n) => lib.roundInt(n) case Other(t) => lib.roundText(t))
    case Some(x) => f == Finite(x)
    case None => f == Finite(0.0)
  }

  /** The same for FlexFloat. */
  ghost predicate FloatMeans(lib: Library, j: Json, f: Float) {
    && (j.Num? ==> FloatOfNumber(lib, j.k, f))
    && (j.Str? && lib.asNumber(j.s).Some? ==> FloatOfNumber(lib, lib.asNumber(j.s).value, f))
    && (j.Str? && lib.asNumber(j.s).None? && lib.parseFloat(j.s).Some? ==> lib.parseFloat(j.s) == Some(f))
    && (j.Str? && lib.asNumber(j.s).None? && lib.parseFloat(j.s).None? ==> f == Finite(0.0))
    && (!j.Num? && !j.Str? ==> f == Finite(0.0))
  }

  lemma FloatMeansIff(lib: Library, j: Json, f: Float)
    ensures FloatMeans(lib, j, f) <==> f == DecodeFloat(lib, j)
  {
  }

  /** FlexString takes null as empty, a string as it is and a number as it is written, and nothing else. */
  ghost predicate StringMeans(lib: Library, j: Json, s: string) {
    || (j == Null && s == "")
    || j == Str(s)
    || (j.Num? && j.k.Integer? && s == lib.digits(j.k.n))
    || j == Num(Other(s))
  }

  lemma StringMeansIff(lib: Library, j: Json, s: string)
    ensures StringMeans(lib, j, s) <==> DecodeString(lib, j) == Some(s)
  {
  }

  /** `t` is `ms` milliseconds after 1970-01-01, in nanoseconds since the zero time. */
  ghost predicate IsMilli(ms: int, t: int) {
    t - 62135596800_000_000_000 == 1000000 * ms
  }

  /** The instant of a number of milliseconds, cut off if it is no int64 literal; the zero instant if it has no
      float64. */
  ghost predicate EpochOf(lib: Library, k: Number, t: int) {
    if (match k case Integer(n) => IsInt64(n) || lib.roundInt(n).Some? case Other(x) => lib.roundText(x).Some?)
    then exists ms :: IntOfNumber(lib, k, ms) && IsMilli(ms, t)
    else t == 0
  }

  /** What EpochMs makes of a document: milliseconds, as a number or in a string, or RFC 3339 text. */
  ghost predicate EpochMeans(lib: Library, j: Json, t: int) {
    && (j.Num? ==> EpochOf(lib, j.k, t))
    && (j.Str? && lib.asNumber(j.s).Some? ==> EpochOf(lib, lib.asNumber(j.s).value, t))
    && (j.Str? && lib.asNumber(j.s).None? && lib.atoi(j.s).Some? ==> IsMilli(lib.atoi(j.s).value, t))
    && (j.Str? && lib.asNumber(j.s).None? && lib.atoi(j.s).None? ==>
          t == match lib.parseTime(j.s) case Some(u) => u case None => 0)
    && (!j.Num? && !j.Str? ==> t == 0)
  }

  lemma EpochOfIff(lib: Library, k: Number, t: int)
    ensures EpochOf(lib, k, t) <==> t == EpochOfNumber(lib, k)
  {
    var ms := IntOf(lib, k);
    assert IntOfNumber(lib, k, ms);
    assert IsMilli(ms, UnixMilli(ms));
  }

  lemma EpochMeansIff(lib: Library, j: Json, t: int)
    ensures EpochMeans(lib, j, t) <==> t == DecodeEpoch(lib, j)
  {
    if j.Num? {
      EpochOfIff(lib, j.k, t);
    } else if j.Str? && lib.asNumber(j.s).Some? {
      EpochOfIff(lib, lib.asNumber(j.s).value, t);
    } else if j.Str? && lib.atoi(j.s).Some? {
      assert IsMilli(lib.atoi(j.s).value, UnixMilli(lib.atoi(j.s).value));
    }
  }

  /** The text an entry of a list has, if it has one that FlexStringSlice keeps. */
  ghost function KeptText(lib: Library, j: Json): Option<string> {
    match j
    case Str(s) => if s == "" || s == "<nil>" then None else Some(s)
    case Num(Integer(n)) => if lib.digits(n) == "" || lib.digits(n) == "<nil>" then None else Some(lib.digits(n))
    case Num(Other(t)) => if t == "" || t == "<nil>" then None else Some(t)
    case _ => None
  }

  /** The positions in front of `i` that hold an entry that is kept. */
  ghost function KeptBefore(lib: Library, xs: seq<Json>, i: nat): set<nat>
    requires i <= |xs|
  {
    set k | 0 <= k < i && KeptText(lib, xs[k]).Some?
  }

  /** `ss` are the texts of the kept ones among the first `n` entries: each stands behind as many as are kept
      in front of it, and there are no others. */
  ghost predicate ListMeans(lib: Library, xs: seq<Json>, n: nat, ss: seq<string>)
    requires n <= |xs|
  {
    && |ss| == |KeptBefore(lib, xs, n)|
    && forall i :: 0 <= i < n && KeptText(lib, xs[i]).Some? ==>
         && |KeptBefore(lib, xs, i)| < |ss|
         && ss[|KeptBefore(lib, xs, i)|] == KeptText(lib, xs[i]).value
  }

  lemma KeptNext(lib: Library, xs: seq<Json>, i: nat)
    requires i < |xs|
    ensures |KeptBefore(lib, xs, i + 1)| == |KeptBefore(lib, xs, i)| + if KeptText(lib, xs[i]).Some? then 1 else 0
  {
    if KeptText(lib, xs[i]).Some? {
      assert KeptBefore(lib, xs, i + 1) == KeptBefore(lib, xs, i) + {i};
    } else {
      assert KeptBefore(lib, xs, i + 1) == KeptBefore(lib, xs, i);
    }
  }

  lemma KeptEarlier(lib: Library, xs: seq<Json>, i: nat, n: nat)
    requires i < n <= |xs| && KeptText(lib, xs[i]).Some?
    ensures |KeptBefore(lib, xs, i)| < |KeptBefore(lib, xs, n)|
  {
    assert KeptBefore(lib, xs, i) + {i} <= KeptBefore(lib, xs, n);
    SubsetSize(KeptBefore(lib, xs, i) + {i}, KeptBefore(lib, xs, n));
  }

  lemma KeptTextIs(lib: Library, j: Json)
    ensures KeptText(lib, j) == if Kept(lib, j) then DecodeString(lib, j) else None
  {
  }

  /** One more entry: its text, if kept, is the last of the list. */
  lemma ListGrows(lib: Library, xs: seq<Json>, n: nat, ss: seq<string>)
    requires n < |xs| && ListMeans(lib, xs, n, ss)
    ensures ListMeans(lib, xs, n + 1, if KeptText(lib, xs[n]).Some? then ss + [KeptText(lib, xs[n]).value] else ss)
  {
    KeptNext(lib, xs, n);
    var more := if KeptText(lib, xs[n]).Some? then ss + [KeptText(lib, xs[n]).value] else ss;
    forall i | 0 <= i < n + 1 && KeptText(lib, xs[i]).Some?
      ensures |KeptBefore(lib, xs, i)| < |more| && more[|KeptBefore(lib, xs, i)|] == KeptText(lib, xs[i]).value
    {
      if i < n {
        assert more[|KeptBefore(lib, xs, i)|] == ss[|KeptBefore(lib, xs, i)|];
      }
    }
  }

  lemma ListShrinks(lib: Library, xs: seq<Json>, n: nat, ss: seq<string>) returns (front: seq<string>)
    requires n < |xs| && ListMeans(lib, xs, n + 1, ss)
    ensures ListMeans(lib, xs, n, front)
    ensures ss == if KeptText(lib, xs[n]).Some? then front + [KeptText(lib, xs[n]).value] else front
  {
    KeptNext(lib, xs, n);
    front := if KeptText(lib, xs[n]).Some? then ss[..|ss| - 1] else ss;
    forall i | 0 <= i < n && KeptText(lib, xs[i]).Some?
      ensures |KeptBefore(lib, xs, i)| < |front| && front[|KeptBefore(lib, xs, i)|] == KeptText(lib, xs[i]).value
    {
      KeptEarlier(lib, xs, i, n);
      assert front[|KeptBefore(lib, xs, i)|] == ss[|KeptBefore(lib, xs, i)|];
    }
  }

  lemma {:induction false} KeptStringsMean(lib: Library, xs: seq<Json>, n: nat)
    requires n <= |xs|
    ensures ListMeans(lib, xs, n, KeptStrings(lib, xs, n))
  {
    if n == 0 {
      assert KeptBefore(lib, xs, 0) == {};
    } else {
      KeptStringsMean(lib, xs, n - 1);
      KeptTextIs(lib, xs[n - 1]);
      ListGrows(lib, xs, n - 1, KeptStrings(lib, xs, n - 1));
      assert KeptStrings(lib, xs, n - 1) + [] == KeptStrings(lib, xs, n - 1);
    }
  }

  lemma {:induction false} ListMeansOne(lib: Library, xs: seq<Json>, n: nat, ss: seq<string>)
    requires n <= |xs| && ListMeans(lib, xs, n, ss)
    ensures ss == KeptStrings(lib, xs, n)
  {
    if n == 0 {
      assert KeptBefore(lib, xs, 0) == {};
    } else {
      var front := ListShrinks(lib, xs, n - 1, ss);
      ListMeansOne(lib, xs, n - 1, front);
      KeptTextIs(lib, xs[n - 1]);
    }
  }

  /** FlexStringSlice makes of an array just this list. */
  lemma ListMeansIff(lib: Library, xs: seq<Json>, ss: seq<string>)
    ensures ListMeans(lib, xs, |xs|, ss) <==> ss == KeptStrings(lib, xs, |xs|)
  {
    KeptStringsMean(lib, xs, |xs|);
    if ListMeans(lib, xs, |xs|, ss) {
      ListMeansOne(lib, xs, |xs|, ss);
    }
  }

  // ---------- Lists ----------

  const NIL_STR: string := "<nil>"

  predicate Kept(lib: Library, j: Json) {
    DecodeString(lib, j).Some? && DecodeString(lib, j).value !in {"", NIL_STR}
  }

  /** The entries of an array that FlexStringSlice keeps, among the first `n`. */
  function KeptStrings(lib: Library, xs: seq<Json>, n: nat): seq<string>
    requires n <= |xs|
  {
    if n == 0 then []
    else KeptStrings(lib, xs, n - 1) + if Kept(lib, xs[n - 1]) then [DecodeString(lib, xs[n - 1]).value] else []
  }

  method DecodeStringSlice(lib: Library, j: Json) returns (s: Option<seq<string>>)
    ensures s == if j.Arr? then Some(KeptStrings(lib, j.xs, |j.xs|)) else None
    ensures s.Some? <==> j.Arr?
    ensures j.Arr? ==> ListMeans(lib, j.xs, |j.xs|, s.value)
  {
    if j.Arr? {
      ListMeansIff(lib, j.xs, KeptStrings(lib, j.xs, |j.xs|));
    }
    if !j.Arr? {
      return None;
    }
    var out := [];
    for i := 0 to |j.xs|
      invariant out == KeptStrings(lib, j.xs, i)
    {
      var fs := DecodeString(lib, j.xs[i]);
      if fs.None? {
        continue;
      }
      var v := fs.value;
      if v == "" || v == NIL_STR {
        continue;
      }
      out := out + [v];
    }
    return Some(out);
  }

  function Ints(lib: Library, xs: seq<Json>): seq<int> {
    seq(|xs|, i requires 0 <= i < |xs| => DecodeInt(lib, xs[i]))
  }

  method DecodeIntSlice(lib: Library, j: Json) returns (s: seq<int>)
    ensures s == if j.Arr? then Ints(lib, j.xs) else []
    ensures |s| == if j.Arr? then |j.xs| else 0
    ensures j.Arr? ==> forall k :: 0 <= k < |s| ==> IntMeans(lib, j.xs[k], s[k])
  {
    s := [];
    if !j.Arr? {
      return;
    }
    for i := 0 to |j.xs|
      invariant |s| == i && forall k :: 0 <= k < i ==> s[k] == DecodeInt(lib, j.xs[k])
    {
      s := s + [DecodeInt(lib, j.xs[i])];
    }
  }

  /** An integer within 2^53, however it was written, is read the same after a stay in the cache. */
  lemma NumberRereads(lib: Library, k: Number)
    requires Sound(lib) && FloatOf(lib, k).Some? && Small(IntOf(lib, k))
    ensures IntOf(lib, lib.show(FloatOf(lib, k).value)) == IntOf(lib, k)
  {
    var x := FloatOf(lib, k).value;
    var shown := lib.show(x);
    assert lib.isDouble(x) && FloatOf(lib, shown) == Some(x);
    if k.Integer? && Small(k.n) {
      assert shown == Integer(k.n);
    } else if shown.Integer? {
      LargeStaysLarge(lib, k, x);
      if !Small(shown.n) {
        assert x == EXACT as real || x == 0.0 - EXACT as real;
        assert lib.show(EXACT as real) == Integer(EXACT);
        assert 0.0 - EXACT as real == (0 - EXACT) as real;
        assert lib.show((0 - EXACT) as real) == Integer(0 - EXACT);
      } else {
        assert x == shown.n as real;
      }
    }
  }

  lemma LargeStaysLarge(lib: Library, k: Number, x: real)
    requires Sound(lib) && FloatOf(lib, k) == Some(x) && Small(IntOf(lib, k))
    ensures 0.0 - EXACT as real <= x <= EXACT as real
  {
    if k.Integer? && IsInt64(k.n) {
      assert lib.roundInt(k.n) == Some(k.n as real);
    }
  }

  lemma IntRereads(lib: Library, j: Json)
    requires Sound(lib) && Fits(lib, j) && Small(DecodeInt(lib, j))
    ensures DecodeInt(lib, Reread(lib, j)) == DecodeInt(lib, j)
  {
    if j.Num? {
      NumberRereads(lib, j.k);
    }
  }

  /** Beyond that bound it need not be: 2^53 + 1 is no double, and rounds to 2^53. */
  lemma LargeIntegerChanges(lib: Library)
    requires Sound(lib) && lib.roundInt(EXACT + 1) == Some(EXACT as real)
    ensures var j := Num(Integer(EXACT + 1));
      Fits(lib, j) && DecodeInt(lib, j) == EXACT + 1 && DecodeInt(lib, Reread(lib, j)) == EXACT
  {
    assert Small(EXACT);
  }

  // ---------- The assumptions can be met ----------

  /** A toy calendar: a sign and as many strokes as nanoseconds. */
  function FormatStrokes(t: int): (r: Option<string>)
    ensures r.Some?
  {
    Some((if t < 0 then "-" else "+") + seq(if t < 0 then 0 - t else t, i => '|'))
  }

  function ParseStrokes(s: string): Option<int> {
    if s == "" then None else Some(if s[0] == '-' then 1 - |s| else |s| - 1)
  }

  function ZeroOnly(s: string): Option<int> {
    if s == "0" then Some(0) else None
  }

  function ZeroNumber(s: string): Option<Number> {
    if s == "0" then Some(Integer(0)) else None
  }

  /** Ties to even at the first integer that is no double; no other double is missing. */
  function RoundToy(n: int): Option<real> {
    Some(if n == EXACT + 1 then EXACT as real else n as real)
  }

  predicate IsToyDouble(x: real) {
    x == x.Floor as real && x.Floor != EXACT + 1
  }

  function ToyLibrary(): Library {
    Library(
      (n: int) => "", IsToyDouble, RoundToy, (t: string) => None, (x: real) => Integer(x.Floor),
      (f: Float) => if f.Finite? then f.x.Floor else 0,
      ZeroNumber, ZeroOnly, (s: string) => None, FormatStrokes, ParseStrokes)
  }

  lemma StrokesParse(t: int)
    ensures var s := FormatStrokes(t).value;
      ParseStrokes(s) == Some(t) && ZeroOnly(s).None? && ZeroNumber(s).None?
  {
    var s := FormatStrokes(t).value;
    assert s[0] == (if t < 0 then '-' else '+') && "0"[0] == '0';
  }

  /** What Sound asks for can be met together, by a library that prints every time, reads some strings as
      numbers, and rounds 2^53 + 1. */
  lemma SoundIsPossible()
    ensures Sound(ToyLibrary()) && ToyLibrary().roundInt(EXACT + 1) == Some(EXACT as real)
    ensures ToyLibrary().asNumber("0").Some? && forall t :: ToyLibrary().formatTime(t).Some?
  {
    var lib := ToyLibrary();
    forall t: int
      ensures lib.formatTime(t) == FormatStrokes(t) && lib.parseTime(FormatStrokes(t).value) == Some(t)
      ensures lib.asNumber(FormatStrokes(t).value).None? && lib.atoi(FormatStrokes(t).value).None?
    {
      StrokesParse(t);
    }
    forall x | lib.isDouble(x)
      ensures FloatOf(lib, lib.show(x)) == Some(x)
    {
    }
  }
}

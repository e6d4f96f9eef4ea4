/** Byte strings as Go sees them: UTF-8 encoded text that may be malformed.
    `DecodeWidth` follows the rune decoder of Go's unicode/utf8 package, whose well-formed
    sequences are those of RFC 3629 section 4; every malformed byte decodes as one byte. */
module Utf8 {
  import opened Seqs

  type byte = b: int | 0 <= b < 256
  type bytes = seq<byte>

  /** Everything but the continuation bytes 10xxxxxx. */
  predicate RuneStart(b: byte): (r: bool)
    ensures r <==> b / 64 != 2
  {
    !(0x80 <= b < 0xC0)
  }

  predicate Continuation(b: byte) {
    0x80 <= b < 0xC0
  }

  /** Number of bytes a lead byte announces; 0 for bytes that never lead a rune. */
  function Need(b: byte): nat {
    if b < 0x80 then 1
    else if 0xC2 <= b < 0xE0 then 2
    else if 0xE0 <= b < 0xF0 then 3
    else if 0xF0 <= b < 0xF5 then 4
    else 0
  }

  /** The second byte is a continuation byte, narrowed after E0, ED, F0 and F4 so that overlong
      forms, surrogates and code points above U+10FFFF are malformed. */
  predicate SecondOk(b0: byte, b1: byte) {
    && Continuation(b1)
    && (b0 == 0xE0 ==> 0xA0 <= b1)
    && (b0 == 0xED ==> b1 < 0xA0)
    && (b0 == 0xF0 ==> 0x90 <= b1)
    && (b0 == 0xF4 ==> b1 < 0x90)
  }

  /** A well-formed rune starts at the front of `s`. */
  predicate RuneAt(s: bytes) {
    && s != []
    && 0 < Need(s[0]) <= |s|
    && (Need(s[0]) >= 2 ==> SecondOk(s[0], s[1]))
    && (Need(s[0]) >= 3 ==> Continuation(s[2]))
    && (Need(s[0]) >= 4 ==> Continuation(s[3]))
  }

  function DecodeWidth(s: bytes): (n: nat)
    ensures n <= |s| && n <= 4
    ensures s != [] ==> n > 0
  {
    if s == [] then 0 else if RuneAt(s) then Need(s[0]) else 1
  }

  predicate Valid(s: bytes) {
    s == [] || (RuneAt(s) && Valid(s[Need(s[0])..]))
  }

  function Flatten(rs: seq<bytes>): bytes {
    if rs == [] then [] else rs[0] + Flatten(rs[1..])
  }

  lemma FlattenCons(x: bytes, t: seq<bytes>)
    ensures Flatten([x] + t) == x + Flatten(t)
  {
  }

  // ---------- The same by code points ----------

  /** The code points UTF-8 encodes: all but the surrogates. */
  predicate Scalar(c: nat) {
    c < 0xD800 || 0xE000 <= c < 0x11_0000
  }

  /** The table of RFC 3629, section 3. */
  function EncodeRune(c: nat): bytes
    requires Scalar(c)
  {
    if c < 0x80 then [c]
    else if c < 0x800 then [0xC0 + c / 64, 0x80 + c % 64]
    else if c < 0x1_0000 then [0xE0 + c / 4096, 0x80 + c / 64 % 64, 0x80 + c % 64]
    else [0xF0 + c / 262144, 0x80 + c / 4096 % 64, 0x80 + c / 64 % 64, 0x80 + c % 64]
  }

  lemma EncodedIsRune(c: nat, t: bytes)
    requires Scalar(c)
    ensures RuneAt(EncodeRune(c) + t) && DecodeWidth(EncodeRune(c) + t) == |EncodeRune(c)|
  {
    if c >= 0x1_0000 {
      assert c / 262144 <= 4;
    }
  }

  lemma SplitOff(x: nat, y: nat)
    requires y < 64
    ensures (64 * x + y) / 64 == x && (64 * x + y) % 64 == y
  {
  }

  lemma ThreeBytes(x: nat, y: nat, z: nat)
    requires y < 64 && z < 64
    ensures var c := 64 * (64 * x + y) + z;
      c / 4096 == x && c / 64 % 64 == y && c % 64 == z
  {
    SplitOff(64 * x + y, z);
    SplitOff(x, y);
    var c := 64 * (64 * x + y) + z;
    assert c == 4096 * x + (64 * y + z);
  }

  lemma FourBytes(x: nat, y: nat, z: nat, w: nat)
    requires y < 64 && z < 64 && w < 64
    ensures var c := 64 * (64 * (64 * x + y) + z) + w;
      c / 262144 == x && c / 4096 % 64 == y && c / 64 % 64 == z && c % 64 == w
  {
    var c := 64 * (64 * (64 * x + y) + z) + w;
    ThreeBytes(64 * x + y, z, w);
    SplitOff(x, y);
    assert c == 262144 * x + (4096 * y + 64 * z + w);
  }

  lemma RuneIsEncoded(s: bytes) returns (c: nat)
    requires RuneAt(s)
    ensures Scalar(c) && EncodeRune(c) == s[..DecodeWidth(s)]
  {
    if Need(s[0]) == 1 {
      c := s[0];
    } else if Need(s[0]) == 2 {
      c := TwoDecoded(s);
    } else if Need(s[0]) == 3 {
      c := ThreeDecoded(s);
    } else {
      c := FourDecoded(s);
    }
  }

  lemma TwoDecoded(s: bytes) returns (c: nat)
    requires RuneAt(s) && Need(s[0]) == 2
    ensures Scalar(c) && EncodeRune(c) == s[..2]
  {
    var a: int, b: int := s[0], s[1];
    c := 64 * (a - 0xC0) + (b - 0x80);
    SplitOff(a - 0xC0, b - 0x80);
    assert EncodeRune(c) == [s[0], s[1]];
  }

  lemma ThreeDecoded(s: bytes) returns (c: nat)
    requires RuneAt(s) && Need(s[0]) == 3
    ensures Scalar(c) && EncodeRune(c) == s[..3]
  {
    var a: int, b: int, d: int := s[0], s[1], s[2];
    c := 64 * (64 * (a - 0xE0) + (b - 0x80)) + (d - 0x80);
    ThreeBytes(a - 0xE0, b - 0x80, d - 0x80);
    assert EncodeRune(c) == [s[0], s[1], s[2]];
  }

  lemma FourDecoded(s: bytes) returns (c: nat)
    requires RuneAt(s) && Need(s[0]) == 4
    ensures Scalar(c) && EncodeRune(c) == s[..4]
  {
    var a: int, b: int, d: int, e: int := s[0], s[1], s[2], s[3];
    c := 64 * (64 * (64 * (a - 0xF0) + (b - 0x80)) + (d - 0x80)) + (e - 0x80);
    FourBytes(a - 0xF0, b - 0x80, d - 0x80, e - 0x80);
    assert EncodeRune(c) == [s[0], s[1], s[2], s[3]];
  }

  /** A rune is decoded exactly where the encoding of some code point stands, and all of it. */
  lemma RuneAtIff(s: bytes)
    ensures RuneAt(s) <==> exists c: nat :: Scalar(c) && EncodeRune(c) <= s
    ensures forall c: nat :: Scalar(c) && EncodeRune(c) <= s ==> DecodeWidth(s) == |EncodeRune(c)|
  {
    if RuneAt(s) {
      var c := RuneIsEncoded(s);
      assert Scalar(c) && EncodeRune(c) <= s;
    }
    forall c: nat | Scalar(c) && EncodeRune(c) <= s
      ensures RuneAt(s) && DecodeWidth(s) == |EncodeRune(c)|
    {
      EncodedIsRune(c, s[|EncodeRune(c)|..]);
      assert s == EncodeRune(c) + s[|EncodeRune(c)|..];
    }
  }

  // ---------- Cutting and joining valid strings ----------

  lemma RuneAtExtends(a: bytes, b: bytes)
    requires RuneAt(a)
    ensures RuneAt(a + b) && Need((a + b)[0]) == Need(a[0])
    ensures (a + b)[Need(a[0])..] == a[Need(a[0])..] + b
  {
  }

  lemma {:induction false} ValidConcat(a: bytes, b: bytes)
    requires Valid(a)
    ensures Valid(a + b) <==> Valid(b)
    decreases |a|
  {
    if a == [] {
      assert a + b == b;
    } else {
      RuneAtExtends(a, b);
      ValidConcat(a[Need(a[0])..], b);
    }
  }

  lemma RuneThenValid(r: bytes, t: bytes)
    requires RuneAt(r) && |r| == Need(r[0]) && Valid(t)
    ensures Valid(r + t)
  {
  }

  /** A position of `s` where a cut never splits a rune of valid text. */
  predicate Boundary(s: bytes, k: int) {
    0 <= k <= |s| && (k == 0 || k == |s| || RuneStart(s[k]))
  }

  /** Every boundary splits a valid string into two valid strings. */
  lemma ValidSplit(s: bytes, k: nat)
    requires Valid(s) && Boundary(s, k)
    ensures Valid(s[..k]) && Valid(s[k..])
  {
    ValidPrefix(s, k);
    TakeDrop(s, k);
    ValidConcat(s[..k], s[k..]);
  }

  lemma {:induction false} ValidPrefix(s: bytes, k: nat)
    requires Valid(s) && Boundary(s, k)
    ensures Valid(s[..k])
    decreases |s|
  {
    if k > 0 {
      var r, t := s[..Need(s[0])], s[Need(s[0])..];
      FirstRuneUncut(s, k);
      ValidPrefix(t, k - |r|);
      TakeDrop(s, |r|);
      PrefixBehindRune(r, t, k - |r|);
    }
  }

  lemma PrefixBehindRune(r: bytes, t: bytes, j: nat)
    requires RuneAt(r) && |r| == Need(r[0]) && j <= |t| && Valid(t[..j])
    ensures Valid((r + t)[..|r| + j])
  {
    RuneThenValid(r, t[..j]);
    assert (r + t)[..|r| + j] == r + t[..j];
  }

  lemma FirstRuneUncut(s: bytes, k: nat)
    requires RuneAt(s) && Boundary(s, k) && 0 < k
    ensures k >= Need(s[0])
    ensures Boundary(s[Need(s[0])..], k - Need(s[0]))
  {
  }

  /** Conversely a valid prefix of a valid string ends at a boundary. */
  lemma {:induction false} ValidPrefixIsBoundary(s: bytes, k: nat)
    requires Valid(s) && k <= |s| && Valid(s[..k])
    ensures Boundary(s, k)
    decreases |s|
  {
    if 0 < k < |s| {
      var w := Need(s[0]);
      assert s[..k][0] == s[0];
      assert w <= k;
      assert s[..k][w..] == s[w..][..k - w];
      ValidPrefixIsBoundary(s[w..], k - w);
    }
  }

  /** A byte below 0x80 always stands alone, so both its sides are boundaries. */
  lemma AsciiBoundary(s: bytes, k: nat)
    requires Valid(s) && k < |s| && s[k] < 0x80
    ensures Boundary(s, k) && Boundary(s, k + 1)
    ensures Valid(s[..k]) && Valid(s[k + 1..]) && Valid(s[..k + 1])
  {
    ValidSplit(s, k);
    var t := s[k..];
    assert Valid(t[Need(t[0])..]) && t[1..] == s[k + 1..];
    assert s[..k + 1] == s[..k] + [s[k]];
    assert Valid([s[k]]) by {
      assert RuneAt([s[k]]) && [s[k]][1..] == [];
    }
    ValidConcat(s[..k], [s[k]]);
    ValidPrefixIsBoundary(s, k + 1);
  }

  // ---------- Where rune starts fall in valid text ----------

  /** In valid text any four consecutive positions (the end included) hold a boundary. */
  lemma {:induction false} BoundaryNear(s: bytes, limit: nat) returns (k: nat)
    requires Valid(s) && limit <= |s|
    ensures Boundary(s, k) && k <= limit < k + 4
    decreases |s|
  {
    if limit == 0 || limit == |s| {
      k := limit;
    } else if limit < Need(s[0]) {
      k := 0;
    } else {
      var w := Need(s[0]);
      var j := BoundaryNear(s[w..], limit - w);
      k := j + w;
      if j == 0 && k < |s| {
        assert RuneAt(s[w..]);
      }
    }
  }
}

/** Go's strings.TrimSpace over byte strings, and the "ink" of a text: what is left of it once
    every whitespace rune is removed. */
module Whitespace {
  import opened Utf8

  // The runes unicode.IsSpace accepts, by the length of their encoding.

  predicate Space1(a: byte) {
    9 <= a <= 13 || a == 32
  }

  predicate Space2(a: byte, b: byte) {
    a == 0xC2 && (b == 0x85 || b == 0xA0)
  }

  predicate Space3(a: byte, b: byte, c: byte) {
    || (a == 0xE1 && b == 0x9A && c == 0x80)
    || (a == 0xE2 && b == 0x80 && (0x80 <= c <= 0x8A || c == 0xA8 || c == 0xA9 || c == 0xAF))
    || (a == 0xE2 && b == 0x81 && c == 0x9F)
    || (a == 0xE3 && b == 0x80 && c == 0x80)
  }

  /** `w` is exactly one whitespace rune. */
  predicate IsSpaceRune(w: bytes) {
    || (|w| == 1 && Space1(w[0]))
    || (|w| == 2 && Space2(w[0], w[1]))
    || (|w| == 3 && Space3(w[0], w[1], w[2]))
  }

  /** Width of the whitespace rune `s` starts with, or 0. */
  function LeadSpace(s: bytes): (n: nat)
    ensures n <= |s|
    ensures n > 0 ==> RuneAt(s) && Need(s[0]) == n
  {
    if |s| >= 1 && Space1(s[0]) then 1
    else if |s| >= 2 && Space2(s[0], s[1]) then 2
    else if |s| >= 3 && Space3(s[0], s[1], s[2]) then 3
    else 0
  }

  /** Width of the whitespace rune `s` ends with, or 0. */
  function TailSpace(s: bytes): (n: nat)
    ensures n <= |s|
  {
    var e := |s|;
    if e >= 1 && Space1(s[e - 1]) then 1
    else if e >= 2 && Space2(s[e - 2], s[e - 1]) then 2
    else if e >= 3 && Space3(s[e - 3], s[e - 2], s[e - 1]) then 3
    else 0
  }

  /** strings.TrimSpace: leading whitespace goes first, then trailing. */
  function TrimSpace(s: bytes): (r: bytes)
    ensures |r| <= |s|
    decreases |s|
  {
    if LeadSpace(s) > 0 then TrimSpace(s[LeadSpace(s)..])
    else if TailSpace(s) > 0 then TrimSpace(s[..|s| - TailSpace(s)])
    else s
  }

  /** The text without its whitespace runes. */
  function Ink(s: bytes): bytes
    decreases |s|
  {
    if s == [] then []
    else if LeadSpace(s) > 0 then Ink(s[LeadSpace(s)..])
    else s[..DecodeWidth(s)] + Ink(s[DecodeWidth(s)..])
  }

  lemma {:induction false} InkConcat(a: bytes, b: bytes)
    requires Valid(a)
    ensures Ink(a + b) == Ink(a) + Ink(b)
    decreases |a|
  {
    if a == [] {
      assert a + b == b;
    } else {
      var w := Need(a[0]);
      RuneAtExtends(a, b);
      assert (a + b)[..w] == a[..w];
      InkConcat(a[w..], b);
    }
  }

  lemma InkOfSpace(w: bytes)
    requires IsSpaceRune(w)
    ensures Valid(w) && Ink(w) == []
  {
  }

  // ---------- Trimming keeps the ink ----------

  lemma LeadingSpaceRune(w: bytes, t: bytes)
    requires IsSpaceRune(w)
    ensures LeadSpace(w + t) == |w|
  {
  }

  lemma LeadSpaceExtends(u: bytes, w: bytes)
    requires LeadSpace(u) > 0
    ensures LeadSpace(u + w) > 0
  {
  }

  /** What the trailing whitespace rune stands behind: never nothing, once the front is trimmed. */
  lemma SplitTail(s: bytes) returns (u: bytes, w: bytes)
    requires TailSpace(s) > 0
    ensures s == u + w && IsSpaceRune(w) && |w| == TailSpace(s) && u == s[..|s| - TailSpace(s)]
    ensures LeadSpace(s) == 0 ==> u != [] && LeadSpace(u) == 0
  {
    u, w := s[..|s| - TailSpace(s)], s[|s| - TailSpace(s)..];
    if u == [] {
      LeadingSpaceRune(w, []);
      assert w + [] == s;
    } else if LeadSpace(u) > 0 {
      LeadSpaceExtends(u, w);
    }
  }

  /** Trimming a valid text leaves valid text with the same ink. */
  lemma {:induction false} TrimKeepsInk(s: bytes)
    requires Valid(s)
    ensures Valid(TrimSpace(s)) && Ink(TrimSpace(s)) == Ink(s)
    decreases |s|
  {
    if LeadSpace(s) > 0 {
      TrimKeepsInk(s[LeadSpace(s)..]);
    } else if TailSpace(s) > 0 {
      var u, w := SplitTail(s);
      ValidSplit(s, |u|);
      InkConcat(u, w);
      InkOfSpace(w);
      TrimKeepsInk(u);
    }
  }

  /** A text, malformed or not, trims to nothing exactly when it has no ink. */
  lemma {:induction false} TrimEmptyIffNoInk(s: bytes)
    ensures TrimSpace(s) == [] <==> Ink(s) == []
    decreases |s|
  {
    if LeadSpace(s) > 0 {
      TrimEmptyIffNoInk(s[LeadSpace(s)..]);
    } else if TailSpace(s) > 0 {
      var u, w := SplitTail(s);
      TrimEmptyIffNoInk(u);
    }
  }

  /** Text without outer whitespace is left alone, so trimming twice is trimming once. */
  lemma {:induction false} TrimIdempotent(s: bytes)
    ensures TrimSpace(TrimSpace(s)) == TrimSpace(s)
    decreases |s|
  {
    if LeadSpace(s) > 0 {
      TrimIdempotent(s[LeadSpace(s)..]);
    } else if TailSpace(s) > 0 {
      TrimIdempotent(s[..|s| - TailSpace(s)]);
    }
  }

  // ---------- The same by code points ----------

  /** The code points unicode.IsSpace accepts. */
  predicate IsSpaceCode(c: nat) {
    || 9 <= c <= 13 || c == 32 || c == 0x85 || c == 0xA0 || c == 0x1680 || 0x2000 <= c <= 0x200A
    || c == 0x2028 || c == 0x2029 || c == 0x202F || c == 0x205F || c == 0x3000
  }

  predicate EndsWith(s: bytes, w: bytes) {
    |w| <= |s| && s[|s| - |w|..] == w
  }

  lemma SpaceRuneIff(c: nat)
    requires Scalar(c)
    ensures IsSpaceRune(EncodeRune(c)) <==> IsSpaceCode(c)
  {
  }

  lemma LeadSpaceMeans(s: bytes)
    requires LeadSpace(s) > 0
    ensures exists c: nat :: IsSpaceCode(c) && EncodeRune(c) == s[..LeadSpace(s)]
  {
    var c := RuneIsEncoded(s);
    assert IsSpaceRune(s[..LeadSpace(s)]);
    SpaceRuneIff(c);
    assert IsSpaceCode(c) && EncodeRune(c) == s[..LeadSpace(s)];
  }

  lemma TailSpaceMeans(s: bytes)
    requires TailSpace(s) > 0
    ensures exists c: nat :: IsSpaceCode(c) && EncodeRune(c) == s[|s| - TailSpace(s)..]
  {
    var u, w := SplitTail(s);
    LeadingSpaceRune(w, []);
    assert w + [] == w;
    LeadSpaceMeans(w);
    assert w[..|w|] == w;
  }

  /** A text starts with the encoding of a whitespace code point exactly when the byte tests find one
      there, and they find all of it. */
  lemma LeadSpaceIff(s: bytes)
    ensures LeadSpace(s) > 0 <==> exists c: nat :: IsSpaceCode(c) && EncodeRune(c) <= s
    ensures forall c: nat :: IsSpaceCode(c) && EncodeRune(c) <= s ==> LeadSpace(s) == |EncodeRune(c)|
  {
    if LeadSpace(s) > 0 {
      LeadSpaceMeans(s);
    }
    forall c: nat | IsSpaceCode(c) && EncodeRune(c) <= s
      ensures LeadSpace(s) == |EncodeRune(c)| > 0
    {
      SpaceRuneIff(c);
      LeadingSpaceRune(EncodeRune(c), s[|EncodeRune(c)|..]);
      assert s == EncodeRune(c) + s[|EncodeRune(c)|..];
    }
  }

  /** The same at its end. */
  lemma TailSpaceIff(s: bytes)
    ensures TailSpace(s) > 0 <==> exists c: nat :: IsSpaceCode(c) && EndsWith(s, EncodeRune(c))
    ensures forall c: nat :: IsSpaceCode(c) && EndsWith(s, EncodeRune(c)) ==> TailSpace(s) == |EncodeRune(c)|
  {
    if TailSpace(s) > 0 {
      TailSpaceMeans(s);
    }
    forall c: nat | IsSpaceCode(c) && EndsWith(s, EncodeRune(c))
      ensures TailSpace(s) == |EncodeRune(c)| > 0
    {
      SpaceRuneIff(c);
      TrailingSpaceRune(s[..|s| - |EncodeRune(c)|], EncodeRune(c));
      assert s == s[..|s| - |EncodeRune(c)|] + EncodeRune(c);
    }
  }

  lemma TrailingSpaceRune(t: bytes, w: bytes)
    requires IsSpaceRune(w)
    ensures TailSpace(t + w) == |w|
  {
  }

  /** Nothing but whitespace runes. */
  predicate Blank(s: bytes)
    decreases |s|
  {
    s == [] || (LeadSpace(s) > 0 && Blank(s[LeadSpace(s)..]))
  }

  lemma {:induction false} BlankBehind(s: bytes, w: bytes)
    requires Blank(s) && IsSpaceRune(w)
    ensures Blank(s + w)
    decreases |s|
  {
    if s == [] {
      LeadingSpaceRune(w, []);
      assert s + w == w && w + [] == w;
    } else {
      var n := LeadSpace(s);
      RuneAtExtends(s, w);
      assert LeadSpace(s + w) == n;
      assert (s + w)[n..] == s[n..] + w;
      BlankBehind(s[n..], w);
    }
  }

  /** `r` is `s` between two stretches of whitespace. */
  ghost predicate Between(s: bytes, r: bytes, a: nat, b: nat) {
    a <= b <= |s| && r == s[a..b] && Blank(s[..a]) && Blank(s[b..])
  }

  lemma BetweenFront(s: bytes, r: bytes, a: nat, b: nat)
    requires LeadSpace(s) > 0 && Between(s[LeadSpace(s)..], r, a, b)
    ensures Between(s, r, LeadSpace(s) + a, LeadSpace(s) + b)
  {
    var n := LeadSpace(s);
    var front := s[..n + a];
    assert s[n..][a..b] == s[n + a..n + b] && s[n..][b..] == s[n + b..];
    assert front[n..] == s[n..][..a];
    assert front == s[..n] + s[n..][..a];
    assert LeadSpace(front) == n;
  }

  lemma BetweenBack(s: bytes, r: bytes, a: nat, b: nat)
    requires TailSpace(s) > 0 && Between(s[..|s| - TailSpace(s)], r, a, b)
    ensures Between(s, r, a, b)
  {
    var u, w := SplitTail(s);
    assert u[a..b] == s[a..b] && u[..a] == s[..a] && s[b..] == u[b..] + w;
    BlankBehind(u[b..], w);
  }

  /** TrimSpace gives the stretch between the outer whitespace, which neither starts nor ends with any. */
  lemma {:induction false} TrimSpaceMeans(s: bytes) returns (a: nat, b: nat)
    ensures Between(s, TrimSpace(s), a, b)
    ensures LeadSpace(TrimSpace(s)) == 0 && TailSpace(TrimSpace(s)) == 0
    decreases |s|
  {
    if LeadSpace(s) > 0 {
      var n := LeadSpace(s);
      a, b := TrimSpaceMeans(s[n..]);
      BetweenFront(s, TrimSpace(s), a, b);
      a, b := n + a, n + b;
    } else if TailSpace(s) > 0 {
      a, b := TrimSpaceMeans(s[..|s| - TailSpace(s)]);
      BetweenBack(s, TrimSpace(s), a, b);
    } else {
      a, b := 0, |s|;
      assert s[0..|s|] == s;
    }
  }

  // ---------- Joining with one blank ----------

  /** strings.Join(parts, " "). */
  function Join(parts: seq<bytes>): bytes {
    if |parts| == 0 then [] else if |parts| == 1 then parts[0] else parts[0] + [32] + Join(parts[1..])
  }

  /** Bytes in front of part `i`, its separator included. */
  function Offset(parts: seq<bytes>, i: nat): nat
    requires i <= |parts|
  {
    if i == 0 then 0 else Offset(parts, i - 1) + |parts[i - 1]| + 1
  }

  lemma {:induction false} OffsetShift(parts: seq<bytes>, i: nat)
    requires 0 < i <= |parts|
    ensures Offset(parts, i) == |parts[0]| + 1 + Offset(parts[1..], i - 1)
  {
    if i > 1 {
      OffsetShift(parts, i - 1);
    }
  }

  /** Every part stands behind those before it, and exactly one blank in front of all but the first. */
  lemma {:induction false} JoinAt(parts: seq<bytes>, i: nat)
    requires i < |parts|
    ensures |Join(parts)| + 1 == Offset(parts, |parts|) && Offset(parts, i) + |parts[i]| <= |Join(parts)|
    ensures Join(parts)[Offset(parts, i)..Offset(parts, i) + |parts[i]|] == parts[i]
    ensures i > 0 ==> Join(parts)[Offset(parts, i) - 1] == 32
  {
    if |parts| > 1 {
      var rest := Join(parts[1..]);
      var j := if i == 0 then 0 else i - 1;
      JoinAt(parts[1..], j);
      OffsetShift(parts, |parts|);
      assert Join(parts) == parts[0] + [32] + rest;
      if i > 0 {
        OffsetShift(parts, i);
        var o := Offset(parts[1..], j);
        assert Offset(parts, i) == |parts[0]| + 1 + o && parts[1..][j] == parts[i];
        JoinSlice(parts[0], rest, o, o + |parts[i]|);
        if j > 0 {
          assert Join(parts)[|parts[0]| + 1 + (o - 1)] == rest[o - 1];
        }
      } else {
        assert Join(parts)[..|parts[0]|] == parts[0];
      }
    }
  }

  lemma JoinSlice(a: bytes, rest: bytes, x: nat, y: nat)
    requires x <= y <= |rest|
    ensures (a + [32] + rest)[|a| + 1 + x..|a| + 1 + y] == rest[x..y]
  {
  }

  function InkAll(parts: seq<bytes>): bytes {
    if parts == [] then [] else Ink(parts[0]) + InkAll(parts[1..])
  }

  ghost predicate AllValid(parts: seq<bytes>) {
    forall i :: 0 <= i < |parts| ==> Valid(parts[i])
  }

  lemma {:induction false} InkAllConcat(a: seq<bytes>, b: seq<bytes>)
    ensures InkAll(a + b) == InkAll(a) + InkAll(b)
  {
    if a == [] {
      assert a + b == b;
    } else {
      assert (a + b)[1..] == a[1..] + b;
      InkAllConcat(a[1..], b);
    }
  }

  lemma BlankValid()
    ensures Valid([32]) && Ink([32]) == []
  {
  }

  lemma BlankFront(body: bytes)
    requires Valid(body)
    ensures Valid([32] + body) && Ink([32] + body) == Ink(body)
  {
  }

  lemma AddBlank(a: bytes, b: bytes)
    requires Valid(a) && Valid(b)
    ensures Valid(a + [32] + b) && Ink(a + [32] + b) == Ink(a) + Ink(b)
  {
    BlankFront(b);
    ValidConcat(a, [32] + b);
    InkConcat(a, [32] + b);
    assert a + [32] + b == a + ([32] + b);
  }

  lemma {:induction false} InkOfJoin(parts: seq<bytes>)
    requires AllValid(parts)
    ensures Valid(Join(parts)) && Ink(Join(parts)) == InkAll(parts)
  {
    if |parts| == 1 {
      assert InkAll(parts[1..]) == [];
    } else if |parts| > 1 {
      InkOfJoin(parts[1..]);
      AddBlank(parts[0], Join(parts[1..]));
    }
  }

  lemma {:induction false} InkOfFlatten(parts: seq<bytes>)
    requires AllValid(parts)
    ensures Valid(Flatten(parts)) && Ink(Flatten(parts)) == InkAll(parts)
  {
    if parts != [] {
      InkOfFlatten(parts[1..]);
      ValidConcat(parts[0], Flatten(parts[1..]));
      InkConcat(parts[0], Flatten(parts[1..]));
    }
  }
}

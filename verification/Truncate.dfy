/** internal/util/util.go: truncation of text to a byte limit without splitting a rune. */
module Truncate {
  import opened Utf8

  /** The longest prefix of `s` of at most `limit` bytes that ends at a boundary. */
  function Truncated(s: bytes, limit: int): bytes {
    if limit <= 0 then [] else if |s| <= limit then s else s[..CutAt(s, limit)]
  }

  function CutAt(s: bytes, cut: nat): (k: nat)
    requires cut < |s|
    ensures k <= cut
  {
    if cut == 0 || RuneStart(s[cut]) then cut else CutAt(s, cut - 1)
  }

  method TruncateRunes(s: bytes, limit: int) returns (r: bytes)
    ensures r == Truncated(s, limit)
  {
    if limit <= 0 {
      return [];
    }
    if |s| <= limit {
      return s;
    }
    var cut: nat := limit;
    while cut > 0 && !RuneStart(s[cut])
      invariant cut <= limit && CutAt(s, cut) == CutAt(s, limit)
    {
      cut := cut - 1;
    }
    return s[..cut];
  }

  lemma {:induction false} CutAtIsLastBoundary(s: bytes, cut: nat)
    requires cut < |s|
    ensures Boundary(s, CutAt(s, cut))
    ensures forall k :: Boundary(s, k) && k <= cut ==> k <= CutAt(s, cut)
    decreases cut
  {
    if cut != 0 && !RuneStart(s[cut]) {
      CutAtIsLastBoundary(s, cut - 1);
    }
  }

  /** Truncation is characterised by: a prefix, ending at a boundary, within the limit, and no
      boundary within the limit lies further right. */
  ghost predicate LongestWithin(s: bytes, limit: int, r: bytes) {
    && r <= s && Boundary(s, |r|)
    && |r| <= (if limit <= 0 then 0 else limit)
    && forall k :: Boundary(s, k) && k <= limit ==> k <= |r|
  }

  lemma TruncatedIffLongest(s: bytes, limit: int, r: bytes)
    ensures r == Truncated(s, limit) <==> LongestWithin(s, limit, r)
  {
    var t := Truncated(s, limit);
    if 0 < limit < |s| {
      CutAtIsLastBoundary(s, limit);
    }
    assert LongestWithin(s, limit, t);
    if LongestWithin(s, limit, r) {
      if |r| <= limit {
        assert |r| <= |t|;
      }
      assert |t| <= limit ==> |t| <= |r|;
      assert |r| == |t|;
      assert r == s[..|r|] && t == s[..|t|];
    }
  }

  /** Truncating twice is truncating once to the smaller limit, for every byte string. */
  lemma NestedTruncation(s: bytes, a: int, b: int)
    ensures Truncated(Truncated(s, a), b) == Truncated(s, if a < b then a else b)
  {
    var t := Truncated(s, a);
    var u := Truncated(t, b);
    var m := if a < b then a else b;
    TruncatedIffLongest(s, a, t);
    TruncatedIffLongest(t, b, u);
    assert u <= s;
    forall k | Boundary(s, k) && k <= m
      ensures k <= |u|
    {
      assert k <= |t|;
      assert Boundary(t, k);
    }
    TruncatedIffLongest(s, m, u);
  }

  /** On valid text the result is valid, and a cut costs at most three bytes of the limit. */
  lemma TruncatedValid(s: bytes, limit: int)
    requires Valid(s)
    ensures Valid(Truncated(s, limit))
    ensures 0 < limit < |s| ==> limit - 3 <= |Truncated(s, limit)| <= limit
  {
    var t := Truncated(s, limit);
    TruncatedIffLongest(s, limit, t);
    ValidSplit(s, |t|);
    assert t == s[..|t|];
    if 0 < limit < |s| {
      var k := BoundaryNear(s, limit);
    }
  }

  /** The bytes a truncation drops form valid text too, so nothing is torn. */
  lemma TruncatedRest(s: bytes, limit: int)
    requires Valid(s)
    ensures var t := Truncated(s, limit); t <= s && Valid(t) && Valid(s[|t|..])
  {
    var t := Truncated(s, limit);
    TruncatedIffLongest(s, limit, t);
    ValidSplit(s, |t|);
    assert t == s[..|t|];
  }
}

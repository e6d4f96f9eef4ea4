/** internal/htmlx/chunk.go, hardSplitSentence: fixed-size pieces of one over-long sentence. */
module HardSplit {
  import opened Seqs
  import opened Utf8
  import opened Whitespace
  import opened Truncate

  const MAX_CHUNK: nat := 6000

  datatype Chunk = Chunk(heading: bytes, text: bytes, prefix: bytes)

  /** A chunk carries its prefix, one blank, and a body. */
  function Carry(heading: bytes, prefix: bytes, body: bytes): Chunk {
    Chunk(heading, prefix + [32] + body, prefix)
  }

  function CarryAll(heading: bytes, prefix: bytes, bodies: seq<bytes>): seq<Chunk> {
    if bodies == [] then [] else [Carry(heading, prefix, bodies[0])] + CarryAll(heading, prefix, bodies[1..])
  }

  lemma {:induction false} CarryAllConcat(heading: bytes, prefix: bytes, a: seq<bytes>, b: seq<bytes>)
    ensures CarryAll(heading, prefix, a + b) == CarryAll(heading, prefix, a) + CarryAll(heading, prefix, b)
  {
    if a == [] {
      assert a + b == b;
    } else {
      assert (a + b)[1..] == a[1..] + b;
      CarryAllConcat(heading, prefix, a[1..], b);
    }
  }

  lemma {:induction false} CarryAllAt(heading: bytes, prefix: bytes, bodies: seq<bytes>, i: nat)
    requires i < |bodies|
    ensures |CarryAll(heading, prefix, bodies)| == |bodies|
    ensures CarryAll(heading, prefix, bodies)[i] == Carry(heading, prefix, bodies[i])
  {
    if |bodies| > 1 {
      CarryAllAt(heading, prefix, bodies[1..], if i == 0 then 0 else i - 1);
    }
  }

  /** The chunks stand under the heading, and their texts are the prefix, one blank and a body each. */
  ghost predicate Carries(cs: seq<Chunk>, heading: bytes, prefix: bytes, bodies: seq<bytes>) {
    && |cs| == |bodies|
    && forall i :: 0 <= i < |cs| ==>
         cs[i].heading == heading && cs[i].prefix == prefix && cs[i].text == prefix + [' ' as int] + bodies[i]
  }

  lemma AllCarried(heading: bytes, prefix: bytes, bodies: seq<bytes>)
    ensures Carries(CarryAll(heading, prefix, bodies), heading, prefix, bodies)
  {
    if bodies != [] {
      CarryAllAt(heading, prefix, bodies, 0);
    }
    forall i | 0 <= i < |bodies|
      ensures CarryAll(heading, prefix, bodies)[i] == Carry(heading, prefix, bodies[i])
    {
      CarryAllAt(heading, prefix, bodies, i);
    }
  }

  /** Bytes left for a body, at least one even under an over-long prefix. */
  function Budget(prefix: bytes): (b: nat)
    ensures b >= 1
  {
    if |prefix| + 1 < MAX_CHUNK then MAX_CHUNK - |prefix| - 1 else 1
  }

  /** The bodies of the pieces of `s` under a budget of `b` bytes. */
  function HardBodies(s: bytes, b: nat): seq<bytes>
    requires b >= 1
    decreases |s|
  {
    if s == [] then [] else
    var cut := Truncated(s, if b < |s| then b else |s|);
    if cut == [] then HardBodies(s[DecodeWidth(s)..], b)
    else [cut] + HardBodies(s[|cut|..], b)
  }

  /** The pieces cut so far, then those the rest of the sentence will give. */
  function HardProgress(heading: bytes, prefix: bytes, sub: seq<Chunk>, s: bytes): seq<Chunk> {
    sub + CarryAll(heading, prefix, HardBodies(s, Budget(prefix)))
  }

  lemma HardStep(heading: bytes, prefix: bytes, sub: seq<Chunk>, s: bytes, cut: bytes)
    requires s != [] && cut == Truncated(s, if Budget(prefix) < |s| then Budget(prefix) else |s|)
    requires cut != [] && |cut| <= |s|
    ensures HardProgress(heading, prefix, sub, s)
         == HardProgress(heading, prefix, sub + [Carry(heading, prefix, cut)], s[|cut|..])
  {
  }

  lemma HardSkip(heading: bytes, prefix: bytes, sub: seq<Chunk>, s: bytes)
    requires s != [] && Truncated(s, if Budget(prefix) < |s| then Budget(prefix) else |s|) == []
    ensures HardProgress(heading, prefix, sub, s) == HardProgress(heading, prefix, sub, s[DecodeWidth(s)..])
  {
  }

  lemma TruncatedLength(s: bytes, limit: int)
    ensures |Truncated(s, limit)| <= |s|
  {
  }

  /** Terminates for every byte string and every prefix. */
  method HardSplitSentence(heading: bytes, prefix: bytes, sentence: bytes) returns (sub: seq<Chunk>)
    ensures sub == CarryAll(heading, prefix, HardBodies(sentence, Budget(prefix)))
    ensures Carries(sub, heading, prefix, HardBodies(sentence, Budget(prefix)))
  {
    AllCarried(heading, prefix, HardBodies(sentence, Budget(prefix)));
    var prefixOverhead := |prefix| + 1;
    var s := sentence;
    sub := [];
    ghost var all := CarryAll(heading, prefix, HardBodies(sentence, Budget(prefix)));
    NilUnits(all);
    while s != []
      invariant all == HardProgress(heading, prefix, sub, s)
      decreases |s|
    {
      var end: int := if MAX_CHUNK - prefixOverhead < |s| then MAX_CHUNK - prefixOverhead else |s|;
      if end <= 0 {
        end := 1;
      }
      var cut := TruncateRunes(s, end);
      TruncatedLength(s, end);
      if cut == [] {
        var size := DecodeWidth(s);
        HardSkip(heading, prefix, sub, s);
        s := s[size..];
      } else {
        HardStep(heading, prefix, sub, s, cut);
        sub := sub + [Chunk(heading, prefix + [32] + cut, prefix)];
        s := s[|cut|..];
      }
    }
    NilUnits(sub);
  }

  /** `s` without the runes that are wider than `b` bytes. */
  function Keep(s: bytes, b: nat): bytes
    requires Valid(s)
  {
    if s == [] then [] else
    (if Need(s[0]) <= b then s[..Need(s[0])] else []) + Keep(s[Need(s[0])..], b)
  }

  ghost predicate AllNarrow(s: bytes, b: nat)
    requires Valid(s)
  {
    s == [] || (Need(s[0]) <= b && AllNarrow(s[Need(s[0])..], b))
  }

  lemma KeepStep(r: bytes, t: bytes, b: nat)
    requires RuneAt(r) && |r| == Need(r[0]) && Valid(t)
    ensures Valid(r + t) && Keep(r + t, b) == (if |r| <= b then r else []) + Keep(t, b)
  {
  }

  lemma {:induction false} KeepConcat(x: bytes, t: bytes, b: nat)
    requires Valid(x) && Valid(t) && |x| <= b
    ensures Valid(x + t) && Keep(x + t, b) == x + Keep(t, b)
    decreases |x|
  {
    ValidConcat(x, t);
    if x == [] {
      assert x + t == t;
    } else {
      var r, y := x[..Need(x[0])], x[Need(x[0])..];
      assert x == r + y;
      calc {
        Keep(x + t, b);
        { Associative(r, y, t); }
        Keep(r + (y + t), b);
        { KeepConcat(y, t, b); KeepStep(r, y + t, b); }
        r + (y + Keep(t, b));
        { Associative(r, y, Keep(t, b)); }
        x + Keep(t, b);
      }
    }
  }

  /** When nothing fits, the first rune alone is wider than the budget. */
  lemma NothingFits(s: bytes, b: nat)
    requires Valid(s) && s != [] && b >= 1
    requires Truncated(s, if b < |s| then b else |s|) == []
    ensures Need(s[0]) > b
  {
    if Need(s[0]) <= b {
      var end := if b < |s| then b else |s|;
      TruncatedIffLongest(s, end, []);
      assert Boundary(s, Need(s[0])) by {
        assert Valid(s[Need(s[0])..]);
      }
    }
  }

  lemma CutAway(s: bytes, b: nat, cut: bytes)
    requires Valid(s) && b >= 1 && cut == Truncated(s, if b < |s| then b else |s|)
    ensures |cut| <= |s| && Valid(cut) && Valid(s[|cut|..]) && Keep(s, b) == cut + Keep(s[|cut|..], b)
  {
    var end := if b < |s| then b else |s|;
    TruncatedIffLongest(s, end, cut);
    TruncatedRest(s, end);
    TakeDrop(s, |cut|);
    KeepConcat(cut, s[|cut|..], b);
  }

  /** Every hard-split piece of a valid sentence is non-empty valid text within the budget, and
      joined up the pieces are the sentence minus exactly the runes wider than the budget. */
  lemma {:induction false} HardBodiesKeep(s: bytes, b: nat)
    requires Valid(s) && b >= 1
    ensures Flatten(HardBodies(s, b)) == Keep(s, b)
    ensures AllValid(HardBodies(s, b))
    decreases |s|
  {
    if s != [] {
      var end := if b < |s| then b else |s|;
      var cut := Truncated(s, end);
      if cut == [] {
        NothingFits(s, b);
        HardBodiesKeep(s[Need(s[0])..], b);
      } else {
        CutAway(s, b, cut);
        HardBodiesKeep(s[|cut|..], b);
        FlattenCons(cut, HardBodies(s[|cut|..], b));
      }
    }
  }

  /** Budget of every piece, valid text or not. */
  lemma {:induction false} HardBodiesFit(s: bytes, b: nat)
    requires b >= 1
    ensures forall i :: 0 <= i < |HardBodies(s, b)| ==> 1 <= |HardBodies(s, b)[i]| <= b
    decreases |s|
  {
    if s != [] {
      var end := if b < |s| then b else |s|;
      var cut := Truncated(s, end);
      if cut == [] {
        HardBodiesFit(s[DecodeWidth(s)..], b);
      } else {
        TruncatedIffLongest(s, end, cut);
        HardBodiesFit(s[|cut|..], b);
      }
    }
  }

  /** The pieces joined up, from the i-th on. */
  function From(pieces: seq<bytes>, i: nat): bytes
    requires i <= |pieces|
  {
    Flatten(pieces[i..])
  }

  /** When no rune is wider than the budget, every piece is the longest prefix of what the pieces before it
      have left that ends at a rune and is within the budget. */
  lemma {:induction false} HardBodiesGreedy(s: bytes, b: nat, i: nat)
    requires Valid(s) && b >= 1 && AllNarrow(s, b) && i < |HardBodies(s, b)|
    ensures Valid(From(HardBodies(s, b), i)) && LongestWithin(From(HardBodies(s, b), i), b, HardBodies(s, b)[i])
    decreases |s|
  {
    var end := if b < |s| then b else |s|;
    var cut := Truncated(s, end);
    TruncatedIffLongest(s, end, cut);
    if cut == [] {
      NothingFits(s, b);
    }
    CutAway(s, b, cut);
    var pieces, rest := HardBodies(s, b), HardBodies(s[|cut|..], b);
    assert pieces == [cut] + rest;
    if i == 0 {
      HardBodiesKeep(s, b);
      KeepShorter(s, b);
      assert pieces[0..] == pieces;
      WholeWithin(s, b, cut);
    } else {
      NarrowRest(s, cut, b);
      HardBodiesGreedy(s[|cut|..], b, i - 1);
      assert pieces[i..] == rest[i - 1..];
    }
  }

  lemma WholeWithin(s: bytes, b: nat, cut: bytes)
    requires LongestWithin(s, if b < |s| then b else |s|, cut)
    ensures LongestWithin(s, b, cut)
  {
  }

  lemma NarrowRest(s: bytes, cut: bytes, b: nat)
    requires Valid(s) && cut <= s && Valid(cut) && Valid(s[|cut|..]) && AllNarrow(s, b)
    requires Keep(s, b) == cut + Keep(s[|cut|..], b)
    ensures AllNarrow(s[|cut|..], b)
  {
    KeepShorter(s, b);
    KeepShorter(s[|cut|..], b);
  }

  /** So with a prefix of at most 5995 bytes every piece but the last comes within three bytes of filling a
      chunk of 6000. */
  lemma PiecesAreFull(s: bytes, prefix: bytes, i: nat)
    requires Valid(s) && |prefix| <= 5995 && i + 1 < |HardBodies(s, Budget(prefix))|
    ensures 5997 <= |prefix| + 1 + |HardBodies(s, Budget(prefix))[i]| <= 6000
  {
    var b := Budget(prefix);
    NarrowBudget(s, b);
    HardBodiesFit(s, b);
    HardBodiesGreedy(s, b, i);
    MoreFollows(HardBodies(s, b), i);
    FullWithin(From(HardBodies(s, b), i), b, HardBodies(s, b)[i]);
  }

  lemma MoreFollows(pieces: seq<bytes>, i: nat)
    requires i + 1 < |pieces| && pieces[i + 1] != []
    ensures |pieces[i]| < |From(pieces, i)|
  {
    assert pieces[i..] == [pieces[i], pieces[i + 1]] + pieces[i + 2..];
    TwoPieces(pieces[i], pieces[i + 1], pieces[i + 2..]);
  }

  /** Behind a prefix of 5998 bytes and more the pieces are single bytes. */
  lemma TinyPieces(s: bytes, prefix: bytes, i: nat)
    requires |prefix| >= 5998 && i < |HardBodies(s, Budget(prefix))|
    ensures |HardBodies(s, Budget(prefix))[i]| == 1
  {
    HardBodiesFit(s, Budget(prefix));
  }

  lemma FullWithin(rest: bytes, b: nat, piece: bytes)
    requires Valid(rest) && LongestWithin(rest, b, piece) && |piece| < |rest|
    ensures b <= |piece| + 3
  {
    if |rest| <= b {
      assert Boundary(rest, |rest|);
    } else {
      var k := BoundaryNear(rest, b);
    }
  }

  lemma TwoPieces(x: bytes, y: bytes, t: seq<bytes>)
    ensures Flatten([x, y] + t) == x + (y + Flatten(t))
  {
    assert [x, y] + t == [x] + ([y] + t);
    FlattenCons(x, [y] + t);
    FlattenCons(y, t);
  }

  lemma {:induction false} KeepShorter(s: bytes, b: nat)
    requires Valid(s)
    ensures |Keep(s, b)| <= |s|
    ensures Keep(s, b) == s <==> AllNarrow(s, b)
    ensures |Keep(s, b)| == |s| <==> AllNarrow(s, b)
    decreases |s|
  {
    if s != [] {
      var w := Need(s[0]);
      KeepShorter(s[w..], b);
      assert s == s[..w] + s[w..];
    }
  }

  lemma {:induction false} NarrowBudget(s: bytes, b: nat)
    requires Valid(s) && b >= 4
    ensures AllNarrow(s, b)
    decreases |s|
  {
    if s != [] {
      NarrowBudget(s[Need(s[0])..], b);
    }
  }

  /** The pieces join up to the whole sentence if and only if no rune of it is wider than the
      budget, which every prefix of at most 5995 bytes guarantees. */
  lemma LosslessIff(s: bytes, prefix: bytes)
    requires Valid(s)
    ensures Flatten(HardBodies(s, Budget(prefix))) == s <==> AllNarrow(s, Budget(prefix))
    ensures |prefix| <= MAX_CHUNK - 5 ==> Flatten(HardBodies(s, Budget(prefix))) == s
  {
    HardBodiesKeep(s, Budget(prefix));
    KeepShorter(s, Budget(prefix));
    if |prefix| <= MAX_CHUNK - 5 {
      NarrowBudget(s, Budget(prefix));
    }
  }

  /** A rune can be dropped well before the one-byte fallback budget: an em dash next to a prefix
      of 5997 bytes, which leaves two. */
  lemma DropsUnderTwoByteBudget(prefix: bytes)
    requires |prefix| == 5997
    ensures Budget(prefix) == 2
    ensures Valid([0xE2, 0x80, 0x94]) && HardBodies([0xE2, 0x80, 0x94], Budget(prefix)) == []
  {
  }
}

/** What SplitLongChunks promises: chunks under the cap, and no visible text lost. */
module Conservation {
  import opened Seqs
  import opened Utf8
  import opened Whitespace
  import opened Sentences
  import opened HardSplit
  import opened SplitLong

  // ---------- The cap ----------

  /** Bodies are never empty, and fit behind any prefix that leaves room for one byte. */
  ghost predicate BodiesFit(prefix: bytes, bodies: seq<bytes>) {
    forall i :: 0 <= i < |bodies| ==>
      bodies[i] != [] && (|prefix| <= MAX_CHUNK - 2 ==> |prefix| + 1 + |bodies[i]| <= MAX_CHUNK)
  }

  lemma HardFits(prefix: bytes, s: bytes)
    ensures BodiesFit(prefix, HardBodies(s, Budget(prefix)))
  {
    HardBodiesFit(s, Budget(prefix));
  }

  lemma {:induction false} PackFits(prefix: bytes, ss: seq<bytes>, i: nat, cur: bytes)
    requires i <= |ss| && (|cur| > 0 ==> |prefix| + 1 + |cur| <= MAX_CHUNK)
    ensures BodiesFit(prefix, Pack(prefix, ss, i, cur))
    decreases |ss| - i
  {
    assert BodiesFit(prefix, Emit(cur));
    if i == |ss| {
    } else if Oversized(prefix, ss[i]) {
      HardFits(prefix, ss[i]);
      PackFits(prefix, ss, i + 1, []);
    } else if Overflows(prefix, cur, ss[i]) {
      PackFits(prefix, ss, i + 1, ss[i]);
    } else {
      PackFits(prefix, ss, i + 1, Extend(cur, ss[i]));
    }
  }

  ghost predicate UnderCap(cs: seq<Chunk>) {
    forall i :: 0 <= i < |cs| ==> |cs[i].text| <= MAX_CHUNK
  }

  /** Malformed text included, the sub-chunks of an oversized chunk stay under the cap if and only
      if its prefix leaves room for one body byte (or nothing comes out at all). */
  lemma SplitOneUnderCapIff(c: Chunk)
    ensures UnderCap(SplitOneOf(c)) <==> |EffectivePrefix(c)| <= MAX_CHUNK - 2 || SplitOneOf(c) == []
  {
    var p, bodies := EffectivePrefix(c), SplitBodies(c);
    PackFits(p, SentencesOf(Body(c)), 0, []);
    forall i | 0 <= i < |SplitOneOf(c)|
      ensures |SplitOneOf(c)[i].text| >= |p| + 2
      ensures |p| <= MAX_CHUNK - 2 ==> |SplitOneOf(c)[i].text| <= MAX_CHUNK
    {
      CarryLength(c.heading, p, bodies);
      CarryAllAt(c.heading, p, bodies, i);
    }
    if SplitOneOf(c) != [] && UnderCap(SplitOneOf(c)) {
      assert |SplitOneOf(c)[0].text| <= MAX_CHUNK;
    }
  }

  lemma CarryLength(heading: bytes, prefix: bytes, bodies: seq<bytes>)
    ensures |CarryAll(heading, prefix, bodies)| == |bodies|
  {
  }

  lemma {:induction false} UnderCapUntouched(cs: seq<Chunk>)
    requires UnderCap(cs)
    ensures SplitLongOf(cs) == cs
  {
    if cs != [] {
      UnderCapUntouched(cs[1..]);
    }
  }

  ghost predicate PrefixesFit(cs: seq<Chunk>, limit: nat) {
    forall i :: 0 <= i < |cs| && |cs[i].text| > MAX_CHUNK ==> |EffectivePrefix(cs[i])| <= limit
  }

  /** With room for a body everywhere, every output is under the cap and splitting is idempotent. */
  lemma {:induction false} SplitLongIdempotent(cs: seq<Chunk>)
    requires PrefixesFit(cs, MAX_CHUNK - 2)
    ensures UnderCap(SplitLongOf(cs))
    ensures SplitLongOf(SplitLongOf(cs)) == SplitLongOf(cs)
  {
    SplitLongUnderCap(cs);
    UnderCapUntouched(SplitLongOf(cs));
  }

  lemma {:induction false} SplitLongUnderCap(cs: seq<Chunk>)
    requires PrefixesFit(cs, MAX_CHUNK - 2)
    ensures UnderCap(SplitLongOf(cs))
  {
    if cs != [] {
      SplitLongUnderCap(cs[1..]);
      if |cs[0].text| > MAX_CHUNK {
        SplitOneUnderCapIff(cs[0]);
      }
    }
  }

  // ---------- Conservation of visible text ----------

  /** No non-whitespace rune of `s` is wider than `b`. */
  ghost predicate VisibleNarrow(s: bytes, b: nat)
    requires Valid(s)
  {
    s == [] || ((LeadSpace(s) > 0 || Need(s[0]) <= b) && VisibleNarrow(s[Need(s[0])..], b))
  }

  lemma OneRune(r: bytes)
    requires RuneAt(r) && |r| == Need(r[0])
    ensures Valid(r) && Ink(r) == if LeadSpace(r) > 0 then [] else r
  {
  }

  lemma VisibleStep(r: bytes, t: bytes, b: nat)
    requires RuneAt(r) && |r| == Need(r[0]) && Valid(t)
    ensures Valid(r + t)
    ensures Ink(r + t) == (if LeadSpace(r) > 0 then [] else r) + Ink(t)
    ensures VisibleNarrow(r + t, b) <==> (LeadSpace(r) > 0 || |r| <= b) && VisibleNarrow(t, b)
  {
  }

  lemma KeepInkStep(r: bytes, t: bytes, b: nat)
    requires RuneAt(r) && |r| == Need(r[0]) && Valid(t) && Valid(Keep(t, b))
    ensures Valid(r + t) && Valid(Keep(r + t, b))
    ensures Ink(Keep(r + t, b)) == (if LeadSpace(r) > 0 || |r| > b then [] else r) + Ink(Keep(t, b))
  {
    OneRune(r);
    KeepStep(r, t, b);
    var k := Keep(t, b);
    if |r| <= b {
      ValidConcat(r, k);
      InkConcat(r, k);
    } else {
      assert [] + k == k;
    }
  }

  lemma {:induction false} KeepInkIff(s: bytes, b: nat)
    requires Valid(s)
    ensures Valid(Keep(s, b)) && |Ink(Keep(s, b))| <= |Ink(s)|
    ensures |Ink(Keep(s, b))| == |Ink(s)| ==> VisibleNarrow(s, b)
    ensures VisibleNarrow(s, b) ==> Ink(Keep(s, b)) == Ink(s)
    decreases |s|
  {
    if s != [] {
      var r, t := s[..Need(s[0])], s[Need(s[0])..];
      assert s == r + t;
      KeepInkIff(t, b);
      VisibleStep(r, t, b);
      KeepInkStep(r, t, b);
    }
  }

  /** Every sentence the packer still has to hard-split holds only visible runes that fit the
      budget. */
  ghost predicate Lossless(prefix: bytes, ss: seq<bytes>, i: nat)
    requires AllValid(ss)
  {
    forall j :: i <= j < |ss| && Oversized(prefix, ss[j]) ==> VisibleNarrow(ss[j], Budget(prefix))
  }

  lemma HardInk(s: bytes, b: nat)
    requires Valid(s) && b >= 1
    ensures AllValid(HardBodies(s, b)) && InkAll(HardBodies(s, b)) == Ink(Keep(s, b))
  {
    HardBodiesKeep(s, b);
    InkOfFlatten(HardBodies(s, b));
  }

  lemma EmitInk(cur: bytes)
    requires Valid(cur)
    ensures AllValid(Emit(cur)) && InkAll(Emit(cur)) == Ink(cur)
  {
    TrimKeepsInk(cur);
    TrimEmptyIffNoInk(cur);
    if TrimSpace(cur) != [] {
      assert InkAll([TrimSpace(cur)]) == Ink(TrimSpace(cur)) + InkAll([]);
    }
  }

  lemma ExtendInk(cur: bytes, s: bytes)
    requires Valid(cur) && Valid(s)
    ensures Valid(Extend(cur, s)) && Ink(Extend(cur, s)) == Ink(cur) + Ink(s)
  {
    if |cur| > 0 {
      AddBlank(cur, s);
    }
  }

  /** `out` holds what is due, byte for byte, exactly when nothing is lossy. */
  ghost predicate Conserves(out: bytes, due: bytes, lossless: bool) {
    && |out| <= |due|
    && (|out| == |due| ==> lossless)
    && (lossless ==> out == due)
  }

  lemma ConservesConcat(out1: bytes, due1: bytes, l1: bool, out2: bytes, due2: bytes, l2: bool)
    requires Conserves(out1, due1, l1) && Conserves(out2, due2, l2)
    ensures Conserves(out1 + out2, due1 + due2, l1 && l2)
  {
  }

  lemma HardConserves(prefix: bytes, s: bytes)
    requires Valid(s)
    ensures var hard := HardBodies(s, Budget(prefix));
      AllValid(hard) && Conserves(InkAll(hard), Ink(s), VisibleNarrow(s, Budget(prefix)))
  {
    HardInk(s, Budget(prefix));
    KeepInkIff(s, Budget(prefix));
  }

  lemma {:induction false} PackKeepsInk(prefix: bytes, ss: seq<bytes>, i: nat, cur: bytes)
    requires i <= |ss| && AllValid(ss) && Valid(cur)
    ensures AllValid(Pack(prefix, ss, i, cur))
    ensures Conserves(InkAll(Pack(prefix, ss, i, cur)), Ink(cur) + InkAll(ss[i..]), Lossless(prefix, ss, i))
    decreases |ss| - i, 1
  {
    if i == |ss| {
      EmitInk(cur);
      NilUnits(Ink(cur));
    } else {
      InkAllStep(ss, i);
      Associative(Ink(cur), Ink(ss[i]), InkAll(ss[i + 1..]));
      if Oversized(prefix, ss[i]) {
        PackHard(prefix, ss, i, cur);
      } else {
        assert Lossless(prefix, ss, i) <==> Lossless(prefix, ss, i + 1);
        if Overflows(prefix, cur, ss[i]) {
          EmitInk(cur);
          PackKeepsInk(prefix, ss, i + 1, ss[i]);
          InkAllConcat(Emit(cur), Pack(prefix, ss, i + 1, ss[i]));
        } else {
          ExtendInk(cur, ss[i]);
          PackKeepsInk(prefix, ss, i + 1, Extend(cur, ss[i]));
        }
      }
    }
  }

  lemma InkAllStep(ss: seq<bytes>, i: nat)
    requires i < |ss|
    ensures InkAll(ss[i..]) == Ink(ss[i]) + InkAll(ss[i + 1..])
  {
  }

  lemma InkOfThree(a: seq<bytes>, b: seq<bytes>, c: seq<bytes>)
    ensures InkAll(a + b + c) == InkAll(a) + (InkAll(b) + InkAll(c))
    ensures AllValid(a) && AllValid(b) && AllValid(c) ==> AllValid(a + b + c)
  {
    InkAllConcat(a + b, c);
    InkAllConcat(a, b);
    Associative(InkAll(a), InkAll(b), InkAll(c));
  }

  lemma {:induction false} PackHard(prefix: bytes, ss: seq<bytes>, i: nat, cur: bytes)
    requires i < |ss| && AllValid(ss) && Valid(cur) && Oversized(prefix, ss[i])
    ensures AllValid(Pack(prefix, ss, i, cur))
    ensures var kept := InkAll(Pack(prefix, ss, i, cur));
      Conserves(kept, Ink(cur) + (Ink(ss[i]) + InkAll(ss[i + 1..])), Lossless(prefix, ss, i))
    decreases |ss| - i, 0
  {
    var hard, tail := HardBodies(ss[i], Budget(prefix)), Pack(prefix, ss, i + 1, []);
    EmitInk(cur);
    HardConserves(prefix, ss[i]);
    PackKeepsInk(prefix, ss, i + 1, []);
    NilUnits(InkAll(ss[i + 1..]));
    ConservesConcat(InkAll(hard), Ink(ss[i]), VisibleNarrow(ss[i], Budget(prefix)),
                    InkAll(tail), InkAll(ss[i + 1..]), Lossless(prefix, ss, i + 1));
    InkOfThree(Emit(cur), hard, tail);
    ConservesConcat(Ink(cur), Ink(cur), true, InkAll(hard) + InkAll(tail), Ink(ss[i]) + InkAll(ss[i + 1..]),
                    VisibleNarrow(ss[i], Budget(prefix)) && Lossless(prefix, ss, i + 1));
  }

  lemma BodyValid(c: Chunk)
    requires Valid(c.text) && Valid(EffectivePrefix(c))
    ensures Valid(Body(c))
  {
    var p := EffectivePrefix(c);
    if p != [] {
      if p <= c.text {
        assert c.text == p + c.text[|p|..];
        ValidConcat(p, c.text[|p|..]);
      }
      TrimKeepsInk(TrimPrefix(c.text, p));
    }
  }

  /** The bodies of the sub-chunks hold the visible text of the chunk's body, rune for rune and in
      order, if and only if no hard-split sentence has a visible rune wider than the budget. */
  lemma SplitOneKeepsInkIff(c: Chunk)
    requires Valid(c.text) && Valid(EffectivePrefix(c))
    ensures AllValid(SplitBodies(c)) && AllValid(SentencesOf(Body(c)))
    ensures InkAll(SplitBodies(c)) == Ink(Body(c)) <==> Lossless(EffectivePrefix(c), SentencesOf(Body(c)), 0)
    ensures |EffectivePrefix(c)| <= MAX_CHUNK - 5 ==> InkAll(SplitBodies(c)) == Ink(Body(c))
  {
    var p, ss := EffectivePrefix(c), SentencesOf(Body(c));
    BodyValid(c);
    SentencesKeepInk(Body(c));
    PackKeepsInk(p, ss, 0, []);
    assert ss[0..] == ss;
    NilUnits(InkAll(ss));
    if |p| <= MAX_CHUNK - 5 {
      forall i | 0 <= i < |ss|
        ensures VisibleNarrow(ss[i], Budget(p))
      {
        AlwaysNarrow(ss[i], Budget(p));
      }
    }
  }

  lemma {:induction false} AlwaysNarrow(s: bytes, b: nat)
    requires Valid(s) && b >= 4
    ensures VisibleNarrow(s, b)
    decreases |s|
  {
    if s != [] {
      AlwaysNarrow(s[Need(s[0])..], b);
    }
  }

  // ---------- The same for a list of chunks, heading by heading ----------

  /** Each byte of `ink`, labelled with the heading it stands under. */
  function Tag(heading: bytes, ink: bytes): seq<(bytes, byte)> {
    if ink == [] then [] else [(heading, ink[0])] + Tag(heading, ink[1..])
  }

  lemma {:induction false} TagConcat(heading: bytes, a: bytes, b: bytes)
    ensures Tag(heading, a + b) == Tag(heading, a) + Tag(heading, b)
  {
    if a == [] {
      assert a + b == b;
    } else {
      assert (a + b)[1..] == a[1..] + b;
      TagConcat(heading, a[1..], b);
    }
  }

  /** The visible bodies of the chunks, in order, each byte under its chunk's heading. */
  function TaggedInk(cs: seq<Chunk>): seq<(bytes, byte)> {
    if cs == [] then [] else Tag(cs[0].heading, Ink(Body(cs[0]))) + TaggedInk(cs[1..])
  }

  lemma {:induction false} TaggedInkConcat(a: seq<Chunk>, b: seq<Chunk>)
    ensures TaggedInk(a + b) == TaggedInk(a) + TaggedInk(b)
  {
    if a == [] {
      assert a + b == b;
    } else {
      assert (a + b)[1..] == a[1..] + b;
      TaggedInkConcat(a[1..], b);
    }
  }

  lemma BodyOfCarried(heading: bytes, prefix: bytes, body: bytes)
    requires prefix == [] ==> heading == []
    ensures Body(Carry(heading, prefix, body)) == if prefix == [] then [32] + body else TrimSpace([32] + body)
  {
  }

  lemma InkOfCarried(heading: bytes, prefix: bytes, body: bytes)
    requires Valid(body) && (prefix == [] ==> heading == [])
    ensures Ink(Body(Carry(heading, prefix, body))) == Ink(body)
  {
    BodyOfCarried(heading, prefix, body);
    BlankFront(body);
    TrimKeepsInk([32] + body);
  }

  lemma {:induction false} CarriedTags(heading: bytes, prefix: bytes, bodies: seq<bytes>)
    requires AllValid(bodies) && (prefix == [] ==> heading == [])
    ensures TaggedInk(CarryAll(heading, prefix, bodies)) == Tag(heading, InkAll(bodies))
  {
    if bodies != [] {
      InkOfCarried(heading, prefix, bodies[0]);
      CarriedTags(heading, prefix, bodies[1..]);
      TagConcat(heading, Ink(bodies[0]), InkAll(bodies[1..]));
      assert CarryAll(heading, prefix, bodies)[1..] == CarryAll(heading, prefix, bodies[1..]);
    }
  }

  /** Every chunk that will be split is valid text under a valid prefix that leaves four bytes. */
  ghost predicate Splittable(c: Chunk) {
    |c.text| > MAX_CHUNK ==>
      Valid(c.text) && Valid(EffectivePrefix(c)) && |EffectivePrefix(c)| <= MAX_CHUNK - 5
  }

  /** Splitting long chunks moves no visible rune to another heading, drops none and keeps order. */
  lemma {:induction false} SplitLongKeepsInk(cs: seq<Chunk>)
    requires forall i :: 0 <= i < |cs| ==> Splittable(cs[i])
    ensures TaggedInk(SplitLongOf(cs)) == TaggedInk(cs)
  {
    if cs != [] {
      var c := cs[0];
      SplitLongKeepsInk(cs[1..]);
      if |c.text| <= MAX_CHUNK {
        TaggedInkConcat([c], SplitLongOf(cs[1..]));
        assert TaggedInk([c]) == Tag(c.heading, Ink(Body(c))) + TaggedInk([]);
      } else {
        SplitOneKeepsInkIff(c);
        CarriedTags(c.heading, EffectivePrefix(c), SplitBodies(c));
        TaggedInkConcat(SplitOneOf(c), SplitLongOf(cs[1..]));
      }
    }
  }
}

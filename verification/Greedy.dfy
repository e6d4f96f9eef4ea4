/** internal/htmlx/chunk.go, the packing loop of splitOne: it is the greedy packing of sentences
    into groups, and no other packing under the same cap needs fewer groups. */
module Greedy {
  import opened Seqs
  import opened Utf8
  import opened Whitespace
  import opened HardSplit
  import opened Sentences
  import opened SplitLong

  /** The sentences from `start` up to `end`: cut up on its own, or joined in one sub-chunk. */
  datatype Group = Hard(start: nat) | Packed(start: nat, end: nat)

  function End(g: Group): nat {
    if g.Hard? then g.start + 1 else g.end
  }

  /** Position behind the last sentence that still joins the pending text `cur`. */
  function Reach(prefix: bytes, ss: seq<bytes>, i: nat, cur: bytes): (k: nat)
    requires i <= |ss|
    ensures i <= k <= |ss|
    ensures cur == [] && i < |ss| && !Oversized(prefix, ss[i]) ==> k > i
    decreases |ss| - i
  {
    if i == |ss| || Oversized(prefix, ss[i]) || Overflows(prefix, cur, ss[i]) then i
    else Reach(prefix, ss, i + 1, Extend(cur, ss[i]))
  }

  /** Longest run first, again and again. */
  function Groups(prefix: bytes, ss: seq<bytes>, i: nat): seq<Group>
    requires i <= |ss|
    decreases |ss| - i
  {
    if i == |ss| then []
    else if Oversized(prefix, ss[i]) then [Hard(i)] + Groups(prefix, ss, i + 1)
    else [Packed(i, Reach(prefix, ss, i, []))] + Groups(prefix, ss, Reach(prefix, ss, i, []))
  }

  /** `cur` joined with the sentences from `i` up to `k`. */
  function Joined(ss: seq<bytes>, i: nat, k: nat, cur: bytes): bytes
    requires i <= k <= |ss|
    decreases k - i
  {
    if i == k then cur else Joined(ss, i + 1, k, Extend(cur, ss[i]))
  }

  /** The group lies within the list. */
  predicate Within(ss: seq<bytes>, g: Group) {
    match g
    case Hard(i) => i < |ss|
    case Packed(i, k) => i <= k <= |ss|
  }

  function GroupBodies(prefix: bytes, ss: seq<bytes>, g: Group): seq<bytes>
    requires Within(ss, g)
  {
    match g
    case Hard(i) => HardBodies(ss[i], Budget(prefix))
    case Packed(i, k) => Emit(Joined(ss, i, k, []))
  }

  function AllBodies(prefix: bytes, ss: seq<bytes>, gs: seq<Group>): seq<bytes>
    requires forall j :: 0 <= j < |gs| ==> Within(ss, gs[j])
  {
    if gs == [] then [] else GroupBodies(prefix, ss, gs[0]) + AllBodies(prefix, ss, gs[1..])
  }

  ghost predicate NonEmpty(ss: seq<bytes>) {
    forall i :: 0 <= i < |ss| ==> ss[i] != []
  }

  // ---------- A packed group is joined with single blanks ----------

  lemma {:induction false} JoinSnoc(parts: seq<bytes>, s: bytes)
    requires parts != []
    ensures Join(parts + [s]) == Join(parts) + [32] + s
  {
    if |parts| > 1 {
      JoinSnoc(parts[1..], s);
      assert (parts + [s])[1..] == parts[1..] + [s];
      assert parts[0] + [32] + (Join(parts[1..]) + [32] + s) == (parts[0] + [32] + Join(parts[1..])) + [32] + s;
    } else {
      assert (parts + [s])[1..] == [s];
    }
  }

  lemma {:induction false} JoinedIsJoin(ss: seq<bytes>, a: nat, i: nat, k: nat)
    requires a < i <= k <= |ss| && NonEmpty(ss)
    ensures Joined(ss, i, k, Join(ss[a..i])) == Join(ss[a..k])
    decreases k - i
  {
    if i < k {
      JoinSnoc(ss[a..i], ss[i]);
      assert ss[a..i] + [ss[i]] == ss[a..i + 1];
      JoinNonEmpty(ss[a..i]);
      JoinedIsJoin(ss, a, i + 1, k);
    }
  }

  lemma JoinNonEmpty(parts: seq<bytes>)
    requires parts != [] && parts[0] != []
    ensures Join(parts) != []
  {
  }

  /** A sub-chunk that packs the sentences from `i` up to `k` has exactly those for a body, joined by one
      blank each (and trimmed, which matters for a body that is a single untrimmed sentence only). */
  lemma PackedIsJoin(prefix: bytes, ss: seq<bytes>, i: nat, k: nat)
    requires i < k <= |ss| && NonEmpty(ss)
    ensures var text := TrimSpace(Join(ss[i..k]));
      GroupBodies(prefix, ss, Packed(i, k)) == if text == [] then [] else [text]
  {
    assert ss[i..i + 1] == [ss[i]];
    JoinedIsJoin(ss, i, i + 1, k);
  }

  // ---------- The loop computes the groups ----------

  lemma {:induction false} PackReaches(prefix: bytes, ss: seq<bytes>, i: nat, cur: bytes)
    requires i <= |ss| && NonEmpty(ss) && cur != []
    ensures var k := Reach(prefix, ss, i, cur);
      Pack(prefix, ss, i, cur) == Emit(Joined(ss, i, k, cur)) + Pack(prefix, ss, k, [])
    decreases |ss| - i
  {
    if i == |ss| {
      NilUnits(Emit(cur));
    } else if Oversized(prefix, ss[i]) {
      var hard := HardBodies(ss[i], Budget(prefix));
      NilUnits(hard);
      Associative(Emit(cur), hard, Pack(prefix, ss, i + 1, []));
    } else if !Overflows(prefix, cur, ss[i]) {
      PackReaches(prefix, ss, i + 1, Extend(cur, ss[i]));
    }
  }

  lemma AllBodiesCons(prefix: bytes, ss: seq<bytes>, g: Group, gs: seq<Group>)
    requires Within(ss, g) && forall j :: 0 <= j < |gs| ==> Within(ss, gs[j])
    ensures forall j :: 0 <= j < |[g] + gs| ==> Within(ss, ([g] + gs)[j])
    ensures AllBodies(prefix, ss, [g] + gs) == GroupBodies(prefix, ss, g) + AllBodies(prefix, ss, gs)
  {
    Cons(g, gs);
  }

  /** The streaming loop and the greedy grouping produce the same bodies. */
  lemma {:induction false} PackIsGreedy(prefix: bytes, ss: seq<bytes>, i: nat)
    requires i <= |ss| && NonEmpty(ss)
    ensures forall j :: 0 <= j < |Groups(prefix, ss, i)| ==> Within(ss, Groups(prefix, ss, i)[j])
    ensures Pack(prefix, ss, i, []) == AllBodies(prefix, ss, Groups(prefix, ss, i))
    decreases |ss| - i
  {
    if i < |ss| {
      if Oversized(prefix, ss[i]) {
        PackIsGreedy(prefix, ss, i + 1);
        AllBodiesCons(prefix, ss, Hard(i), Groups(prefix, ss, i + 1));
        NilUnits(HardBodies(ss[i], Budget(prefix)));
      } else {
        var k := Reach(prefix, ss, i, []);
        PackReaches(prefix, ss, i + 1, ss[i]);
        PackIsGreedy(prefix, ss, k);
        AllBodiesCons(prefix, ss, Packed(i, k), Groups(prefix, ss, k));
      }
    }
  }

  // ---------- What a packing is allowed to be ----------

  /** Length of the sentences from `i` up to `k` joined behind a pending text of `n` bytes. */
  function Span(ss: seq<bytes>, i: nat, k: nat, n: nat): nat
    requires i <= k <= |ss|
    decreases k - i
  {
    if i == k then n else Span(ss, i + 1, k, if n > 0 then n + 1 + |ss[i]| else |ss[i]|)
  }

  lemma {:induction false} SpanIsLength(ss: seq<bytes>, i: nat, k: nat, cur: bytes)
    requires i <= k <= |ss|
    ensures |Joined(ss, i, k, cur)| == Span(ss, i, k, |cur|)
    decreases k - i
  {
    if i < k {
      SpanIsLength(ss, i + 1, k, Extend(cur, ss[i]));
    }
  }

  lemma {:induction false} SpanMonotone(ss: seq<bytes>, i: nat, k: nat, m: nat, n: nat)
    requires i <= k <= |ss| && m <= n
    ensures n <= Span(ss, i, k, n)
    ensures Span(ss, i, k, m) <= Span(ss, i, k, n)
    decreases k - i
  {
    if i < k {
      var m1 := if m > 0 then m + 1 + |ss[i]| else |ss[i]|;
      var n1 := if n > 0 then n + 1 + |ss[i]| else |ss[i]|;
      SpanMonotone(ss, i + 1, k, m1, n1);
    }
  }

  ghost predicate NoneOversized(prefix: bytes, ss: seq<bytes>, i: nat, k: nat)
    requires i <= k <= |ss|
  {
    forall j :: i <= j < k ==> !Oversized(prefix, ss[j])
  }

  /** Hard groups are the oversized sentences; a packed group is a non-empty run of ordinary
      sentences that, joined, fit behind the prefix. */
  ghost predicate LegalGroup(prefix: bytes, ss: seq<bytes>, g: Group) {
    && Within(ss, g)
    && match g
       case Hard(i) => Oversized(prefix, ss[i])
       case Packed(i, k) => i < k && NoneOversized(prefix, ss, i, k) && |prefix| + 1 + Span(ss, i, k, 0) <= MAX_CHUNK
  }

  /** Legal groups that cover the sentences from `i` on, in order and without gap. */
  ghost predicate Legal(prefix: bytes, ss: seq<bytes>, i: nat, gs: seq<Group>)
    decreases gs
  {
    if gs == [] then i == |ss|
    else gs[0].start == i && LegalGroup(prefix, ss, gs[0]) && Legal(prefix, ss, End(gs[0]), gs[1..])
  }

  lemma {:induction false} ReachFits(prefix: bytes, ss: seq<bytes>, i: nat, cur: bytes)
    requires i <= |ss| && (cur != [] ==> |prefix| + 1 + |cur| <= MAX_CHUNK)
    ensures var k := Reach(prefix, ss, i, cur);
      && NoneOversized(prefix, ss, i, k)
      && (cur != [] || k > i ==> |prefix| + 1 + Span(ss, i, k, |cur|) <= MAX_CHUNK)
    decreases |ss| - i
  {
    if Reach(prefix, ss, i, cur) > i {
      ReachFits(prefix, ss, i + 1, Extend(cur, ss[i]));
    }
  }

  /** Nothing that fits reaches further than the greedy run. */
  lemma {:induction false} ReachIsFurthest(prefix: bytes, ss: seq<bytes>, i: nat, cur: bytes, k: nat)
    requires i <= k <= |ss| && NoneOversized(prefix, ss, i, k)
    requires |prefix| + 1 + Span(ss, i, k, |cur|) <= MAX_CHUNK
    ensures k <= Reach(prefix, ss, i, cur)
    decreases k - i
  {
    if i < k {
      var next := Extend(cur, ss[i]);
      SpanMonotone(ss, i + 1, k, |next|, |next|);
      ReachIsFurthest(prefix, ss, i + 1, next, k);
    }
  }

  /** The greedy grouping is legal and covers exactly the given sentences in order. */
  lemma {:induction false} GroupsLegal(prefix: bytes, ss: seq<bytes>, i: nat)
    requires i <= |ss|
    ensures Legal(prefix, ss, i, Groups(prefix, ss, i))
    decreases |ss| - i
  {
    if i < |ss| {
      if Oversized(prefix, ss[i]) {
        GroupsLegal(prefix, ss, i + 1);
        Cons(Hard(i), Groups(prefix, ss, i + 1));
      } else {
        var k := Reach(prefix, ss, i, []);
        ReachFits(prefix, ss, i, []);
        GroupsLegal(prefix, ss, k);
        Cons(Packed(i, k), Groups(prefix, ss, k));
      }
    }
  }

  lemma {:induction false} ReachStops(prefix: bytes, ss: seq<bytes>, i: nat, cur: bytes)
    requires i <= |ss| && Reach(prefix, ss, i, cur) < |ss|
    ensures var k := Reach(prefix, ss, i, cur);
      Oversized(prefix, ss[k]) || |prefix| + 1 + Span(ss, i, k, |cur|) + 1 + |ss[k]| > MAX_CHUNK
    decreases |ss| - i
  {
    if Reach(prefix, ss, i, cur) > i {
      ReachStops(prefix, ss, i + 1, Extend(cur, ss[i]));
    }
  }

  /** A sub-chunk is closed before an ordinary sentence only when that sentence would not fit. */
  lemma {:induction false} NeverClosedEarly(prefix: bytes, ss: seq<bytes>, i: nat, n: nat)
    requires i <= |ss| && n < |Groups(prefix, ss, i)| && Groups(prefix, ss, i)[n].Packed?
    ensures var g := Groups(prefix, ss, i)[n];
      && g.start < g.end <= |ss|
      && (g.end < |ss| && !Oversized(prefix, ss[g.end]) ==>
            |prefix| + 1 + Span(ss, g.start, g.end, 0) + 1 + |ss[g.end]| > MAX_CHUNK)
    decreases |ss| - i
  {
    if Oversized(prefix, ss[i]) {
      NeverClosedEarly(prefix, ss, i + 1, n - 1);
    } else if n > 0 {
      NeverClosedEarly(prefix, ss, Reach(prefix, ss, i, []), n - 1);
    } else if Reach(prefix, ss, i, []) < |ss| {
      ReachStops(prefix, ss, i, []);
    }
  }

  // ---------- Greedy packing is optimal ----------

  lemma {:induction false} LaterNeedsNoMore(prefix: bytes, ss: seq<bytes>, i: nat, j: nat)
    requires i <= j <= |ss|
    ensures |Groups(prefix, ss, j)| <= |Groups(prefix, ss, i)|
    decreases |ss| - i, j
  {
    if i < j {
      NextNeedsNoMore(prefix, ss, i);
      LaterNeedsNoMore(prefix, ss, i + 1, j);
    }
  }

  lemma {:induction false} NextNeedsNoMore(prefix: bytes, ss: seq<bytes>, i: nat)
    requires i < |ss|
    ensures |Groups(prefix, ss, i + 1)| <= |Groups(prefix, ss, i)|
    decreases |ss| - i, 0
  {
    if !Oversized(prefix, ss[i]) {
      var k := Reach(prefix, ss, i, []);
      if k > i + 1 {
        RestStillFits(prefix, ss, i);
        LaterNeedsNoMore(prefix, ss, k, Reach(prefix, ss, i + 1, []));
      }
    }
  }

  lemma RestStillFits(prefix: bytes, ss: seq<bytes>, i: nat)
    requires i < |ss| && Reach(prefix, ss, i, []) > i + 1
    ensures !Oversized(prefix, ss[i + 1])
    ensures Reach(prefix, ss, i, []) <= Reach(prefix, ss, i + 1, [])
  {
    var k := Reach(prefix, ss, i, []);
    ReachFits(prefix, ss, i, []);
    SpanMonotone(ss, i + 1, k, 0, |ss[i]|);
    ReachIsFurthest(prefix, ss, i + 1, [], k);
  }

  /** No legal packing of the same sentences uses fewer groups than the loop does. */
  lemma {:induction false} GreedyIsOptimal(prefix: bytes, ss: seq<bytes>, i: nat, gs: seq<Group>)
    requires i <= |ss| && Legal(prefix, ss, i, gs)
    ensures |Groups(prefix, ss, i)| <= |gs|
    decreases |gs|
  {
    if gs != [] {
      GreedyIsOptimal(prefix, ss, End(gs[0]), gs[1..]);
      if gs[0].Packed? {
        ReachIsFurthest(prefix, ss, i, [], gs[0].end);
        LaterNeedsNoMore(prefix, ss, gs[0].end, Reach(prefix, ss, i, []));
      }
    }
  }

  /** What splitOne makes of a chunk with a body: the bodies of an optimal legal grouping of that
      body's sentences. */
  lemma SplitOneIsGreedy(c: Chunk, gs: seq<Group>)
    requires Body(c) != []
    ensures var p, ss := EffectivePrefix(c), SentencesOf(Body(c));
      && (forall j :: 0 <= j < |Groups(p, ss, 0)| ==> Within(ss, Groups(p, ss, 0)[j]))
      && SplitBodies(c) == AllBodies(p, ss, Groups(p, ss, 0))
      && Legal(p, ss, 0, Groups(p, ss, 0))
      && (Legal(p, ss, 0, gs) ==> |Groups(p, ss, 0)| <= |gs|)
  {
    var p, ss := EffectivePrefix(c), SentencesOf(Body(c));
    forall i | 0 <= i < |ss|
      ensures ss[i] != []
    {
      SentencesNonEmpty(Body(c), i);
    }
    PackIsGreedy(p, ss, 0);
    GroupsLegal(p, ss, 0);
    if Legal(p, ss, 0, gs) {
      GreedyIsOptimal(p, ss, 0, gs);
    }
  }
}

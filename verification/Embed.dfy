/** internal/embed/client.go: embedding with retries on ever shorter text. The server is an
    arbitrary function of the request number and the texts sent. */
module Embed {
  import opened Seqs
  import opened Utf8
  import opened Truncate

  const MAX_EMBED: nat := 7000
  const MIN_EMBED: nat := 64

  type Vector = seq<real>

  /** How embedBatch ends: vectors, the context-size error, or any other error. */
  datatype Reply = Vectors(vecs: seq<Vector>) | ContextSize | OtherError(msg: string)

  type Server = (nat, seq<bytes>) -> Reply

  datatype Outcome = Embedded(vec: Vector) | EmptyResponse | Failed(reply: Reply)

  datatype BatchOutcome = Batch(vecs: seq<Vector>) | BatchFailed(cause: Outcome)

  /** truncateForEmbed. */
  function Cap(text: bytes): (r: bytes)
    ensures |r| <= MAX_EMBED
    ensures r == Truncated(text, MAX_EMBED)
  {
    if text == [] then text else if |text| > MAX_EMBED then Shorten(text, MAX_EMBED) else text
  }

  /** A truncation, with its length bound. */
  function Shorten(text: bytes, limit: nat): (r: bytes)
    ensures r == Truncated(text, limit) && |r| <= limit && |r| <= |text|
  {
    Truncated(text, limit)
  }

  function CapAll(texts: seq<bytes>): (r: seq<bytes>)
    ensures |r| == |texts|
    ensures forall i :: 0 <= i < |r| ==> r[i] == Cap(texts[i])
  {
    if texts == [] then [] else [Cap(texts[0])] + CapAll(texts[1..])
  }

  /** Whether Embed tries again after this reply to `text`. */
  predicate Retries(reply: Reply, text: bytes) {
    reply.ContextSize? && |text| > MIN_EMBED
  }

  /** The text of the retry: half as long, cut at a rune. */
  function Halved(text: bytes): (r: bytes)
    ensures |r| <= |text| / 2
  {
    Cap(Shorten(text, |text| / 2))
  }

  /** What a call sends and how it ends. */
  datatype Trace = Trace(sent: seq<bytes>, outcome: Outcome)

  datatype BatchTrace = BatchTrace(sent: seq<seq<bytes>>, outcome: BatchOutcome)

  /** Embed from request `n` on, when `text` is the text at hand. */
  function Run(server: Server, n: nat, text: bytes): Trace
    decreases |text|
  {
    var reply := server(n, [Cap(text)]);
    if Retries(reply, text) then
      var rest := Run(server, n + 1, Halved(text));
      Trace([Cap(text)] + rest.sent, rest.outcome)
    else
      Trace([Cap(text)], Ending(reply))
  }

  function Ending(reply: Reply): Outcome {
    if !reply.Vectors? then Failed(reply)
    else if reply.vecs == [] then EmptyResponse
    else Embedded(reply.vecs[0])
  }

  /** The one-by-one fallback from text `i` on. */
  function RunEach(server: Server, n: nat, texts: seq<bytes>, i: nat): BatchTrace
    requires i <= |texts|
    decreases |texts| - i
  {
    if i == |texts| then BatchTrace([], Batch([])) else
    var t := Run(server, n, Cap(texts[i]));
    if !t.outcome.Embedded? then BatchTrace(Singles(t.sent), BatchFailed(t.outcome))
    else Prepend(Singles(t.sent), [t.outcome.vec], RunEach(server, n + |t.sent|, texts, i + 1))
  }

  /** A later trace, seen from before: more requests and vectors in front of it. */
  function Prepend(sent: seq<seq<bytes>>, out: seq<Vector>, rest: BatchTrace): BatchTrace {
    BatchTrace(sent + rest.sent, if rest.outcome.Batch? then Batch(out + rest.outcome.vecs) else rest.outcome)
  }

  /** EmbedBatch from request `n` on. */
  function RunBatch(server: Server, n: nat, texts: seq<bytes>): BatchTrace {
    if texts == [] then BatchTrace([], Batch([])) else
    match server(n, CapAll(texts))
    case Vectors(vecs) => BatchTrace([CapAll(texts)], Batch(vecs))
    case ContextSize => Prepend([CapAll(texts)], [], RunEach(server, n + 1, texts, 0))
    case OtherError(msg) => BatchTrace([CapAll(texts)], BatchFailed(Failed(OtherError(msg))))
  }

  function Singles(texts: seq<bytes>): (r: seq<seq<bytes>>)
    ensures |r| == |texts|
    ensures forall i :: 0 <= i < |r| ==> r[i] == [texts[i]]
  {
    if texts == [] then [] else [[texts[0]]] + Singles(texts[1..])
  }

  /** The client and the requests it has sent so far. */
  class Client {
    const server: Server
    var requests: seq<seq<bytes>>

    constructor (server: Server)
      ensures this.server == server && requests == []
    {
      this.server := server;
      requests := [];
    }

    /** embedBatch: one request with every text capped. */
    method Post(texts: seq<bytes>) returns (reply: Reply)
      modifies this
      ensures requests == old(requests) + [CapAll(texts)]
      ensures reply == server(|old(requests)|, CapAll(texts))
    {
      var truncated := [];
      for i := 0 to |texts|
        invariant |truncated| == i
        invariant forall j :: 0 <= j < i ==> truncated[j] == Cap(texts[j])
      {
        truncated := truncated + [Cap(texts[i])];
      }
      assert truncated == CapAll(texts);
      reply := server(|requests|, truncated);
      requests := requests + [truncated];
    }

    method Embed(input: bytes) returns (r: Outcome)
      modifies this
      ensures requests == old(requests) + Singles(Run(server, |old(requests)|, Cap(input)).sent)
      ensures r == Run(server, |old(requests)|, Cap(input)).outcome
      ensures Halving(server, |old(requests)|, input, Run(server, |old(requests)|, Cap(input)).sent, r)
    {
      RunIsHalving(server, |requests|, input);
      r := EmbedCapped(Cap(input));
    }

    /** The loop of Embed. */
    method EmbedCapped(capped: bytes) returns (r: Outcome)
      modifies this
      ensures requests == old(requests) + Singles(Run(server, |old(requests)|, capped).sent)
      ensures r == Run(server, |old(requests)|, capped).outcome
    {
      var text := capped;
      ghost var all := Run(server, |requests|, text);
      ghost var goal := requests + Singles(all.sent);
      while true
        invariant goal == requests + Singles(Run(server, |requests|, text).sent)
        invariant all.outcome == Run(server, |requests|, text).outcome
        decreases |text|
      {
        CapOne(text);
        RunStep(server, requests, text);
        var reply := Post([text]);
        match reply {
          case Vectors(vecs) =>
            return if |vecs| == 0 then EmptyResponse else Embedded(vecs[0]);
          case _ =>
            if !reply.ContextSize? || |text| <= MIN_EMBED {
              return Failed(reply);
            }
        }
        var half := |text| / 2;
        var shorter := TruncateRunes(text, half);
        text := Cap(shorter);
      }
    }

    method EmbedBatch(texts: seq<bytes>) returns (r: BatchOutcome)
      modifies this
      ensures requests == old(requests) + RunBatch(server, |old(requests)|, texts).sent
      ensures r == RunBatch(server, |old(requests)|, texts).outcome
      ensures texts == [] ==> requests == old(requests) && r == Batch([])
      ensures var reply := server(|old(requests)|, CapAll(texts));
        texts != [] && !reply.ContextSize? ==>
          && requests == old(requests) + [CapAll(texts)]
          && r == if reply.Vectors? then Batch(reply.vecs) else BatchFailed(Failed(reply))
    {
      NilUnits(requests);
      if |texts| == 0 {
        return Batch([]);
      }
      var reply := Post(texts);
      if reply.Vectors? {
        return Batch(reply.vecs);
      }
      if !reply.ContextSize? {
        return BatchFailed(Failed(reply));
      }
      ghost var each := RunEach(server, |requests|, texts, 0);
      Associative(old(requests), [CapAll(texts)], each.sent);
      PrependNone([CapAll(texts)], each);
      r := EmbedEach(texts);
    }

    /** The loop of EmbedBatch's fallback. */
    method EmbedEach(texts: seq<bytes>) returns (r: BatchOutcome)
      modifies this
      ensures requests == old(requests) + RunEach(server, |old(requests)|, texts, 0).sent
      ensures r == RunEach(server, |old(requests)|, texts, 0).outcome
    {
      ghost var goal := Prepend(requests, [], RunEach(server, |requests|, texts, 0));
      PrependNone(requests, RunEach(server, |requests|, texts, 0));
      var out: seq<Vector> := [];
      for i := 0 to |texts|
        invariant goal == Prepend(requests, out, RunEach(server, |requests|, texts, i))
      {
        var v := EmbedNext(texts, i, out, goal);
        if !v.Embedded? {
          return BatchFailed(v);
        }
        out := out + [v.vec];
      }
      NilUnits(requests);
      NilUnits(out);
      return Batch(out);
    }

    /** One round of it; `goal` is what the whole loop comes to. */
    method EmbedNext(texts: seq<bytes>, i: nat, ghost out: seq<Vector>, ghost goal: BatchTrace) returns (v: Outcome)
      requires i < |texts| && goal == Prepend(requests, out, RunEach(server, |requests|, texts, i))
      modifies this
      ensures v.Embedded? ==> goal == Prepend(requests, out + [v.vec], RunEach(server, |requests|, texts, i + 1))
      ensures !v.Embedded? ==> goal == BatchTrace(requests, BatchFailed(v))
    {
      ghost var log, n := requests, |requests|;
      ghost var whole := RunEach(server, n, texts, i);
      v := Embed(texts[i]);
      ghost var t := Run(server, n, Cap(texts[i]));
      assert requests == log + Singles(t.sent) && |requests| == n + |t.sent|;
      if v.Embedded? {
        RunEachFirst(server, n, texts, i, |requests|, v.vec);
        TraceGoesOn(log, out, Singles(t.sent), v.vec, RunEach(server, |requests|, texts, i + 1), whole, requests, goal);
      } else {
        RunEachStops(server, n, texts, i);
        TraceStops(log, out, Singles(t.sent), v, whole, requests, goal);
      }
    }
  }

  lemma CapOne(text: bytes)
    ensures CapAll([text]) == [Cap(text)]
  {
  }

  lemma PrependNone(sent: seq<seq<bytes>>, rest: BatchTrace)
    ensures Prepend(sent, [], rest) == BatchTrace(sent + rest.sent, rest.outcome)
  {
  }

  lemma SinglesCons(x: bytes, t: seq<bytes>)
    ensures Singles([x] + t) == [[x]] + Singles(t) && Singles([x]) == [[x]]
  {
    Cons(x, t);
    assert Singles([x]) == [[x]] + Singles([]);
  }

  lemma PrependTwice(s1: seq<seq<bytes>>, v1: seq<Vector>, s2: seq<seq<bytes>>, v2: seq<Vector>, rest: BatchTrace)
    ensures Prepend(s1, v1, Prepend(s2, v2, rest)) == Prepend(s1 + s2, v1 + v2, rest)
  {
    Associative(s1, s2, rest.sent);
    if rest.outcome.Batch? {
      Associative(v1, v2, rest.outcome.vecs);
    }
  }

  lemma RunStep(server: Server, log: seq<seq<bytes>>, text: bytes)
    ensures log + Singles(Run(server, |log|, text).sent)
         == if Retries(server(|log|, [Cap(text)]), text)
            then (log + [[Cap(text)]]) + Singles(Run(server, |log| + 1, Halved(text)).sent)
            else log + [[Cap(text)]]
  {
    var rest := if Retries(server(|log|, [Cap(text)]), text) then Run(server, |log| + 1, Halved(text)).sent else [];
    SinglesCons(Cap(text), rest);
    Associative(log, [[Cap(text)]], Singles(rest));
  }

  lemma RunEachFirst(server: Server, n: nat, texts: seq<bytes>, i: nat, m: nat, v: Vector)
    requires i < |texts| && Run(server, n, Cap(texts[i])).outcome == Embedded(v)
    requires m == n + |Run(server, n, Cap(texts[i])).sent|
    ensures RunEach(server, n, texts, i)
            == Prepend(Singles(Run(server, n, Cap(texts[i])).sent), [v], RunEach(server, m, texts, i + 1))
  {
  }

  lemma RunEachStops(server: Server, n: nat, texts: seq<bytes>, i: nat)
    requires i < |texts| && !Run(server, n, Cap(texts[i])).outcome.Embedded?
    ensures var t := Run(server, n, Cap(texts[i]));
      RunEach(server, n, texts, i) == BatchTrace(Singles(t.sent), BatchFailed(t.outcome))
  {
  }

  /** One text's trace put between what came before and what comes after. */
  lemma TraceGoesOn(log: seq<seq<bytes>>, out: seq<Vector>, sent: seq<seq<bytes>>, v: Vector, rest: BatchTrace,
                    whole: BatchTrace, next: seq<seq<bytes>>, goal: BatchTrace)
    requires whole == Prepend(sent, [v], rest) && next == log + sent && goal == Prepend(log, out, whole)
    ensures goal == Prepend(next, out + [v], rest)
  {
    PrependTwice(log, out, sent, [v], rest);
  }

  lemma TraceStops(log: seq<seq<bytes>>, out: seq<Vector>, sent: seq<seq<bytes>>, cause: Outcome,
                   whole: BatchTrace, next: seq<seq<bytes>>, goal: BatchTrace)
    requires whole == BatchTrace(sent, BatchFailed(cause)) && next == log + sent && goal == Prepend(log, out, whole)
    ensures goal == BatchTrace(next, BatchFailed(cause))
  {
  }

  // ---------- Every request ----------

  /** The texts of one call of Embed and its end: the first is the input within 7000 bytes, each further one
      the first half of the one before, cut at a rune, after that one was rejected for its size and is longer
      than 64 bytes; the last is not retried because one of the two fails, and its reply is the outcome. */
  ghost predicate Halving(server: Server, n: nat, input: bytes, sent: seq<bytes>, r: Outcome) {
    && sent != [] && LongestWithin(input, 7000, sent[0])
    && (forall k :: 0 <= k < |sent| - 1 ==>
          && server(n + k, [sent[k]]).ContextSize? && |sent[k]| > 64
          && LongestWithin(sent[k], |sent[k]| / 2, sent[k + 1]))
    && var last := sent[|sent| - 1];
       var reply := server(n + |sent| - 1, [last]);
       && !(reply.ContextSize? && |last| > 64)
       && (if reply.Vectors? && reply.vecs != [] then r == Embedded(reply.vecs[0])
           else if reply.Vectors? then r == EmptyResponse
           else r == Failed(reply))
  }

  lemma CapShort(text: bytes)
    requires |text| <= MAX_EMBED
    ensures Cap(text) == text && Halved(text) == Truncated(text, |text| / 2)
    ensures LongestWithin(text, |text| / 2, Halved(text))
  {
    TruncatedIffLongest(text, |text| / 2, Halved(text));
  }

  lemma {:induction false} RunHalves(server: Server, n: nat, text: bytes)
    requires |text| <= MAX_EMBED && LongestWithin(text, 7000, text)
    ensures var t := Run(server, n, text);
      t.sent != [] && t.sent[0] == text && Halving(server, n, text, t.sent, t.outcome)
    decreases |text|
  {
    CapShort(text);
    if Retries(server(n, [text]), text) {
      var half := Halved(text);
      TruncatedIffLongest(half, 7000, half);
      RunHalves(server, n + 1, half);
      HalvingCons(server, n, text, half, Run(server, n + 1, half));
    }
  }

  lemma HalvingCons(server: Server, n: nat, text: bytes, half: bytes, rest: Trace)
    requires LongestWithin(text, 7000, text) && LongestWithin(text, |text| / 2, half)
    requires server(n, [text]).ContextSize? && |text| > 64
    requires rest.sent != [] && rest.sent[0] == half && Halving(server, n + 1, half, rest.sent, rest.outcome)
    ensures Halving(server, n, text, [text] + rest.sent, rest.outcome)
  {
    var sent := [text] + rest.sent;
    forall k | 0 <= k < |sent| - 1
      ensures server(n + k, [sent[k]]).ContextSize? && |sent[k]| > 64
      ensures LongestWithin(sent[k], |sent[k]| / 2, sent[k + 1])
    {
      if k > 0 {
        assert sent[k] == rest.sent[k - 1] && sent[k + 1] == rest.sent[k];
        assert n + k == n + 1 + (k - 1);
      }
    }
    assert sent[|sent| - 1] == rest.sent[|rest.sent| - 1];
    assert n + |sent| - 1 == n + 1 + |rest.sent| - 1;
  }

  lemma RunIsHalving(server: Server, n: nat, input: bytes)
    ensures Halving(server, n, input, Run(server, n, Cap(input)).sent, Run(server, n, Cap(input)).outcome)
  {
    var text := Cap(input);
    TruncatedIffLongest(input, 7000, text);
    TruncatedIffLongest(text, 7000, text);
    RunHalves(server, n, text);
  }

  lemma LongestIsOne(s: bytes, limit: int, a: bytes, b: bytes)
    requires LongestWithin(s, limit, a) && LongestWithin(s, limit, b)
    ensures a == b
  {
    TruncatedIffLongest(s, limit, a);
    TruncatedIffLongest(s, limit, b);
  }

  lemma {:induction false} HalvingAgrees(
    server: Server, n: nat, input: bytes, s: seq<bytes>, q: Outcome, t: seq<bytes>, r: Outcome, k: nat)
    requires Halving(server, n, input, s, q) && Halving(server, n, input, t, r) && k < |s|
    ensures k < |t| && s[k] == t[k]
  {
    if k == 0 {
      LongestIsOne(input, 7000, s[0], t[0]);
    } else {
      HalvingAgrees(server, n, input, s, q, t, r, k - 1);
      if k < |t| {
        LongestIsOne(s[k - 1], |s[k - 1]| / 2, s[k], t[k]);
      }
    }
  }

  /** That leaves no choice: the requests and the outcome are those of the call. */
  lemma HalvingIsRun(server: Server, n: nat, input: bytes, sent: seq<bytes>, r: Outcome)
    ensures Halving(server, n, input, sent, r) <==> Run(server, n, Cap(input)) == Trace(sent, r)
  {
    RunIsHalving(server, n, input);
    var t := Run(server, n, Cap(input));
    if Halving(server, n, input, sent, r) {
      HalvingAgrees(server, n, input, sent, r, t.sent, t.outcome, |sent| - 1);
      HalvingAgrees(server, n, input, t.sent, t.outcome, sent, r, |t.sent| - 1);
      forall k | 0 <= k < |sent|
        ensures sent[k] == t.sent[k]
      {
        HalvingAgrees(server, n, input, sent, r, t.sent, t.outcome, k);
      }
      assert sent == t.sent;
    }
  }

  // ---------- Bounds on every request ----------

  /** `x` halved `k` times, rounding down. */
  function HalfTimes(x: nat, k: nat): nat
    decreases k
  {
    if k == 0 then x else HalfTimes(x / 2, k - 1)
  }

  lemma {:induction false} HalfTimesMonotone(x: nat, y: nat, k: nat)
    requires x <= y
    ensures HalfTimes(x, k) <= HalfTimes(y, k) <= y
    decreases k
  {
    if k > 0 {
      HalfTimesMonotone(x / 2, y / 2, k - 1);
    }
  }

  /** `t` is `text` cut at a rune boundary. */
  ghost predicate CutOf(text: bytes, t: bytes) {
    |t| <= |text| && t == Truncated(text, |t|)
  }

  lemma CutOfCut(a: bytes, limit: nat)
    ensures CutOf(a, Truncated(a, limit))
  {
    var t := Truncated(a, limit);
    TruncatedIffLongest(a, limit, t);
    TruncatedIffLongest(a, |t|, t);
  }

  lemma CutTransitive(a: bytes, b: bytes, c: bytes)
    requires CutOf(a, b) && CutOf(b, c)
    ensures CutOf(a, c)
  {
  }

  lemma HalvedIsCut(text: bytes)
    ensures CutOf(text, Halved(text)) && Cap(text) == Cap(Cap(text)) && CutOf(text, Cap(text))
  {
    var half := Shorten(text, |text| / 2);
    CutOfCut(text, |text| / 2);
    CutOfCut(half, MAX_EMBED);
    CutTransitive(text, half, Cap(half));
    CutOfCut(text, MAX_EMBED);
    NestedTruncation(text, MAX_EMBED, MAX_EMBED);
  }

  lemma RunFirst(server: Server, n: nat, text: bytes)
    ensures Run(server, n, text).sent[0] == Cap(text)
    ensures |Run(server, n, text).sent| > 1 ==>
      |text| > MIN_EMBED && Run(server, n, text).sent[1..] == Run(server, n + 1, Halved(text)).sent
  {
  }

  /** The k-th text sent is a rune-boundary prefix of the text at hand, halved k times in size. */
  lemma {:induction false} SentShrinks(server: Server, n: nat, text: bytes, k: nat)
    requires k < |Run(server, n, text).sent|
    ensures |Run(server, n, text).sent[k]| <= HalfTimes(|text|, k)
    ensures CutOf(text, Run(server, n, text).sent[k])
    decreases |text|, k
  {
    RunFirst(server, n, text);
    HalvedIsCut(text);
    if k > 0 {
      SentShrinks(server, n + 1, Halved(text), k - 1);
      HalfTimesMonotone(|Halved(text)|, |text| / 2, k - 1);
      CutTransitive(text, Halved(text), Run(server, n, text).sent[k]);
    }
  }

  /** A text that has been halved `k` times and is retried again was longer than 64 bytes. */
  lemma {:induction false} SentCount(server: Server, n: nat, text: bytes, k: nat)
    requires |Run(server, n, text).sent| > k + 1
    ensures HalfTimes(|text|, k) > MIN_EMBED
    decreases k
  {
    RunFirst(server, n, text);
    if k > 0 {
      SentCount(server, n + 1, Halved(text), k - 1);
      HalfTimesMonotone(|Halved(text)|, |text| / 2, k - 1);
    }
  }

  /** Embed sends at most eight requests; the k-th carries the input cut at a rune boundary to at
      most 7000 / 2^k bytes, which for valid input is valid text. */
  lemma EmbedBounded(server: Server, n: nat, input: bytes, k: nat)
    ensures 1 <= |Run(server, n, Cap(input)).sent| <= 8
    ensures k < |Run(server, n, Cap(input)).sent| ==>
      var t := Run(server, n, Cap(input)).sent[k];
      && |t| <= HalfTimes(MAX_EMBED, k)
      && CutOf(input, t)
      && (Valid(input) ==> Valid(t))
  {
    var sent := Run(server, n, Cap(input)).sent;
    HalfTimesMonotone(|Cap(input)|, MAX_EMBED, 7);
    SevenHalvings();
    if |sent| > 8 {
      SentCount(server, n, Cap(input), 7);
    }
    if k < |sent| {
      SentShrinks(server, n, Cap(input), k);
      HalfTimesMonotone(|Cap(input)|, MAX_EMBED, k);
      HalvedIsCut(input);
      CutTransitive(input, Cap(input), sent[k]);
      if Valid(input) {
        TruncatedValid(input, |sent[k]|);
      }
    }
  }

  lemma SevenHalvings()
    ensures HalfTimes(MAX_EMBED, 7) == 54
  {
  }

  // ---------- Success ----------

  /** The server embeds every single text of at most 64 bytes, and rejects others for size only. */
  ghost predicate AcceptsShort(server: Server) {
    && (forall n, t :: |t| <= MIN_EMBED ==> server(n, [t]).Vectors?)
    && (forall n, t :: !server(n, [t]).OtherError?)
    && (forall n, t :: server(n, [t]).Vectors? ==> server(n, [t]).vecs != [])
  }

  /** Against such a server Embed always succeeds, whatever the input. */
  lemma {:induction false} EmbedSucceeds(server: Server, n: nat, text: bytes)
    requires AcceptsShort(server)
    ensures Run(server, n, text).outcome.Embedded?
    decreases |text|
  {
    if Retries(server(n, [Cap(text)]), text) {
      EmbedSucceeds(server, n + 1, Halved(text));
    }
  }

  /** The answer is the first vector of the server's reply to the last text sent. */
  lemma {:induction false} ResultIsLastReply(server: Server, n: nat, text: bytes)
    requires Run(server, n, text).outcome.Embedded?
    ensures var last := |Run(server, n, text).sent| - 1;
      var reply := server(n + last, [Run(server, n, text).sent[last]]);
      reply.Vectors? && reply.vecs != [] && Run(server, n, text).outcome == Embedded(reply.vecs[0])
    decreases |text|
  {
    if Retries(server(n, [Cap(text)]), text) {
      ResultIsLastReply(server, n + 1, Halved(text));
    }
  }

  // ---------- The batch fallback ----------

  /** The vector returned for `text` answers some request that carried a rune-boundary prefix of it. */
  ghost predicate Answers(server: Server, v: Vector, text: bytes) {
    exists n: nat, m: nat :: AnswersAt(server, v, text, n, m)
  }

  ghost predicate AnswersAt(server: Server, v: Vector, text: bytes, n: nat, m: nat) {
    var reply := server(n, [Truncated(text, m)]);
    m <= MAX_EMBED && reply.Vectors? && reply.vecs != [] && v == reply.vecs[0]
  }

  lemma EmbedAnswers(server: Server, n: nat, text: bytes)
    requires Run(server, n, Cap(text)).outcome.Embedded?
    ensures Answers(server, Run(server, n, Cap(text)).outcome.vec, text)
  {
    var sent := Run(server, n, Cap(text)).sent;
    EmbedBounded(server, n, text, |sent| - 1);
    ResultIsLastReply(server, n, Cap(text));
    var t := sent[|sent| - 1];
    HalfTimesMonotone(0, MAX_EMBED, |sent| - 1);
    assert AnswersAt(server, Run(server, n, Cap(text)).outcome.vec, text, n + |sent| - 1, |t|);
  }

  lemma AtMostEight(server: Server, n: nat, input: bytes)
    ensures 1 <= |Run(server, n, Cap(input)).sent| <= 8
  {
    EmbedBounded(server, n, input, 0);
  }

  lemma {:induction false} EachSentBounded(server: Server, n: nat, texts: seq<bytes>, i: nat)
    requires i <= |texts|
    ensures |RunEach(server, n, texts, i).sent| <= 8 * (|texts| - i)
    decreases |texts| - i
  {
    if i < |texts| {
      AtMostEight(server, n, texts[i]);
      EachSentBounded(server, n + |Run(server, n, Cap(texts[i])).sent|, texts, i + 1);
    }
  }

  /** The vectors answer the texts from `i` on, one each and in order. */
  ghost predicate AllAnswer(server: Server, vecs: seq<Vector>, texts: seq<bytes>, i: nat)
    requires i <= |texts|
  {
    |vecs| == |texts| - i && forall j :: 0 <= j < |vecs| ==> Answers(server, vecs[j], texts[i + j])
  }

  lemma AnswersCons(server: Server, v: Vector, vecs: seq<Vector>, texts: seq<bytes>, i: nat)
    requires i < |texts| && Answers(server, v, texts[i]) && AllAnswer(server, vecs, texts, i + 1)
    ensures AllAnswer(server, [v] + vecs, texts, i)
  {
    var all := [v] + vecs;
    forall j | 0 <= j < |all|
      ensures Answers(server, all[j], texts[i + j])
    {
      if j > 0 {
        assert all[j] == vecs[j - 1] && texts[i + j] == texts[i + 1 + (j - 1)];
      }
    }
  }

  lemma {:induction false} EachAnswers(server: Server, n: nat, texts: seq<bytes>, i: nat)
    requires i <= |texts| && RunEach(server, n, texts, i).outcome.Batch?
    ensures AllAnswer(server, RunEach(server, n, texts, i).outcome.vecs, texts, i)
    decreases |texts| - i
  {
    if i < |texts| {
      var t := Run(server, n, Cap(texts[i]));
      EmbedAnswers(server, n, texts[i]);
      EachAnswers(server, n + |t.sent|, texts, i + 1);
      AnswersCons(server, t.outcome.vec, RunEach(server, n + |t.sent|, texts, i + 1).outcome.vecs, texts, i);
    }
  }

  /** When the whole batch is too large, the fallback sends at most 1 + 8n requests in all and, if
      it succeeds, returns one vector per text, in order, each answering a prefix of its text. */
  lemma BatchFallback(server: Server, n: nat, texts: seq<bytes>)
    requires texts != [] && server(n, CapAll(texts)).ContextSize?
    ensures |RunBatch(server, n, texts).sent| <= 1 + 8 * |texts|
    ensures var r := RunBatch(server, n, texts).outcome;
      r.Batch? ==> AllAnswer(server, r.vecs, texts, 0)
  {
    PrependNone([CapAll(texts)], RunEach(server, n + 1, texts, 0));
    EachSentBounded(server, n + 1, texts, 0);
    if RunEach(server, n + 1, texts, 0).outcome.Batch? {
      EachAnswers(server, n + 1, texts, 0);
    }
  }

  /** The whole of EmbedBatch: what it returns has one vector per text if and only if the batch was
      rejected for its size or the server's one reply had as many, which the client does not check. */
  lemma OnePerTextIff(server: Server, n: nat, texts: seq<bytes>)
    requires texts != [] && RunBatch(server, n, texts).outcome.Batch?
    ensures var reply := server(n, CapAll(texts));
      |RunBatch(server, n, texts).outcome.vecs| == |texts| <==>
      reply.ContextSize? || (reply.Vectors? && |reply.vecs| == |texts|)
  {
    if server(n, CapAll(texts)).ContextSize? {
      BatchFallback(server, n, texts);
    }
  }

  /** One oversized text cannot sink the batch: if the server takes short texts, all get vectors. */
  lemma {:induction false} FallbackSucceeds(server: Server, n: nat, texts: seq<bytes>, i: nat)
    requires AcceptsShort(server) && i <= |texts|
    ensures RunEach(server, n, texts, i).outcome.Batch?
    decreases |texts| - i
  {
    if i < |texts| {
      EmbedSucceeds(server, n, Cap(texts[i]));
      FallbackSucceeds(server, n + |Run(server, n, Cap(texts[i])).sent|, texts, i + 1);
    }
  }

  /** When the fallback gives up, it is with the failure of one text, behind texts that were embedded. */
  lemma {:induction false} FallbackFails(server: Server, n: nat, texts: seq<bytes>, i: nat) returns (k: nat, m: nat)
    requires i <= |texts| && !RunEach(server, n, texts, i).outcome.Batch?
    ensures i <= k < |texts|
    ensures var t := Run(server, m, Cap(texts[k]));
      !t.outcome.Embedded? && RunEach(server, n, texts, i).outcome == BatchFailed(t.outcome)
      && m + |t.sent| == n + |RunEach(server, n, texts, i).sent|
    decreases |texts| - i
  {
    var t := Run(server, n, Cap(texts[i]));
    if t.outcome.Embedded? {
      k, m := FallbackFails(server, n + |t.sent|, texts, i + 1);
    } else {
      k, m := i, n;
    }
  }
}

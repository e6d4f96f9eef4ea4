/** internal/htmlx/chunk.go, splitOne and SplitLongChunks: packing sentences under the cap. */
module SplitLong {
  import opened Seqs
  import opened Utf8
  import opened Whitespace
  import opened Sentences
  import opened HardSplit

  /** A sentence that does not fit behind the prefix even on its own. */
  predicate Oversized(prefix: bytes, s: bytes) {
    |prefix| + 1 + |s| > MAX_CHUNK
  }

  /** Adding `s` to the non-empty text `cur` would exceed the cap. */
  predicate Overflows(prefix: bytes, cur: bytes, s: bytes) {
    |cur| > 0 && |prefix| + 1 + |cur| + 1 + |s| > MAX_CHUNK
  }

  function Extend(cur: bytes, s: bytes): bytes {
    if |cur| > 0 then cur + [32] + s else s
  }

  /** The body appendChunk adds, if any. */
  function Emit(cur: bytes): seq<bytes> {
    if TrimSpace(cur) == [] then [] else [TrimSpace(cur)]
  }

  /** The bodies still to come when `cur` is pending and the sentences from `i` on are unread. */
  function Pack(prefix: bytes, ss: seq<bytes>, i: nat, cur: bytes): seq<bytes>
    requires i <= |ss|
    decreases |ss| - i
  {
    if i == |ss| then Emit(cur)
    else if Oversized(prefix, ss[i]) then
      Emit(cur) + HardBodies(ss[i], Budget(prefix)) + Pack(prefix, ss, i + 1, [])
    else if Overflows(prefix, cur, ss[i]) then
      Emit(cur) + Pack(prefix, ss, i + 1, ss[i])
    else
      Pack(prefix, ss, i + 1, Extend(cur, ss[i]))
  }

  function EffectivePrefix(c: Chunk): bytes {
    if c.prefix == [] then c.heading else c.prefix
  }

  /** strings.TrimPrefix. */
  function TrimPrefix(s: bytes, prefix: bytes): bytes {
    if prefix <= s then s[|prefix|..] else s
  }

  /** The text of a chunk without its context prefix. */
  function Body(c: Chunk): bytes {
    if EffectivePrefix(c) == [] then c.text else TrimSpace(TrimPrefix(c.text, EffectivePrefix(c)))
  }

  function SplitBodies(c: Chunk): seq<bytes> {
    Pack(EffectivePrefix(c), SentencesOf(Body(c)), 0, [])
  }

  function SplitOneOf(c: Chunk): seq<Chunk> {
    CarryAll(c.heading, EffectivePrefix(c), SplitBodies(c))
  }

  function SplitLongOf(cs: seq<Chunk>): seq<Chunk> {
    if cs == [] then []
    else (if |cs[0].text| <= MAX_CHUNK then [cs[0]] else SplitOneOf(cs[0])) + SplitLongOf(cs[1..])
  }

  method AppendChunk(sub: seq<Chunk>, heading: bytes, prefix: bytes, t: bytes) returns (r: seq<Chunk>)
    ensures r == sub + CarryAll(heading, prefix, Emit(t))
    ensures TrimSpace(t) == [] ==> r == sub
    ensures TrimSpace(t) != [] ==> r == sub + [Chunk(heading, prefix + [' ' as int] + TrimSpace(t), prefix)]
  {
    var text := TrimSpace(t);
    if text == [] {
      return sub;
    }
    CarryOne(heading, prefix, text);
    return sub + [Chunk(heading, prefix + [32] + text, prefix)];
  }

  lemma CarryOne(heading: bytes, prefix: bytes, body: bytes)
    ensures CarryAll(heading, prefix, [body]) == [Carry(heading, prefix, body)]
  {
  }

  /** What is out already plus what is still to come. */
  function Progress(heading: bytes, prefix: bytes, sub: seq<Chunk>, ss: seq<bytes>, i: nat, cur: bytes): seq<Chunk>
    requires i <= |ss|
  {
    sub + CarryAll(heading, prefix, Pack(prefix, ss, i, cur))
  }

  lemma ProgressFlush(heading: bytes, prefix: bytes, sub: seq<Chunk>, out: seq<bytes>, rest: seq<bytes>)
    ensures sub + CarryAll(heading, prefix, out + rest)
         == sub + CarryAll(heading, prefix, out) + CarryAll(heading, prefix, rest)
  {
    CarryAllConcat(heading, prefix, out, rest);
    Associative(sub, CarryAll(heading, prefix, out), CarryAll(heading, prefix, rest));
  }

  lemma ProgressHard(heading: bytes, prefix: bytes, sub: seq<Chunk>, ss: seq<bytes>, i: nat, cur: bytes)
    requires i < |ss| && Oversized(prefix, ss[i])
    ensures Progress(heading, prefix, sub, ss, i, cur)
         == Progress(heading, prefix,
                     sub + CarryAll(heading, prefix, Emit(cur))
                         + CarryAll(heading, prefix, HardBodies(ss[i], Budget(prefix))), ss, i + 1, [])
  {
    var hard, rest := HardBodies(ss[i], Budget(prefix)), Pack(prefix, ss, i + 1, []);
    ProgressFlush(heading, prefix, sub, Emit(cur) + hard, rest);
    ProgressFlush(heading, prefix, sub, Emit(cur), hard);
  }

  lemma ProgressFull(heading: bytes, prefix: bytes, sub: seq<Chunk>, ss: seq<bytes>, i: nat, cur: bytes)
    requires i < |ss| && !Oversized(prefix, ss[i]) && Overflows(prefix, cur, ss[i])
    ensures Progress(heading, prefix, sub, ss, i, cur)
         == Progress(heading, prefix, sub + CarryAll(heading, prefix, Emit(cur)), ss, i + 1, ss[i])
  {
    ProgressFlush(heading, prefix, sub, Emit(cur), Pack(prefix, ss, i + 1, ss[i]));
  }

  method SplitOne(c: Chunk) returns (sub: seq<Chunk>)
    ensures sub == SplitOneOf(c)
    ensures Carries(sub, c.heading, if c.prefix == [] then c.heading else c.prefix, SplitBodies(c))
  {
    AllCarried(c.heading, EffectivePrefix(c), SplitBodies(c));
    var prefix := c.prefix;
    if prefix == [] {
      prefix := c.heading;
    }
    var rest := c.text;
    if prefix != [] {
      rest := TrimPrefix(rest, prefix);
      rest := TrimSpace(rest);
    }
    var sentences := SplitSentences(rest);
    sub := [];
    NilUnits(SplitOneOf(c));
    var current: bytes := [];
    var prefixOverhead := |prefix| + 1;
    for i := 0 to |sentences|
      invariant SplitOneOf(c) == Progress(c.heading, prefix, sub, sentences, i, current)
    {
      var s := sentences[i];
      if prefixOverhead + |s| > MAX_CHUNK {
        ProgressHard(c.heading, prefix, sub, sentences, i, current);
        if |current| > 0 {
          sub := AppendChunk(sub, c.heading, prefix, current);
          current := [];
        } else {
          NilUnits(sub);
        }
        var pieces := HardSplitSentence(c.heading, prefix, s);
        sub := sub + pieces;
        continue;
      }
      if |current| > 0 && prefixOverhead + |current| + 1 + |s| > MAX_CHUNK {
        ProgressFull(c.heading, prefix, sub, sentences, i, current);
        sub := AppendChunk(sub, c.heading, prefix, current);
        current := [];
      }
      NilUnits(s);
      if |current| > 0 {
        current := current + [32];
      }
      current := current + s;
    }
    if |current| > 0 {
      sub := AppendChunk(sub, c.heading, prefix, current);
    } else {
      NilUnits(sub);
    }
  }

  lemma SplitLongStep(cs: seq<Chunk>, i: nat)
    requires i < |cs|
    ensures SplitLongOf(cs[i..])
         == (if |cs[i].text| <= MAX_CHUNK then [cs[i]] else SplitOneOf(cs[i])) + SplitLongOf(cs[i + 1..])
  {
  }

  method SplitLongChunks(chunks: seq<Chunk>) returns (out: seq<Chunk>)
    ensures out == SplitLongOf(chunks)
  {
    out := [];
    for i := 0 to |chunks|
      invariant SplitLongOf(chunks) == out + SplitLongOf(chunks[i..])
    {
      var c := chunks[i];
      ghost var rest := SplitLongOf(chunks[i + 1..]);
      SplitLongStep(chunks, i);
      if |c.text| <= MAX_CHUNK {
        Associative(out, [c], rest);
        out := out + [c];
        continue;
      }
      var sub := SplitOne(c);
      Associative(out, sub, rest);
      out := out + sub;
    }
  }
}

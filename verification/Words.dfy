/** What the splitter in internal/htmlx/chunk.go does to the words of an article: conservation of visible
    runes does not see where one word ends and the next begins, so here words are followed whole. */
module Words {
  import opened Seqs
  import opened Utf8
  import opened Whitespace
  import opened Sentences
  import opened HardSplit
  import opened SplitLong
  import opened Conservation
  import opened Headings

  // ---------- Words ----------

  function Close(word: bytes): seq<bytes> {
    if word == [] then [] else [word]
  }

  /** The words of `word + s`, when `word` is the beginning of one. */
  function WordsFrom(s: bytes, word: bytes): seq<bytes>
    decreases |s|
  {
    if s == [] then Close(word)
    else if LeadSpace(s) > 0 then Close(word) + WordsFrom(s[LeadSpace(s)..], [])
    else WordsFrom(s[DecodeWidth(s)..], word + s[..DecodeWidth(s)])
  }

  /** The maximal runs of runes that are not whitespace. */
  function Words(s: bytes): seq<bytes> {
    WordsFrom(s, [])
  }

  function WordsAll(parts: seq<bytes>): seq<bytes> {
    if parts == [] then [] else Words(parts[0]) + WordsAll(parts[1..])
  }

  lemma {:induction false} WordsAllConcat(a: seq<bytes>, b: seq<bytes>)
    ensures WordsAll(a + b) == WordsAll(a) + WordsAll(b)
  {
    if a == [] {
      assert a + b == b;
    } else {
      assert (a + b)[1..] == a[1..] + b;
      WordsAllConcat(a[1..], b);
    }
  }

  lemma WordsOne(x: bytes)
    ensures WordsAll([x]) == Words(x)
  {
    assert WordsAll([x]) == Words(x) + WordsAll([]);
  }

  /** A whitespace rune separates the words in front of it from those behind. */
  lemma {:induction false} Separated(a: bytes, w: bytes, b: bytes, word: bytes)
    requires Valid(a) && IsSpaceRune(w)
    ensures WordsFrom(a + (w + b), word) == WordsFrom(a, word) + Words(b)
    decreases |a|
  {
    var rest := w + b;
    if a == [] {
      LeadingSpaceRune(w, b);
      assert a + rest == rest && rest[|w|..] == b;
    } else {
      var n := Need(a[0]);
      RuneAtExtends(a, rest);
      if LeadSpace(a) > 0 {
        Separated(a[n..], w, b, []);
        Associative(Close(word), WordsFrom(a[n..], []), Words(b));
      } else {
        assert (a + rest)[..n] == a[..n];
        Separated(a[n..], w, b, word + a[..n]);
      }
    }
  }

  lemma SpaceInFront(w: bytes, b: bytes)
    requires IsSpaceRune(w)
    ensures Words(w + b) == Words(b)
  {
    Separated([], w, b, []);
    assert [] + (w + b) == w + b;
    NilUnits(Words(b));
  }

  lemma SpaceBehind(a: bytes, w: bytes)
    requires Valid(a) && IsSpaceRune(w)
    ensures Words(a + w) == Words(a)
  {
    Separated(a, w, [], []);
    NilUnits(w);
    NilUnits(Words(a));
  }

  lemma {:induction false} TrimKeepsWords(s: bytes)
    requires Valid(s)
    ensures Valid(TrimSpace(s)) && Words(TrimSpace(s)) == Words(s)
    decreases |s|
  {
    if LeadSpace(s) > 0 {
      TrimKeepsWords(s[LeadSpace(s)..]);
      NilUnits(Words(s[LeadSpace(s)..]));
    } else if TailSpace(s) > 0 {
      var u, w := SplitTail(s);
      ValidSplitTail(u, w);
      SpaceBehind(u, w);
      TrimKeepsWords(u);
    }
  }

  lemma ValidSplitTail(u: bytes, w: bytes)
    requires Valid(u + w) && IsSpaceRune(w)
    ensures Valid(u)
  {
    ValidSplit(u + w, |u|);
    assert (u + w)[..|u|] == u;
  }

  lemma BlankBetween(a: bytes, b: bytes)
    requires Valid(a) && Valid(b)
    ensures Valid(a + [32] + b) && Words(a + [32] + b) == Words(a) + Words(b)
  {
    AddBlank(a, b);
    var blank: bytes := [32];
    assert IsSpaceRune(blank);
    Separated(a, blank, b, []);
    Associative(a, blank, b);
  }

  lemma {:induction false} WordsOfJoin(parts: seq<bytes>)
    requires AllValid(parts)
    ensures Valid(Join(parts)) && Words(Join(parts)) == WordsAll(parts)
  {
    if |parts| == 1 {
      WordsOne(parts[0]);
      assert parts == [parts[0]];
    } else if |parts| > 1 {
      WordsOfJoin(parts[1..]);
      BlankBetween(parts[0], Join(parts[1..]));
    }
  }

  // ---------- Sentences ----------

  /** Behind a blank a new word starts. */
  lemma BehindBlank(u: bytes, b: byte, y: bytes)
    requires Valid(u + [b]) && ReSpace(b)
    ensures Words((u + [b]) + y) == Words(u + [b]) + Words(y)
  {
    ValidSplitTail(u, [b]);
    Separated(u, [b], y, []);
    SpaceBehind(u, [b]);
    Associative(u, [b], y);
  }

  lemma FirstPieceEnds(text: bytes, start: nat)
    requires start <= |text| && NextMatch(text, start) < |text|
    ensures var e := SpaceRun(text, NextMatch(text, start) + 1);
      start < e && ReSpace(text[start..e][e - start - 1])
  {
    var i := NextMatch(text, start);
    SpaceRunIsMaximal(text, i + 1);
    assert SpaceRun(text, i + 1) > i + 1;
  }

  lemma {:induction false} WordsOfPieces(text: bytes, start: nat)
    requires Valid(text) && Boundary(text, start)
    ensures WordsAll(Pieces(text, start)) == Words(text[start..])
    decreases |text| - start
  {
    if NextMatch(text, start) == |text| {
      LastPiece(text, start);
      WordsOne(text[start..]);
    } else {
      var e := SpaceRun(text, NextMatch(text, start) + 1);
      FirstPieceValid(text, start, NextMatch(text, start), e);
      FirstPieceWords(text, start, e);
      WordsOfPieces(text, e);
      PiecesStep(text, start);
      WordsAllConcat([text[start..e]], Pieces(text, e));
      WordsOne(text[start..e]);
    }
  }

  lemma FirstPieceWords(text: bytes, start: nat, e: nat)
    requires start <= |text| && NextMatch(text, start) < |text| && e == SpaceRun(text, NextMatch(text, start) + 1)
    requires Valid(text[start..e])
    ensures Words(text[start..]) == Words(text[start..e]) + Words(text[e..])
  {
    FirstPieceEnds(text, start);
    LastApart(text, start, e);
    BehindBlank(text[start..e - 1], text[e - 1], text[e..]);
    Rejoin(text, start, e);
  }

  lemma LastApart(text: bytes, a: nat, b: nat)
    requires a < b <= |text|
    ensures text[a..b - 1] + [text[b - 1]] == text[a..b] && text[a..b][b - a - 1] == text[b - 1]
  {
  }

  lemma {:induction false} TrimPiecesKeepWords(ps: seq<bytes>)
    requires ps != [] && AllValid(ps)
    ensures WordsAll(TrimPieces(ps)) == WordsAll(ps)
  {
    TrimKeepsWords(ps[0]);
    if |ps| > 1 {
      TrimPiecesKeepWords(ps[1..]);
    } else {
      assert ps == [ps[0]];
      WordsOne(ps[0]);
      WordsOne(TrimSpace(ps[0]));
    }
  }

  /** Splitting into sentences cuts no word. */
  lemma SentencesKeepWords(text: bytes)
    requires Valid(text)
    ensures AllValid(SentencesOf(text)) && WordsAll(SentencesOf(text)) == Words(text)
  {
    SentencesKeepInk(text);
    if NextMatch(text, 0) == |text| {
      WordsOne(text);
    } else {
      PiecesValid(text, 0);
      WordsOfPieces(text, 0);
      TrimPiecesKeepWords(Pieces(text, 0));
      assert text[0..] == text;
    }
  }

  // ---------- Packing ----------

  lemma EmitWords(cur: bytes)
    requires Valid(cur)
    ensures WordsAll(Emit(cur)) == Words(cur)
  {
    TrimKeepsWords(cur);
    WordsOne(TrimSpace(cur));
  }

  lemma ExtendWords(cur: bytes, s: bytes)
    requires Valid(cur) && Valid(s)
    ensures Valid(Extend(cur, s)) && Words(Extend(cur, s)) == Words(cur) + Words(s)
  {
    if |cur| > 0 {
      BlankBetween(cur, s);
    } else {
      NilUnits(Words(s));
    }
  }

  /** The words of the sentences from `i` on, where an oversized one counts as the pieces it is cut into. */
  function WordsAfterCuts(prefix: bytes, ss: seq<bytes>, i: nat): seq<bytes>
    requires i <= |ss|
    decreases |ss| - i
  {
    if i == |ss| then []
    else
      (if |prefix| + 1 + |ss[i]| > MAX_CHUNK then WordsAll(HardBodies(ss[i], Budget(prefix))) else Words(ss[i]))
      + WordsAfterCuts(prefix, ss, i + 1)
  }

  lemma WordsOfThree(a: seq<bytes>, b: seq<bytes>, c: seq<bytes>)
    ensures WordsAll(a + b + c) == WordsAll(a) + (WordsAll(b) + WordsAll(c))
  {
    WordsAllConcat(a + b, c);
    WordsAllConcat(a, b);
    Associative(WordsAll(a), WordsAll(b), WordsAll(c));
  }

  /** Packing cuts no word: from any state of the loop the bodies hold the words of the builder, those of
      the ordinary sentences and those of the hard-split pieces, whole and in order. */
  lemma {:induction false} PackKeepsWords(prefix: bytes, ss: seq<bytes>, i: nat, cur: bytes)
    requires i <= |ss| && AllValid(ss) && Valid(cur)
    ensures WordsAll(Pack(prefix, ss, i, cur)) == Words(cur) + WordsAfterCuts(prefix, ss, i)
    decreases |ss| - i
  {
    EmitWords(cur);
    if i == |ss| {
      NilUnits(Words(cur));
    } else if Oversized(prefix, ss[i]) {
      PackKeepsWords(prefix, ss, i + 1, []);
      NilUnits(WordsAfterCuts(prefix, ss, i + 1));
      WordsOfThree(Emit(cur), HardBodies(ss[i], Budget(prefix)), Pack(prefix, ss, i + 1, []));
    } else if Overflows(prefix, cur, ss[i]) {
      PackKeepsWords(prefix, ss, i + 1, ss[i]);
      WordsAllConcat(Emit(cur), Pack(prefix, ss, i + 1, ss[i]));
    } else {
      ExtendWords(cur, ss[i]);
      PackKeepsWords(prefix, ss, i + 1, Extend(cur, ss[i]));
      Associative(Words(cur), Words(ss[i]), WordsAfterCuts(prefix, ss, i + 1));
    }
  }

  /** Each sentence fits behind the prefix in 6000 bytes, with one blank between. */
  ghost predicate NoneCut(prefix: bytes, ss: seq<bytes>) {
    forall i :: 0 <= i < |ss| ==> |prefix| + 1 + |ss[i]| <= 6000
  }

  lemma {:induction false} NoCuts(prefix: bytes, ss: seq<bytes>, i: nat)
    requires i <= |ss| && NoneCut(prefix, ss)
    ensures WordsAfterCuts(prefix, ss, i) == WordsAll(ss[i..])
    decreases |ss| - i
  {
    if i < |ss| {
      NoCuts(prefix, ss, i + 1);
    }
  }

  /** So the sub-chunks hold the words of the body, whole and in order, unless a sentence is hard-split. */
  lemma SplitOneKeepsWords(c: Chunk)
    requires Valid(c.text) && Valid(EffectivePrefix(c)) && NoneCut(EffectivePrefix(c), SentencesOf(Body(c)))
    ensures WordsAll(SplitBodies(c)) == Words(Body(c))
  {
    var p, ss := EffectivePrefix(c), SentencesOf(Body(c));
    BodyValid(c);
    SentencesKeepWords(Body(c));
    PackKeepsWords(p, ss, 0, []);
    NoCuts(p, ss, 0);
    assert ss[0..] == ss;
    NilUnits(WordsAll(ss));
  }

  // ---------- Words under their headings ----------

  function TagWords(heading: bytes, words: seq<bytes>): seq<(bytes, bytes)> {
    seq(|words|, i requires 0 <= i < |words| => (heading, words[i]))
  }

  lemma TagWordsConcat(heading: bytes, a: seq<bytes>, b: seq<bytes>)
    ensures TagWords(heading, a + b) == TagWords(heading, a) + TagWords(heading, b)
  {
  }

  /** The words of the bodies, in order, each with the heading of its chunk. */
  function TaggedWords(cs: seq<Chunk>): seq<(bytes, bytes)> {
    if cs == [] then [] else TagWords(cs[0].heading, Words(Body(cs[0]))) + TaggedWords(cs[1..])
  }

  lemma {:induction false} TaggedWordsConcat(a: seq<Chunk>, b: seq<Chunk>)
    ensures TaggedWords(a + b) == TaggedWords(a) + TaggedWords(b)
  {
    if a == [] {
      assert a + b == b;
    } else {
      assert (a + b)[1..] == a[1..] + b;
      TaggedWordsConcat(a[1..], b);
    }
  }

  lemma WordsOfCarried(heading: bytes, prefix: bytes, body: bytes)
    requires Valid(body) && (prefix == [] ==> heading == [])
    ensures Words(Body(Carry(heading, prefix, body))) == Words(body)
  {
    BodyOfCarried(heading, prefix, body);
    BlankFront(body);
    SpaceInFront([32], body);
    TrimKeepsWords([32] + body);
  }

  lemma {:induction false} CarriedWords(heading: bytes, prefix: bytes, bodies: seq<bytes>)
    requires AllValid(bodies) && (prefix == [] ==> heading == [])
    ensures TaggedWords(CarryAll(heading, prefix, bodies)) == TagWords(heading, WordsAll(bodies))
  {
    if bodies != [] {
      WordsOfCarried(heading, prefix, bodies[0]);
      CarriedWords(heading, prefix, bodies[1..]);
      TagWordsConcat(heading, Words(bodies[0]), WordsAll(bodies[1..]));
      assert CarryAll(heading, prefix, bodies)[1..] == CarryAll(heading, prefix, bodies[1..]);
    }
  }

  /** A chunk that is split is valid text, and none of its sentences is hard-split. */
  ghost predicate Uncut(c: Chunk) {
    |c.text| > 6000 ==>
      Valid(c.text) && Valid(EffectivePrefix(c)) && NoneCut(EffectivePrefix(c), SentencesOf(Body(c)))
  }

  lemma {:induction false} SplitLongKeepsWords(cs: seq<Chunk>)
    requires forall i :: 0 <= i < |cs| ==> Uncut(cs[i])
    ensures TaggedWords(SplitLongOf(cs)) == TaggedWords(cs)
  {
    if cs != [] {
      var c := cs[0];
      SplitLongKeepsWords(cs[1..]);
      if |c.text| <= MAX_CHUNK {
        TaggedWordsConcat([c], SplitLongOf(cs[1..]));
        assert TaggedWords([c]) == TagWords(c.heading, Words(Body(c))) + TaggedWords([]);
      } else {
        SplitOneKeepsInkIff(c);
        SplitOneKeepsWords(c);
        CarriedWords(c.heading, EffectivePrefix(c), SplitBodies(c));
        TaggedWordsConcat(SplitOneOf(c), SplitLongOf(cs[1..]));
      }
    }
  }

  // ---------- The walk over the headings ----------

  /** Reference: the words of the nodes, each under the heading last seen. */
  function NodeWords(heading: bytes, nodes: seq<Node>): seq<(bytes, bytes)>
    decreases |nodes|
  {
    if nodes == [] then [] else
    match nodes[0]
    case HeadingNode(t) => NodeWords(TrimSpace(t), nodes[1..])
    case OtherNode(t) => TagWords(heading, Words(t)) + NodeWords(heading, nodes[1..])
  }

  /** The words of the chunks, then those pending under the open heading. */
  function OwedWords(st: State): seq<(bytes, bytes)> {
    TaggedWords(st.chunks) + TagWords(st.heading, WordsAll(st.parts))
  }

  lemma FlushKeepsWords(title: bytes, st: State)
    requires StateValid(st)
    ensures WordsAll(Flushed(title, st).parts) == []
    ensures OwedWords(Flushed(title, st)) == OwedWords(st)
  {
    WordsOfJoin(st.parts);
    TrimKeepsWords(Join(st.parts));
    var text := TrimSpace(Join(st.parts));
    if text != [] {
      var c := Carry(st.heading, Context(title, st.heading), text);
      WordsOfCarried(st.heading, Context(title, st.heading), text);
      TaggedWordsConcat(st.chunks, [c]);
      assert TaggedWords([c]) == TagWords(st.heading, Words(text)) + TaggedWords([]);
      assert TagWords(st.heading, WordsAll([])) == [];
    } else {
      assert Words([]) == [];
    }
  }

  lemma VisitKeepsWords(title: bytes, st: State, nodes: seq<Node>)
    requires nodes != [] && StateValid(st) && Valid(nodes[0].text)
    ensures var next := Visited(title, st, nodes[0]);
      OwedWords(next) + NodeWords(next.heading, nodes[1..]) == OwedWords(st) + NodeWords(st.heading, nodes)
  {
    match nodes[0] {
      case HeadingNode(t) =>
        FlushKeepsWords(title, st);
        assert TagWords(st.heading, []) == [] && TagWords(TrimSpace(t), []) == [];
      case OtherNode(t) =>
        TrimKeepsWords(t);
        AppendWords(st, TrimSpace(t));
        Associative(OwedWords(st), TagWords(st.heading, Words(t)), NodeWords(st.heading, nodes[1..]));
        if TrimSpace(t) == [] {
          assert Words([]) == [] && TagWords(st.heading, []) == [];
          NilUnits(OwedWords(st));
        }
    }
  }

  lemma AppendWords(st: State, x: bytes)
    ensures OwedWords(st.(parts := st.parts + [x])) == OwedWords(st) + TagWords(st.heading, Words(x))
  {
    WordsAllConcat(st.parts, [x]);
    WordsOne(x);
    TagWordsConcat(st.heading, WordsAll(st.parts), Words(x));
    Associative(TaggedWords(st.chunks), TagWords(st.heading, WordsAll(st.parts)), TagWords(st.heading, Words(x)));
  }

  lemma {:induction false} WalkKeepsWords(title: bytes, st: State, nodes: seq<Node>)
    requires StateValid(st) && NodesValid(nodes)
    ensures TaggedWords(Walk(title, st, nodes).chunks) == OwedWords(st) + NodeWords(st.heading, nodes)
    decreases |nodes|
  {
    if nodes == [] {
      FlushKeepsWords(title, st);
      assert TagWords(Flushed(title, st).heading, []) == [];
      NilUnits(OwedWords(st));
    } else {
      VisitKeepsInk(title, st, nodes);
      VisitKeepsWords(title, st, nodes);
      WalkKeepsWords(title, Visited(title, st, nodes[0]), nodes[1..]);
    }
  }

  /** The flushed chunks hold the words of the nodes that are no headings, whole, in order, and each under
      its nearest preceding heading. */
  lemma HeadingsKeepWords(title: bytes, nodes: seq<Node>)
    requires NodesValid(nodes)
    ensures TaggedWords(HeadingChunks(title, nodes)) == NodeWords([], nodes)
  {
    var st := State([], [], []);
    WalkKeepsWords(title, st, nodes);
    assert OwedWords(st) == [];
    NilUnits(NodeWords([], nodes));
  }

  /** And so do the final chunks, unless a sentence is too long for any chunk. */
  lemma ArticleKeepsWords(title: bytes, nodes: seq<Node>, extracted: bytes)
    requires Valid(title) && NodesValid(nodes) && HasText(nodes)
    requires forall i :: 0 <= i < |HeadingChunks(title, nodes)| ==> Uncut(HeadingChunks(title, nodes)[i])
    ensures TaggedWords(SplitByHeadingsOf(title, nodes, extracted)) == NodeWords([], nodes)
  {
    FlushesIffText(title, nodes);
    HeadingsKeepWords(title, nodes);
    SplitLongKeepsWords(HeadingChunks(title, nodes));
  }
}

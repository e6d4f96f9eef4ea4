/** internal/htmlx/chunk.go, SplitByHeadings: one chunk per heading over the article's top-level
    nodes, then the long ones split. Parsing is left out: the nodes come with their text. */
module Headings {
  import opened Seqs
  import opened Utf8
  import opened Whitespace
  import opened HardSplit
  import opened SplitLong
  import opened Conservation

  /** A top-level node: an h1..h6 element, or anything else. */
  datatype Node = HeadingNode(text: bytes) | OtherNode(text: bytes)

  function Context(title: bytes, heading: bytes): bytes {
    if heading == [] then title else title + [32, '>' as int, 32] + heading
  }

  /** State captured by the flush closure. */
  datatype State = State(chunks: seq<Chunk>, heading: bytes, parts: seq<bytes>)

  function Flushed(title: bytes, st: State): State {
    if st.heading == [] && st.parts == [] then st else
    var text := TrimSpace(Join(st.parts));
    if text == [] then st
    else State(st.chunks + [Carry(st.heading, Context(title, st.heading), text)], st.heading, [])
  }

  function Visited(title: bytes, st: State, node: Node): State {
    match node
    case HeadingNode(t) => Flushed(title, st).(heading := TrimSpace(t))
    case OtherNode(t) =>
      if TrimSpace(t) == [] then st else st.(parts := st.parts + [TrimSpace(t)])
  }

  function Walk(title: bytes, st: State, nodes: seq<Node>): State
    decreases |nodes|
  {
    if nodes == [] then Flushed(title, st) else Walk(title, Visited(title, st, nodes[0]), nodes[1..])
  }

  function SingleChunk(title: bytes, extracted: bytes): seq<Chunk> {
    var clean := TrimSpace(extracted);
    if clean == [] then [] else SplitLongOf([Carry([], title, clean)])
  }

  function HeadingChunks(title: bytes, nodes: seq<Node>): seq<Chunk> {
    Walk(title, State([], [], []), nodes).chunks
  }

  function SplitByHeadingsOf(title: bytes, nodes: seq<Node>, extracted: bytes): seq<Chunk> {
    if HeadingChunks(title, nodes) == [] then SingleChunk(title, extracted)
    else SplitLongOf(HeadingChunks(title, nodes))
  }

  /** The walk over the nodes and the variables its flush closure updates. */
  class Splitter {
    const title: bytes
    var chunks: seq<Chunk>
    var currentHeading: bytes
    var currentParts: seq<bytes>

    constructor (title: bytes)
      ensures this.title == title && Now() == State([], [], [])
    {
      this.title := title;
      chunks, currentHeading, currentParts := [], [], [];
    }

    ghost function Now(): State
      reads this
    {
      State(chunks, currentHeading, currentParts)
    }

    method Flush()
      modifies this
      ensures Now() == Flushed(title, old(Now()))
    {
      if currentHeading == [] && |currentParts| == 0 {
        return;
      }
      var prefix := title;
      if currentHeading != [] {
        prefix := title + [32, '>' as int, 32] + currentHeading;
      }
      var text := TrimSpace(Join(currentParts));
      if text == [] {
        return;
      }
      chunks := chunks + [Chunk(currentHeading, prefix + [32] + text, prefix)];
      currentParts := [];
    }

    method Visit(node: Node)
      modifies this
      ensures Now() == Visited(title, old(Now()), node)
    {
      match node {
        case HeadingNode(t) =>
          Flush();
          currentHeading := TrimSpace(t);
        case OtherNode(t) =>
          var text := TrimSpace(t);
          if text != [] {
            currentParts := currentParts + [text];
          }
      }
    }
  }

  /** `parsed` is false when the document could not be read at all; `extracted` is its plain text. */
  method SplitByHeadings(title: bytes, parsed: bool, nodes: seq<Node>, extracted: bytes) returns (out: seq<Chunk>)
    ensures out == if parsed then SplitByHeadingsOf(title, nodes, extracted) else SingleChunk(title, extracted)
  {
    if !parsed {
      out := Single(title, extracted);
      return;
    }
    var s := new Splitter(title);
    for i := 0 to |nodes|
      invariant s.title == title
      invariant Walk(title, State([], [], []), nodes) == Walk(title, s.Now(), nodes[i..])
    {
      assert nodes[i..][0] == nodes[i] && nodes[i..][1..] == nodes[i + 1..];
      s.Visit(nodes[i]);
    }
    s.Flush();
    if |s.chunks| == 0 {
      out := Single(title, extracted);
      return;
    }
    out := SplitLongChunks(s.chunks);
  }

  method Single(title: bytes, extracted: bytes) returns (out: seq<Chunk>)
    ensures out == SingleChunk(title, extracted)
  {
    var clean := TrimSpace(extracted);
    if clean == [] {
      return [];
    }
    out := SplitLongChunks([Chunk([], title + [32] + clean, title)]);
  }

  // ---------- Every text ends up under its nearest preceding heading ----------

  /** Reference: the visible text of the nodes, each byte under the heading last seen. */
  function NodeInk(heading: bytes, nodes: seq<Node>): seq<(bytes, byte)>
    decreases |nodes|
  {
    if nodes == [] then [] else
    match nodes[0]
    case HeadingNode(t) => NodeInk(TrimSpace(t), nodes[1..])
    case OtherNode(t) => Tag(heading, Ink(t)) + NodeInk(heading, nodes[1..])
  }

  ghost predicate NodesValid(nodes: seq<Node>) {
    forall i :: 0 <= i < |nodes| ==> Valid(nodes[i].text)
  }

  /** What a state has committed to: its chunks, then its pending parts under the open heading. */
  function Owed(st: State): seq<(bytes, byte)> {
    TaggedInk(st.chunks) + Tag(st.heading, InkAll(st.parts))
  }

  ghost predicate StateValid(st: State) {
    Valid(st.heading) && AllValid(st.parts)
  }

  lemma JoinPending(st: State)
    requires StateValid(st)
    ensures var text := TrimSpace(Join(st.parts));
      Valid(text) && Ink(text) == InkAll(st.parts) && (text == [] <==> InkAll(st.parts) == [])
  {
    InkOfJoin(st.parts);
    TrimKeepsInk(Join(st.parts));
    TrimEmptyIffNoInk(Join(st.parts));
  }

  lemma FlushKeepsInk(title: bytes, st: State)
    requires StateValid(st)
    ensures StateValid(Flushed(title, st)) && InkAll(Flushed(title, st).parts) == []
    ensures Owed(Flushed(title, st)) == Owed(st)
  {
    JoinPending(st);
    var text := TrimSpace(Join(st.parts));
    if text != [] {
      var c := Carry(st.heading, Context(title, st.heading), text);
      InkOfCarried(st.heading, Context(title, st.heading), text);
      TaggedInkConcat(st.chunks, [c]);
      assert TaggedInk([c]) == Tag(st.heading, Ink(text)) + TaggedInk([]);
      assert Tag(st.heading, InkAll([])) == [];
    }
  }

  lemma VisitHeading(title: bytes, st: State, t: bytes)
    requires StateValid(st) && Valid(t)
    ensures StateValid(Visited(title, st, HeadingNode(t)))
    ensures Owed(Visited(title, st, HeadingNode(t))) == Owed(st)
  {
    FlushKeepsInk(title, st);
    TrimKeepsInk(t);
    assert Tag(st.heading, []) == [] && Tag(TrimSpace(t), []) == [];
  }

  lemma AppendPart(st: State, x: bytes)
    ensures Owed(st.(parts := st.parts + [x])) == Owed(st) + Tag(st.heading, Ink(x))
  {
    InkAllConcat(st.parts, [x]);
    assert InkAll([x]) == Ink(x) + InkAll([]) == Ink(x);
    TagConcat(st.heading, InkAll(st.parts), Ink(x));
    Associative(TaggedInk(st.chunks), Tag(st.heading, InkAll(st.parts)), Tag(st.heading, Ink(x)));
  }

  lemma VisitText(title: bytes, st: State, t: bytes)
    requires StateValid(st) && Valid(t)
    ensures StateValid(Visited(title, st, OtherNode(t)))
    ensures Owed(Visited(title, st, OtherNode(t))) == Owed(st) + Tag(st.heading, Ink(t))
  {
    TrimKeepsInk(t);
    TrimEmptyIffNoInk(t);
    AppendPart(st, TrimSpace(t));
  }

  lemma VisitKeepsInk(title: bytes, st: State, nodes: seq<Node>)
    requires nodes != [] && StateValid(st) && Valid(nodes[0].text)
    ensures var next := Visited(title, st, nodes[0]);
      && StateValid(next)
      && Owed(next) + NodeInk(next.heading, nodes[1..]) == Owed(st) + NodeInk(st.heading, nodes)
  {
    match nodes[0] {
      case HeadingNode(t) =>
        VisitHeading(title, st, t);
      case OtherNode(t) =>
        VisitText(title, st, t);
        Associative(Owed(st), Tag(st.heading, Ink(t)), NodeInk(st.heading, nodes[1..]));
    }
  }

  lemma {:induction false} WalkKeepsInk(title: bytes, st: State, nodes: seq<Node>)
    requires StateValid(st) && NodesValid(nodes)
    ensures TaggedInk(Walk(title, st, nodes).chunks) == Owed(st) + NodeInk(st.heading, nodes)
    decreases |nodes|
  {
    if nodes == [] {
      FlushKeepsInk(title, st);
      var f := Flushed(title, st);
      assert Tag(f.heading, []) == [];
      assert Owed(f) == TaggedInk(f.chunks);
    } else {
      VisitKeepsInk(title, st, nodes);
      WalkKeepsInk(title, Visited(title, st, nodes[0]), nodes[1..]);
    }
  }

  /** Every heading context in use leaves four bytes for a body. */
  ghost predicate ContextsFit(title: bytes, heading: bytes, nodes: seq<Node>) {
    && |Context(title, heading)| <= MAX_CHUNK - 5
    && forall i :: 0 <= i < |nodes| && nodes[i].HeadingNode? ==>
         |Context(title, TrimSpace(nodes[i].text))| <= MAX_CHUNK - 5
  }

  /** The flushed chunks can all be split without loss. */
  ghost predicate Ready(cs: seq<Chunk>) {
    forall i :: 0 <= i < |cs| ==> Splittable(cs[i])
  }

  lemma AsciiValid(s: bytes)
    requires s != [] && s[0] < 0x80 && Valid(s[1..])
    ensures Valid(s)
  {
  }

  lemma ContextValid(title: bytes, heading: bytes)
    requires Valid(title) && Valid(heading)
    ensures Valid(Context(title, heading))
  {
    if heading != [] {
      var sep: bytes := [32, '>' as int, 32];
      BlankValid();
      assert ['>' as int, 32][1..] == [32] && sep[1..] == ['>' as int, 32];
      AsciiValid(['>' as int, 32]);
      AsciiValid(sep);
      ValidConcat(title, sep);
      ValidConcat(title + sep, heading);
    }
  }

  lemma CarriedSplittable(title: bytes, heading: bytes, text: bytes)
    requires Valid(title) && Valid(heading) && Valid(text)
    requires |Context(title, heading)| <= MAX_CHUNK - 5
    ensures Splittable(Carry(heading, Context(title, heading), text))
  {
    ContextValid(title, heading);
    AddBlank(Context(title, heading), text);
  }

  lemma {:induction false} WalkReady(title: bytes, st: State, nodes: seq<Node>)
    requires Valid(title) && StateValid(st) && NodesValid(nodes)
    requires Ready(st.chunks) && ContextsFit(title, st.heading, nodes)
    ensures Ready(Walk(title, st, nodes).chunks)
    decreases |nodes|
  {
    JoinPending(st);
    CarriedSplittable(title, st.heading, TrimSpace(Join(st.parts)));
    assert Ready(Flushed(title, st).chunks);
    if nodes != [] {
      var next := Visited(title, st, nodes[0]);
      VisitKeepsInk(title, st, nodes);
      TrimKeepsInk(nodes[0].text);
      WalkReady(title, next, nodes[1..]);
    }
  }

  ghost predicate HasText(nodes: seq<Node>) {
    exists i :: 0 <= i < |nodes| && nodes[i].OtherNode? && Ink(nodes[i].text) != []
  }

  lemma {:induction false} TextMakesInk(heading: bytes, nodes: seq<Node>)
    ensures NodeInk(heading, nodes) != [] <==> HasText(nodes)
    decreases |nodes|
  {
    if nodes != [] {
      match nodes[0] {
        case HeadingNode(t) => TextMakesInk(TrimSpace(t), nodes[1..]);
        case OtherNode(t) =>
          TextMakesInk(heading, nodes[1..]);
          if Ink(t) != [] {
            assert Tag(heading, Ink(t)) != [];
          }
      }
      if HasText(nodes[1..]) {
        var i :| 0 <= i < |nodes| - 1 && nodes[1..][i].OtherNode? && Ink(nodes[1..][i].text) != [];
        assert nodes[i + 1] == nodes[1..][i];
      }
      if HasText(nodes) && !(nodes[0].OtherNode? && Ink(nodes[0].text) != []) {
        var i :| 0 <= i < |nodes| && nodes[i].OtherNode? && Ink(nodes[i].text) != [];
        assert nodes[1..][i - 1] == nodes[i];
      }
    }
  }

  ghost predicate AllInked(cs: seq<Chunk>) {
    forall i :: 0 <= i < |cs| ==> Ink(Body(cs[i])) != []
  }

  lemma FlushInked(title: bytes, st: State)
    requires StateValid(st) && AllInked(st.chunks)
    ensures AllInked(Flushed(title, st).chunks)
  {
    JoinPending(st);
    var text := TrimSpace(Join(st.parts));
    InkOfCarried(st.heading, Context(title, st.heading), text);
  }

  lemma {:induction false} WalkInked(title: bytes, st: State, nodes: seq<Node>)
    requires StateValid(st) && NodesValid(nodes) && AllInked(st.chunks)
    ensures AllInked(Walk(title, st, nodes).chunks)
    decreases |nodes|
  {
    FlushInked(title, st);
    if nodes != [] {
      VisitKeepsInk(title, st, nodes);
      WalkInked(title, Visited(title, st, nodes[0]), nodes[1..]);
    }
  }

  /** Chunks are flushed exactly when some node outside the headings has visible text, and then
      they hold all of it. */
  lemma FlushesIffText(title: bytes, nodes: seq<Node>)
    requires Valid(title) && NodesValid(nodes)
    ensures TaggedInk(HeadingChunks(title, nodes)) == NodeInk([], nodes)
    ensures HeadingChunks(title, nodes) != [] <==> HasText(nodes)
  {
    var st := State([], [], []);
    WalkKeepsInk(title, st, nodes);
    WalkInked(title, st, nodes);
    assert Owed(st) == [];
    TextMakesInk([], nodes);
    var cs := HeadingChunks(title, nodes);
    if cs != [] {
      assert Ink(Body(cs[0])) != [];
      assert Tag(cs[0].heading, Ink(Body(cs[0]))) != [];
    }
  }

  /** Whatever the headings and however long the sections: if the article has any text outside its
      headings, the final chunks hold exactly that visible text, rune for rune and in order, each
      under its nearest preceding heading. */
  lemma ArticleConserved(title: bytes, nodes: seq<Node>, extracted: bytes)
    requires Valid(title) && NodesValid(nodes) && ContextsFit(title, [], nodes) && HasText(nodes)
    ensures TaggedInk(SplitByHeadingsOf(title, nodes, extracted)) == NodeInk([], nodes)
    ensures UnderCap(SplitByHeadingsOf(title, nodes, extracted))
  {
    FlushesIffText(title, nodes);
    WalkReady(title, State([], [], []), nodes);
    SplitLongKeepsInk(HeadingChunks(title, nodes));
    SplitLongUnderCap(HeadingChunks(title, nodes));
  }

  // ---------- The context every chunk carries ----------

  /** `c` carries the title, and behind " > " its heading if it has one, then one blank and some text. */
  ghost predicate InContext(title: bytes, c: Chunk) {
    && c.prefix == (if c.heading == [] then title else title + [' ' as int, '>' as int, ' ' as int] + c.heading)
    && c.prefix + [' ' as int] <= c.text
  }

  ghost predicate AllInContext(title: bytes, cs: seq<Chunk>) {
    forall i :: 0 <= i < |cs| ==> InContext(title, cs[i])
  }

  lemma {:induction false} WalkInContext(title: bytes, st: State, nodes: seq<Node>)
    requires AllInContext(title, st.chunks)
    ensures AllInContext(title, Walk(title, st, nodes).chunks)
    decreases |nodes|
  {
    var text := TrimSpace(Join(st.parts));
    var p := Context(title, st.heading);
    assert p + [32] <= p + [32] + text;
    if nodes != [] {
      WalkInContext(title, Visited(title, st, nodes[0]), nodes[1..]);
    }
  }

  lemma SplitOneInContext(title: bytes, c: Chunk)
    requires InContext(title, c)
    ensures AllInContext(title, SplitOneOf(c))
  {
    AllCarried(c.heading, EffectivePrefix(c), SplitBodies(c));
    var cs, p := SplitOneOf(c), EffectivePrefix(c);
    forall i | 0 <= i < |cs|
      ensures InContext(title, cs[i])
    {
      assert cs[i].text == p + [32] + SplitBodies(c)[i];
      assert p + [32] <= cs[i].text;
    }
  }

  lemma {:induction false} SplitLongInContext(title: bytes, cs: seq<Chunk>)
    requires AllInContext(title, cs)
    ensures AllInContext(title, SplitLongOf(cs))
  {
    if cs != [] {
      SplitLongInContext(title, cs[1..]);
      SplitOneInContext(title, cs[0]);
    }
  }

  /** Every chunk of an article, split or not, carries its title and heading. */
  lemma ArticleInContext(title: bytes, nodes: seq<Node>, extracted: bytes)
    ensures AllInContext(title, SplitByHeadingsOf(title, nodes, extracted))
    ensures AllInContext(title, SingleChunk(title, extracted))
  {
    WalkInContext(title, State([], [], []), nodes);
    SplitLongInContext(title, HeadingChunks(title, nodes));
    var clean := TrimSpace(extracted);
    assert title + [32] <= title + [32] + clean;
    SplitLongInContext(title, [Carry([], title, clean)]);
  }

  // ---------- The fallback ----------

  /** An article without text outside its headings, or one that could not be parsed, comes out as the visible
      extracted text under no heading, within the cap; as nothing when there is none. */
  lemma FallbackConserved(title: bytes, nodes: seq<Node>, extracted: bytes)
    requires Valid(title) && Valid(extracted) && NodesValid(nodes) && |title| <= MAX_CHUNK - 5
    ensures TaggedInk(SingleChunk(title, extracted)) == Tag([], Ink(extracted))
    ensures UnderCap(SingleChunk(title, extracted))
    ensures !HasText(nodes) ==> SplitByHeadingsOf(title, nodes, extracted) == SingleChunk(title, extracted)
    ensures Ink(extracted) == [] <==> SingleChunk(title, extracted) == []
  {
    FlushesIffText(title, nodes);
    TrimKeepsInk(extracted);
    TrimEmptyIffNoInk(extracted);
    var clean := TrimSpace(extracted);
    if clean != [] {
      var c := Carry([], title, clean);
      AddBlank(title, clean);
      SplitLongKeepsInk([c]);
      SplitLongUnderCap([c]);
      InkOfCarried([], title, clean);
      assert TaggedInk([c]) == Tag([], Ink(clean)) + TaggedInk([]);
    }
  }
}

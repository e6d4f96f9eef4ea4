/** internal/corpus/publish.go with evidence.go: when a publish finds nothing to sync, over any number of
    publishes. Every render carries the second it was made in, and a sync never deletes a file. */
module Publishes {
  import opened Basics
  import opened CorpusSync
  import E = Evidence

  // ---------- The evidence index ----------

  const INDEX: Path := ["evidence", "index.md"]

  /** What the index is made of; every row starts with its newline. */
  datatype Index = Index(current: nat, superseded: nat, rows: string)

  function Digits(n: nat): string {
    if n < 10 then ["0123456789"[n]] else Digits(n / 10) + ["0123456789"[n % 10]]
  }

  /** buildEvidenceIndexMarkdown, for an index generated at `time`. */
  function IndexText(x: Index, time: string): Content {
    "# Evidence Index\n\n_Current records: " + (Digits(x.current)
    + (" \U{B7} superseded preserved: " + (Digits(x.superseded)
    + (" \U{B7} window: last 14 days. Generated " + (time
    + ("." + ("_\n\n| Published | Topic | Title | Players | Source |\n|---|---|---|---|---|" + (x.rows
    + "\n"))))))))
  }

  /** NowISO, to the second. */
  type Clock = int -> string

  ghost predicate Prints(iso: Clock) {
    && (forall t :: '.' !in iso(t))
    && (forall t, u :: iso(t) == iso(u) ==> t == u)
  }

  lemma CutFront(a: string, x: string, y: string)
    requires a + x == a + y
    ensures x == y
  {
    assert (a + x)[|a|..] == x && (a + y)[|a|..] == y;
  }

  lemma CutBack(x: string, y: string, a: string)
    requires x + a == y + a
    ensures x == y
  {
    assert |x| == |y| && (x + a)[..|x|] == x && (y + a)[..|y|] == y;
  }

  /** Where `c` is first. */
  function Place(s: string, c: char): nat {
    if s == [] || s[0] == c then 0 else 1 + Place(s[1..], c)
  }

  lemma {:induction false} PlaceBehind(a: string, x: string)
    requires x != [] && x[0] !in a
    ensures Place(a + x, x[0]) == |a|
  {
    if a == [] {
      assert a + x == x;
    } else {
      assert (a + x)[1..] == a[1..] + x;
      PlaceBehind(a[1..], x);
    }
  }

  /** Two texts that go on with the same character, which is new to them. */
  lemma CutBefore(a: string, x: string, b: string, y: string)
    requires x != [] && y != [] && x[0] == y[0] && x[0] !in a && x[0] !in b && a + x == b + y
    ensures a == b && x == y
  {
    PlaceBehind(a, x);
    PlaceBehind(b, y);
    assert (a + x)[..|a|] == a && (b + y)[..|b|] == b;
    CutFront(a, x, y);
  }

  lemma {:induction false} DigitsTell(m: nat, n: nat)
    requires Digits(m) == Digits(n)
    ensures m == n
  {
    DigitsAreDigits(m);
    DigitsAreDigits(n);
    if m >= 10 && n >= 10 {
      var a, b := Digits(m / 10), Digits(n / 10);
      assert Digits(m)[..|a|] == a && Digits(n)[..|b|] == b;
      assert Digits(m)[|a|] == "0123456789"[m % 10] && Digits(n)[|b|] == "0123456789"[n % 10];
      DigitsTell(m / 10, n / 10);
    }
  }

  lemma {:induction false} DigitsAreDigits(n: nat)
    ensures forall c :: c in Digits(n) ==> '0' <= c <= '9'
    ensures |Digits(n)| >= 1 && (n >= 10 ==> |Digits(n)| >= 2)
  {
    if n >= 10 {
      DigitsAreDigits(n / 10);
    }
  }

  /** The text of an index tells what it was made of and when. */
  lemma IndexReads(iso: Clock, x: Index, t: int, y: Index, u: int)
    requires Prints(iso) && IndexText(x, iso(t)) == IndexText(y, iso(u))
    ensures x == y && t == u
  {
    DigitsAreDigits(x.current);
    DigitsAreDigits(y.current);
    DigitsAreDigits(x.superseded);
    DigitsAreDigits(y.superseded);
    var end := "\n";
    var head := "_\n\n| Published | Topic | Title | Players | Source |\n|---|---|---|---|---|";
    var x6, y6 := x.rows + end, y.rows + end;
    var x5, y5 := "." + (head + x6), "." + (head + y6);
    var x4, y4 := iso(t) + x5, iso(u) + y5;
    var window := " \U{B7} window: last 14 days. Generated ";
    var x3, y3 := Digits(x.superseded) + (window + x4), Digits(y.superseded) + (window + y4);
    var preserved := " \U{B7} superseded preserved: ";
    var x1, y1 := Digits(x.current) + (preserved + x3), Digits(y.current) + (preserved + y3);
    CutFront("# Evidence Index\n\n_Current records: ", x1, y1);
    CutBefore(Digits(x.current), preserved + x3, Digits(y.current), preserved + y3);
    CutFront(preserved, x3, y3);
    CutBefore(Digits(x.superseded), window + x4, Digits(y.superseded), window + y4);
    CutFront(window, x4, y4);
    assert '.' !in iso(t) && '.' !in iso(u);
    CutBefore(iso(t), x5, iso(u), y5);
    CutFront(".", head + x6, head + y6);
    CutFront(head, x6, y6);
    CutBack(x.rows, y.rows, end);
    DigitsTell(x.current, y.current);
    DigitsTell(x.superseded, y.superseded);
  }

  function ToyClock(t: int): string {
    if t < 0 then "-" + Digits(0 - t) else Digits(t)
  }

  lemma ToyClockTells(t: int, u: int)
    ensures '.' !in ToyClock(t)
    ensures ToyClock(t) == ToyClock(u) ==> t == u
  {
    var m, n := if t < 0 then 0 - t else t, if u < 0 then 0 - u else u;
    DigitsAreDigits(m);
    DigitsAreDigits(n);
    if ToyClock(t) == ToyClock(u) {
      assert Digits(m)[0] in Digits(m) && Digits(n)[0] in Digits(n);
      assert t < 0 <==> ToyClock(t)[0] == '-';
      assert u < 0 <==> ToyClock(u)[0] == '-';
      if t < 0 {
        CutFront("-", Digits(m), Digits(n));
      }
      DigitsTell(m, n);
    }
  }

  /** The assumption about NowISO can be met. */
  lemma PrintsIsPossible()
    ensures Prints(ToyClock)
  {
    forall t, u
      ensures '.' !in ToyClock(t)
      ensures ToyClock(t) == ToyClock(u) ==> t == u
    {
      ToyClockTells(t, u);
    }
  }

  // ---------- Histories ----------

  /** One run that gets the lock. Its index, if one is rendered, is generated at `at`; an unlisted or
      unreadable file may make the comparison say changed; validation, the sync and a wish to publish let
      it through or not. The evidence of the run was queried at `asked` and loaded at `now`. */
  datatype Run = Run(
    asked: int,
    now: int,
    current: map<E.Id, E.Record>,
    prev: map<E.Id, E.Record>,
    staged: E.Dir,
    at: int,
    index: Option<Index>,
    render: Tree,
    doubt: bool,
    through: bool)

  /** What is in the corpus before the first publish was written by hand. */
  datatype History = Begun(corpus: Tree) | Then(before: History, run: Run)

  predicate Syncs(r: Run, corpus: Tree) {
    r.through && (r.doubt || Material(r.render, corpus))
  }

  function CorpusOf(h: History): Tree {
    match h
    case Begun(corpus) => corpus
    case Then(before, r) =>
      if Syncs(r, CorpusOf(before)) then Synced(r.render, CorpusOf(before)) else CorpusOf(before)
  }

  /** Every render has its own index, with its own date. */
  predicate Dated(iso: Clock, h: History) {
    match h
    case Begun(corpus) => INDEX !in corpus
    case Then(before, r) =>
      && Dated(iso, before)
      && (INDEX in r.render <==> r.index.Some?)
      && (r.index.Some? ==> r.render[INDEX] == IndexText(r.index.value, iso(r.at)))
  }

  // ---------- When a run finds nothing to sync ----------

  /** What the last synced run that rendered `p` made of it; before that, what was there. */
  function LastText(h: History, p: Path): Option<Content> {
    match h
    case Begun(corpus) => if p in corpus then Some(corpus[p]) else None
    case Then(before, r) =>
      if Syncs(r, CorpusOf(before)) && p in r.render then Some(r.render[p]) else LastText(before, p)
  }

  /** The last synced run that rendered an index. */
  function LastIndexed(h: History): Option<Run> {
    match h
    case Begun(_) => None
    case Then(before, r) => if Syncs(r, CorpusOf(before)) && r.index.Some? then Some(r) else LastIndexed(before)
  }

  lemma {:induction false} CorpusIsLastText(h: History, p: Path)
    requires IsSubstance(p)
    ensures LastText(h, p) == if p in CorpusOf(h) then Some(CorpusOf(h)[p]) else None
  {
    if h.Then? {
      CorpusIsLastText(h.before, p);
    }
  }

  lemma {:induction false} LastIndexIsLastText(iso: Clock, h: History)
    requires Dated(iso, h)
    ensures match LastIndexed(h)
            case None => LastText(h, INDEX).None?
            case Some(r) => r.index.Some? && LastText(h, INDEX) == Some(IndexText(r.index.value, iso(r.at)))
  {
    if h.Then? {
      LastIndexIsLastText(iso, h.before);
    }
  }

  /** The same index, generated in the same second, as in the last synced run that had one. */
  predicate SameIndex(h: History)
    requires h.Then?
  {
    match LastIndexed(h.before)
    case None => h.run.index.None?
    case Some(r) => h.run.index == r.index && h.run.at == r.at
  }

  /** Each other file of the render is as the last synced run that had it made it. */
  ghost predicate SameRest(h: History)
    requires h.Then?
  {
    forall p :: p in Substance(h.run.render) && p != INDEX ==> LastText(h.before, p) == Some(h.run.render[p])
  }

  /** Some file that a synced run rendered, or that was there before the first, is not in this render. */
  ghost predicate LeavesBehind(h: History)
    requires h.Then?
  {
    exists p :: IsSubstance(p) && LastText(h.before, p).Some? && p !in h.run.render
  }

  lemma IndexIsSubstance()
    ensures IsSubstance(INDEX)
  {
  }

  /** The render has `p` just as the last synced run that had it, or neither has it. */
  predicate AsCommitted(h: History, p: Path)
    requires h.Then?
  {
    LastText(h.before, p) == if p in h.run.render then Some(h.run.render[p]) else None
  }

  lemma AsCommittedIff(h: History)
    requires h.Then?
    ensures (forall p :: IsSubstance(p) ==> AsCommitted(h, p)) <==>
            AsCommitted(h, INDEX) && SameRest(h) && !LeavesBehind(h)
  {
    IndexIsSubstance();
    if AsCommitted(h, INDEX) && SameRest(h) && !LeavesBehind(h) {
      forall p | IsSubstance(p)
        ensures AsCommitted(h, p)
      {
        assert p in h.run.render ==> p in Substance(h.run.render);
      }
    }
  }

  lemma SameIndexIff(iso: Clock, h: History)
    requires Prints(iso) && Dated(iso, h) && h.Then?
    ensures SameIndex(h) <==> AsCommitted(h, INDEX)
  {
    LastIndexIsLastText(iso, h.before);
    var last := LastIndexed(h.before);
    if last.Some? && h.run.index.Some? && LastText(h.before, INDEX) == Some(h.run.render[INDEX]) {
      IndexReads(iso, last.value.index.value, last.value.at, h.run.index.value, h.run.at);
    }
  }

  lemma MaterialIff(h: History)
    requires h.Then?
    ensures !Material(h.run.render, CorpusOf(h.before)) <==> forall p :: IsSubstance(p) ==> AsCommitted(h, p)
  {
    var render, corpus := h.run.render, CorpusOf(h.before);
    forall p | IsSubstance(p)
      ensures LastText(h.before, p) == if p in corpus then Some(corpus[p]) else None
    {
      CorpusIsLastText(h.before, p);
    }
    if forall p :: IsSubstance(p) ==> AsCommitted(h, p) {
      assert forall p :: IsSubstance(p) ==> AsCommitted(h, p) && (p in render <==> p in corpus);
      assert Substance(render) == Substance(corpus);
    } else {
      var p :| IsSubstance(p) && !AsCommitted(h, p);
      assert p in Substance(render) <==> p in render;
      assert p in Substance(corpus) <==> p in corpus;
    }
  }

  /** A run finds nothing to sync exactly when its index is the last synced one, made in the same second,
      the rest of its substance files are as the last synced ones, and none of those ever synced is left
      behind. */
  lemma QuietIff(iso: Clock, h: History)
    requires Prints(iso) && Dated(iso, h) && h.Then?
    ensures !Material(h.run.render, CorpusOf(h.before)) <==> SameIndex(h) && SameRest(h) && !LeavesBehind(h)
  {
    MaterialIff(h);
    SameIndexIff(iso, h);
    AsCommittedIff(h);
  }

  /** Every run has an index, and not two of them one from the same second. */
  predicate Ticking(h: History) {
    h.Then? ==> Ticking(h.before) && h.run.index.Some? && (h.before.Then? ==> h.before.run.at < h.run.at)
  }

  lemma {:induction false} IndexedEarlier(h: History)
    requires Ticking(h) && LastIndexed(h).Some?
    ensures h.Then? && LastIndexed(h).value.at <= h.run.at
  {
    if LastIndexed(h) != Some(h.run) {
      IndexedEarlier(h.before);
    }
  }

  /** The comparison never holds a run back: from one second to the next every run is material. */
  lemma LaterIsMaterial(iso: Clock, h: History)
    requires Prints(iso) && Dated(iso, h) && Ticking(h) && h.Then?
    ensures Material(h.run.render, CorpusOf(h.before))
    ensures Syncs(h.run, CorpusOf(h.before)) <==> h.run.through
  {
    QuietIff(iso, h);
    if LastIndexed(h.before).Some? {
      IndexedEarlier(h.before);
    }
  }

  /** The corpus if nothing were ever compared. */
  function Uncompared(h: History): Tree {
    match h
    case Begun(corpus) => corpus
    case Then(before, r) => if r.through then Synced(r.render, Uncompared(before)) else Uncompared(before)
  }

  /** So it makes no difference: the corpus is what it would be without a comparison. */
  lemma {:induction false} ComparisonIsIdle(iso: Clock, h: History)
    requires Prints(iso) && Dated(iso, h) && Ticking(h)
    ensures CorpusOf(h) == Uncompared(h)
  {
    if h.Then? {
      ComparisonIsIdle(iso, h.before);
      LaterIsMaterial(iso, h);
    }
  }

  // ---------- With the evidence records ----------

  /** How a record is marshalled. */
  type Encoding = E.Record -> Content

  function RecordPath(name: E.Name): Path {
    ["evidence", "records", name]
  }

  /** The evidence side of the history. */
  function EvidenceOf(h: History): E.History {
    match h
    case Begun(_) => E.Nothing
    case Then(before, r) =>
      E.Publish(EvidenceOf(before), r.asked, r.now, r.current, r.prev, r.staged, Syncs(r, CorpusOf(before)))
  }

  /** The records under evidence/records of a tree are those of the directory. */
  ghost predicate Holds(enc: Encoding, tree: Tree, d: E.Dir) {
    forall name :: (name in d <==> RecordPath(name) in tree)
                   && (name in d ==> tree[RecordPath(name)] == enc(d[name]))
  }

  /** The index of a run counts its records. */
  predicate Counts(r: Run) {
    && r.index.Some?
    && r.index.value.current == |r.current|
    && r.index.value.superseded == |r.prev.Keys - r.current.Keys|
  }

  /** One run after the other, each of which renders its records and then an index of them. */
  ghost predicate Legal(enc: Encoding, h: History) {
    && E.Legal(EvidenceOf(h))
    && (h.Begun? ==> Holds(enc, h.corpus, map[]))
    && (h.Then? ==>
          && Legal(enc, h.before)
          && Holds(enc, h.run.render, h.run.staged) && Counts(h.run)
          && h.run.now <= h.run.at && (h.before.Then? ==> h.before.run.at <= h.run.asked))
  }

  /** Record files are copied by a sync: "corpus-manifest.json" is the only name that would not be. */
  lemma RecordsAreSubstance(name: E.Name)
    requires name !in SKIPPED_NAMES
    ensures IsSubstance(RecordPath(name))
  {
  }

  /** No hash is called like a bookkeeping file. */
  ghost predicate PlainNames(d: E.Dir) {
    forall name :: name in d ==> name !in SKIPPED_NAMES
  }

  ghost predicate AllPlain(h: History) {
    h.Then? ==> AllPlain(h.before) && PlainNames(h.run.staged)
  }

  lemma SyncHolds(enc: Encoding, render: Tree, staged: E.Dir, corpus: Tree, d: E.Dir)
    requires Holds(enc, render, staged) && Holds(enc, corpus, d) && PlainNames(staged)
    ensures Holds(enc, Synced(render, corpus), d + staged)
  {
    forall name
      ensures name in d + staged <==> RecordPath(name) in Synced(render, corpus)
      ensures name in d + staged ==> Synced(render, corpus)[RecordPath(name)] == enc((d + staged)[name])
    {
      if name in staged {
        RecordsAreSubstance(name);
      }
    }
  }

  /** The committed tree holds the committed records. */
  lemma {:induction false} CorpusHoldsEvidence(enc: Encoding, h: History)
    requires Legal(enc, h) && AllPlain(h)
    ensures Holds(enc, CorpusOf(h), E.CorpusOf(EvidenceOf(h)))
  {
    if h.Then? {
      CorpusHoldsEvidence(enc, h.before);
      if Syncs(h.run, CorpusOf(h.before)) {
        SyncHolds(enc, h.run.render, h.run.staged, CorpusOf(h.before), E.CorpusOf(EvidenceOf(h.before)));
      }
    }
  }

  predicate Extends(g: History, h: History) {
    g == h || (h.Then? && Extends(g, h.before))
  }

  predicate Unrendered(g: History, h: History, id: E.Id) {
    g == h || (h.Then? && id !in h.run.current && Unrendered(g, h.before, id))
  }

  lemma {:induction false} UnrenderedEvidence(g: History, h: History, id: E.Id)
    requires Unrendered(g, h, id)
    ensures E.Unrendered(EvidenceOf(g), EvidenceOf(h), id) && Extends(g, h)
    ensures g != h ==> EvidenceOf(g) != EvidenceOf(h)
  {
    if g != h {
      UnrenderedEvidence(g, h.before, id);
      EvidenceGrows(g, h.before);
    }
  }

  /** Number of publishes. */
  function Depth(h: E.History): nat {
    match h
    case Nothing => 0
    case Publish(before, _, _, _, _, _, _) => Depth(before) + 1
  }

  lemma {:induction false} EvidenceGrows(g: History, h: History)
    requires Extends(g, h)
    ensures Depth(EvidenceOf(g)) <= Depth(EvidenceOf(h))
  {
    if g != h {
      EvidenceGrows(g, h.before);
    }
  }

  /** From the day a committed record leaves the retention window, every publish that does not render it
      again leaves it behind: it is not staged, and a sync never deletes it. */
  lemma AgedOutIsLeftBehind(enc: Encoding, g: History, h: History, id: E.Id)
    requires Legal(enc, h) && AllPlain(h) && h.Then? && g != h && Unrendered(g, h, id)
    requires E.IsHashId(id) && E.FileName(id) in E.CorpusOf(EvidenceOf(g)) && E.FileName(id) !in SKIPPED_NAMES
    requires !E.Retained(E.CorpusOf(EvidenceOf(g))[E.FileName(id)], h.run.now)
    ensures LeavesBehind(h) && Material(h.run.render, CorpusOf(h.before))
  {
    UnrenderedEvidence(g, h, id);
    E.AgedOutIsNotStaged(EvidenceOf(g), EvidenceOf(h), id);
    UnrenderedEvidence(g, h.before, id);
    E.PublishedStays(EvidenceOf(g), EvidenceOf(h.before), id);
    CorpusHoldsEvidence(enc, h.before);
    var p := RecordPath(E.FileName(id));
    RecordsAreSubstance(E.FileName(id));
    CorpusIsLastText(h.before, p);
    assert p in Substance(CorpusOf(h.before)) && p !in Substance(h.run.render);
  }

  // ---------- Statuses ----------

  function LastThrough(h: History): Option<Run> {
    match h
    case Begun(_) => None
    case Then(before, r) => if r.through then Some(r) else LastThrough(before)
  }

  /** No 76 days pass between two runs that are let through. */
  predicate Punctual(h: History) {
    h.Then? ==>
      && Punctual(h.before)
      && (h.run.through && LastThrough(h.before).Some? ==>
            h.run.now - LastThrough(h.before).value.asked <= E.RETENTION - E.WINDOW)
  }

  lemma {:induction false} ThroughIsSynced(iso: Clock, h: History)
    requires Prints(iso) && Dated(iso, h) && Ticking(h)
    ensures E.LastAsked(EvidenceOf(h)) == if LastThrough(h).Some? then Some(LastThrough(h).value.asked) else None
    ensures Punctual(h) ==> E.Regular(EvidenceOf(h))
  {
    if h.Then? {
      ThroughIsSynced(iso, h.before);
      LaterIsMaterial(iso, h);
    }
  }

  /** As every run that is let through syncs, the statuses in the corpus are right as long as such runs come
      at least every 76 days. */
  lemma PunctualIsTruthful(iso: Clock, enc: Encoding, h: History)
    requires Prints(iso) && Dated(iso, h) && Legal(enc, h) && Ticking(h) && Punctual(h)
    ensures E.Truthful(EvidenceOf(h))
  {
    ThroughIsSynced(iso, h);
    E.RegularIsTruthful(EvidenceOf(h));
  }

  // ---------- It happens ----------

  function Rendered(iso: Clock, enc: Encoding, d: E.Dir, id: E.Id, x: Index, t: int): Tree {
    var name := E.FileName(id);
    var records: Tree := if name in d then map[RecordPath(name) := enc(d[name])] else map[];
    records[INDEX := IndexText(x, iso(t))]
  }

  /** A run at time `t`, one second long at most, that renders the one record `id`. */
  function Show(iso: Clock, enc: Encoding, id: E.Id, prev: map<E.Id, E.Record>, t: int): Run {
    var current, staged := map[id := E.Sample(id)], map[E.FileName(id) := E.Sample(id)];
    var x := Index(1, 0, "\n| 1970-01-01 | | | | |");
    Run(t, t, current, prev, staged, t, Some(x), Rendered(iso, enc, staged, id, x, t), false, true)
  }

  function First(iso: Clock, enc: Encoding, id: E.Id): History {
    Then(Begun(map[]), Show(iso, enc, id, map[], 0))
  }

  function Again(iso: Clock, enc: Encoding, h: History, id: E.Id, t: int): History {
    Then(h, Show(iso, enc, id, map[id := E.Sample(id)], t))
  }

  lemma OneRecordHeld(iso: Clock, enc: Encoding, d: E.Dir, id: E.Id, x: Index, t: int)
    requires d.Keys <= {E.FileName(id)}
    ensures Holds(enc, Rendered(iso, enc, d, id, x, t), d)
  {
    forall name
      ensures name in d <==> RecordPath(name) in Rendered(iso, enc, d, id, x, t)
    {
      assert RecordPath(name)[2] == name;
      assert RecordPath(name)[1] != INDEX[1];
    }
  }

  ghost predicate Fine(iso: Clock, enc: Encoding, h: History) {
    Dated(iso, h) && Legal(enc, h) && AllPlain(h)
  }

  /** The corpus holds the record and an index of the second `t`. */
  predicate Shows(iso: Clock, enc: Encoding, h: History, id: E.Id, t: int) {
    && E.CorpusOf(EvidenceOf(h)) == map[E.FileName(id) := E.Sample(id)]
    && CorpusOf(h) == Show(iso, enc, id, map[], t).render
  }

  lemma ShowIsCopied(iso: Clock, enc: Encoding, id: E.Id, prev: map<E.Id, E.Record>, t: int, corpus: Tree)
    requires E.FileName(id) !in SKIPPED_NAMES
    requires forall p :: p in corpus ==> p == RecordPath(E.FileName(id)) || p == INDEX
    ensures var render := Show(iso, enc, id, prev, t).render;
      Substance(render) == render && Synced(render, corpus) == render && Substance(corpus) == corpus
  {
    RecordsAreSubstance(E.FileName(id));
    IndexIsSubstance();
    var render := Show(iso, enc, id, prev, t).render;
    assert render.Keys == {RecordPath(E.FileName(id)), INDEX};
    AllSubstance(render);
    AllSubstance(corpus);
    assert corpus + render == render;
  }

  lemma AllSubstance(tree: Tree)
    requires forall p :: p in tree ==> IsSubstance(p)
    ensures Substance(tree) == tree && Outgoing(tree) == tree
  {
  }

  /** Apart from the index the render does not depend on the time. */
  lemma ShowIsDatedInIndex(iso: Clock, enc: Encoding, id: E.Id, t: int, u: int)
    ensures Show(iso, enc, id, map[], t).render - {INDEX} == Show(iso, enc, id, map[], u).render - {INDEX}
  {
  }

  lemma FirstIsFine(iso: Clock, enc: Encoding, id: E.Id)
    requires E.IsHashId(id) && E.FileName(id) !in SKIPPED_NAMES
    ensures var h := First(iso, enc, id);
      Fine(iso, enc, h) && Syncs(h.run, CorpusOf(Begun(map[]))) && Shows(iso, enc, h, id, 0)
  {
    var r := Show(iso, enc, id, map[], 0);
    E.FirstPublishLegal(id);
    FirstSyncs(iso, enc, id);
    assert EvidenceOf(First(iso, enc, id)) == E.FirstPublish(id);
    ShowFits(iso, enc, id, map[], 0);
    FineStep(iso, enc, Begun(map[]), r);
  }

  lemma FirstSyncs(iso: Clock, enc: Encoding, id: E.Id)
    requires E.FileName(id) !in SKIPPED_NAMES
    ensures var r := Show(iso, enc, id, map[], 0);
      Syncs(r, map[]) && Synced(r.render, map[]) == r.render
  {
    ShowIsCopied(iso, enc, id, map[], 0, map[]);
    assert INDEX in Show(iso, enc, id, map[], 0).render;
  }

  /** What a run adds to a fine history. */
  ghost predicate Fits(iso: Clock, enc: Encoding, r: Run) {
    && Holds(enc, r.render, r.staged) && Counts(r) && PlainNames(r.staged)
    && INDEX in r.render && r.render[INDEX] == IndexText(r.index.value, iso(r.at))
    && r.now <= r.at
  }

  lemma FineStep(iso: Clock, enc: Encoding, h: History, r: Run)
    requires Fine(iso, enc, h) && E.Legal(EvidenceOf(Then(h, r)))
    requires Fits(iso, enc, r) && (h.Then? ==> h.run.at <= r.asked)
    ensures Fine(iso, enc, Then(h, r))
  {
  }

  lemma ShowFits(iso: Clock, enc: Encoding, id: E.Id, prev: map<E.Id, E.Record>, t: int)
    requires E.FileName(id) !in SKIPPED_NAMES && prev.Keys <= {id}
    ensures Fits(iso, enc, Show(iso, enc, id, prev, t))
  {
    var r := Show(iso, enc, id, prev, t);
    OneRecordHeld(iso, enc, r.staged, id, r.index.value, t);
    ShowCounts(iso, enc, id, prev, t);
  }

  lemma ShowCounts(iso: Clock, enc: Encoding, id: E.Id, prev: map<E.Id, E.Record>, t: int)
    requires prev.Keys <= {id}
    ensures Counts(Show(iso, enc, id, prev, t))
  {
    var r := Show(iso, enc, id, prev, t);
    assert r.current.Keys == {id} && |r.current| == |r.current.Keys|;
    assert r.prev.Keys - r.current.Keys == {};
  }

  lemma AgainIsLegal(iso: Clock, enc: Encoding, h: History, id: E.Id, t: int)
    requires E.IsHashId(id) && E.Legal(EvidenceOf(h)) && h.Then? && h.run.now <= t && 0 <= t <= E.WINDOW
    requires E.CorpusOf(EvidenceOf(h)) == map[E.FileName(id) := E.Sample(id)]
    ensures var g := EvidenceOf(Again(iso, enc, h, id, t));
      E.Legal(g) && E.CorpusOf(g) == E.CorpusOf(EvidenceOf(h))
  {
    var synced := Syncs(Again(iso, enc, h, id, t).run, CorpusOf(h));
    assert EvidenceOf(Again(iso, enc, h, id, t)) == E.Repeated(EvidenceOf(h), id, t, synced);
    E.RepeatedLegal(EvidenceOf(h), id, t, synced);
    E.RepeatedCorpus(EvidenceOf(h), id, t, synced);
  }

  /** Showing the same record once more is fine, and syncs exactly when a second has passed. */
  lemma AgainIsFine(iso: Clock, enc: Encoding, h: History, id: E.Id, u: int, t: int)
    requires Prints(iso) && E.IsHashId(id) && E.FileName(id) !in SKIPPED_NAMES
    requires Fine(iso, enc, h) && Shows(iso, enc, h, id, u)
    requires h.Then? && h.run.now <= h.run.at <= t && 0 <= t <= E.WINDOW
    ensures var g := Again(iso, enc, h, id, t);
      Fine(iso, enc, g) && Shows(iso, enc, g, id, t) && (Syncs(g.run, CorpusOf(h)) <==> t != u)
  {
    var r := Show(iso, enc, id, map[id := E.Sample(id)], t);
    AgainShows(iso, enc, h, id, u, t);
    AgainIsLegal(iso, enc, h, id, t);
    ShowFits(iso, enc, id, r.prev, t);
    FineStep(iso, enc, h, r);
  }

  lemma AgainShows(iso: Clock, enc: Encoding, h: History, id: E.Id, u: int, t: int)
    requires Prints(iso) && E.FileName(id) !in SKIPPED_NAMES
    requires CorpusOf(h) == Show(iso, enc, id, map[], u).render
    ensures var g := Again(iso, enc, h, id, t);
      (Syncs(g.run, CorpusOf(h)) <==> t != u) && CorpusOf(g) == Show(iso, enc, id, map[], t).render
  {
    AgainSyncsIff(iso, enc, CorpusOf(h), id, u, t);
  }

  lemma AgainSyncsIff(iso: Clock, enc: Encoding, corpus: Tree, id: E.Id, u: int, t: int)
    requires Prints(iso) && E.FileName(id) !in SKIPPED_NAMES
    requires corpus == Show(iso, enc, id, map[], u).render
    ensures var r := Show(iso, enc, id, map[id := E.Sample(id)], t);
      (Syncs(r, corpus) <==> t != u) && Synced(r.render, corpus) == r.render
  {
    var r := Show(iso, enc, id, map[id := E.Sample(id)], t);
    ShowIsCopied(iso, enc, id, r.prev, t, corpus);
    var x := r.index.value;
    assert r.render[INDEX] == IndexText(x, iso(t)) && corpus[INDEX] == IndexText(x, iso(u));
    if IndexText(x, iso(t)) == IndexText(x, iso(u)) {
      IndexReads(iso, x, t, x, u);
    }
  }

  /** Two runs one second apart whose renders differ in nothing but that second: both sync. A third in the
      same second as the second does not. */
  lemma UnchangedContentSyncsAgain(iso: Clock, enc: Encoding, id: E.Id)
    requires Prints(iso) && E.IsHashId(id) && E.FileName(id) !in SKIPPED_NAMES
    ensures var g := First(iso, enc, id);
      var h := Again(iso, enc, g, id, 1);
      var k := Again(iso, enc, h, id, 1);
      && Fine(iso, enc, k)
      && h.run.index == g.run.index && h.run.render - {INDEX} == g.run.render - {INDEX}
      && Syncs(g.run, CorpusOf(Begun(map[]))) && Syncs(h.run, CorpusOf(g)) && !Syncs(k.run, CorpusOf(h))
  {
    var g := First(iso, enc, id);
    FirstIsFine(iso, enc, id);
    AgainIsFine(iso, enc, g, id, 0, 1);
    var h := Again(iso, enc, g, id, 1);
    AgainIsFine(iso, enc, h, id, 1, 1);
    ShowIsDatedInIndex(iso, enc, id, 0, 1);
  }

  /** Ninety-one days in seconds. */
  const LATE: int := 91 * 24 * 3600

  /** A run at that time that finds nothing to render but an empty index. */
  function Later(iso: Clock, enc: Encoding, h: History, id: E.Id): History {
    var x := Index(0, 0, "");
    Then(h, Run(LATE, LATE, map[], map[], map[], LATE, Some(x), Rendered(iso, enc, map[], id, x, LATE), false, true))
  }

  lemma LaterIsFine(iso: Clock, enc: Encoding, h: History, id: E.Id)
    requires Fine(iso, enc, h) && h.Then? && h.run.now <= h.run.at <= LATE
    requires E.Aged(E.CorpusOf(EvidenceOf(h)), LATE)
    ensures var g := Later(iso, enc, h, id);
      Fine(iso, enc, g) && E.CorpusOf(EvidenceOf(g)) == E.CorpusOf(EvidenceOf(h))
  {
    var g := Later(iso, enc, h, id);
    E.EmptyPublishLegal(EvidenceOf(h), LATE, Syncs(g.run, CorpusOf(h)));
    OneRecordHeld(iso, enc, map[], id, g.run.index.value, LATE);
    assert g.run.prev.Keys - g.run.current.Keys == {};
  }

  /** What is left behind tells even within one second: two runs with one and the same render, after a
      record has aged out, both sync. */
  lemma AgedOutSyncsAgain(iso: Clock, enc: Encoding, id: E.Id)
    requires E.IsHashId(id) && E.FileName(id) !in SKIPPED_NAMES
    ensures var g := Later(iso, enc, First(iso, enc, id), id);
      var h := Later(iso, enc, g, id);
      && Fine(iso, enc, h) && h.run.render == g.run.render && SameIndex(h)
      && Syncs(g.run, CorpusOf(g.before)) && Syncs(h.run, CorpusOf(g))
  {
    var f := First(iso, enc, id);
    FirstIsFine(iso, enc, id);
    LaterIsFine(iso, enc, f, id);
    var g := Later(iso, enc, f, id);
    LaterIsFine(iso, enc, g, id);
    AgedOutIsLeftBehind(enc, f, g, id);
    AgedOutIsLeftBehind(enc, f, Later(iso, enc, g, id), id);
  }
}

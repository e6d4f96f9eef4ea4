/** internal/pipeline/dedup.go: staged duplicate detection over the news_item table. The SQL queries
    are filters over a set of rows; which queries fail, and how rows are ordered, is left open. */
module Dedup {
  import opened Basics
  import Simhash

  const SIMHASH_THRESHOLD: nat := 3
  const COSINE_THRESHOLD: real := 0.88

  type Id = nat
  /** A chunk embedding; only distances between embeddings matter. */
  type Vector = nat
  type Metric = (Vector, Vector) -> real

  datatype Item = Item(
    source: nat,
    urlHash: Option<string>,
    simhash: Option<Simhash.int64>,
    vectors: seq<Vector>,
    createdAt: int)

  /** quality_score: -1, -0.5 and -0.3 mark duplicates, enrichment stores a non-negative quality. */
  datatype Score = ExactDup | NearDup | SemanticDup | Quality(value: nat)

  /** What may go wrong while a batch runs. */
  datatype Trouble =
    | BatchQueryFails
    | RowUnreadable(id: Id)
    | NoVectors(id: Id)
    | ExactQueryFails(id: Id)
    | NearQueryFails(id: Id)
    | NearRowUnreadable(id: Id, candidate: Id)
    | SearchFails(id: Id, vector: Vector)
    | SearchApproximate(id: Id, vector: Vector)
    | UpdateFails(id: Id)

  // ---------- Which row may be the reason for a mark ----------

  predicate Older(items: map<Id, Item>, id: Id, w: Id) {
    id in items && w in items && w != id && items[w].createdAt < items[id].createdAt
  }

  predicate ExactWitness(items: map<Id, Item>, id: Id, w: Id) {
    && Older(items, id, w)
    && items[w].source == items[id].source
    && items[id].urlHash.Some? && items[id].urlHash.value != ""
    && items[w].urlHash == items[id].urlHash
  }

  predicate NearCandidate(items: map<Id, Item>, id: Id, w: Id) {
    Older(items, id, w) && items[w].source == items[id].source && items[w].simhash.Some?
  }

  predicate NearWitness(items: map<Id, Item>, id: Id, w: Id) {
    && NearCandidate(items, id, w)
    && items[id].simhash.Some?
    && Simhash.Distance(items[id].simhash.value, items[w].simhash.value) <= SIMHASH_THRESHOLD
  }

  predicate SemanticCandidate(items: map<Id, Item>, id: Id, w: Id, k: nat) {
    Older(items, id, w) && items[w].source != items[id].source && k < |items[w].vectors|
  }

  /** Chunk `k` of `w` is closer to chunk `j` of `id` than the threshold. */
  predicate Close(dist: Metric, items: map<Id, Item>, id: Id, j: nat, w: Id, k: nat) {
    && SemanticCandidate(items, id, w, k)
    && j < |items[id].vectors|
    && dist(items[id].vectors[j], items[w].vectors[k]) < 1.0 - COSINE_THRESHOLD
  }

  ghost predicate SemanticWitness(dist: Metric, items: map<Id, Item>, id: Id, w: Id) {
    exists j: nat, k: nat :: Close(dist, items, id, j, w, k)
  }

  ghost predicate Witness(dist: Metric, items: map<Id, Item>, id: Id, s: Score, w: Id) {
    match s
    case ExactDup => ExactWitness(items, id, w)
    case NearDup => NearWitness(items, id, w)
    case SemanticDup => SemanticWitness(dist, items, id, w)
    case Quality(_) => false
  }

  ghost predicate HasWitness(dist: Metric, items: map<Id, Item>, id: Id, s: Score) {
    exists w :: Witness(dist, items, id, s, w)
  }

  /** What staged deduplication means when nothing goes wrong. */
  ghost function Verdict(dist: Metric, items: map<Id, Item>, id: Id): Option<Score> {
    if HasWitness(dist, items, id, ExactDup) then Some(ExactDup)
    else if HasWitness(dist, items, id, NearDup) then Some(NearDup)
    else if HasWitness(dist, items, id, SemanticDup) then Some(SemanticDup)
    else None
  }

  /** A stage that is skipped for lack of data could not have found anything. */
  lemma SkippedStage(dist: Metric, items: map<Id, Item>, id: Id)
    requires id in items
    ensures !(items[id].urlHash.Some? && items[id].urlHash.value != "") ==> !HasWitness(dist, items, id, ExactDup)
    ensures items[id].simhash.None? ==> !HasWitness(dist, items, id, NearDup)
    ensures items[id].vectors == [] ==> !HasWitness(dist, items, id, SemanticDup)
  {
  }

  lemma WitnessIsOlder(dist: Metric, items: map<Id, Item>, id: Id, s: Score, w: Id)
    requires Witness(dist, items, id, s, w)
    ensures Older(items, id, w)
  {
  }

  // ---------- The same in plain terms ----------

  /** Row `w` was created before row `id` and stands in relation `s` to it: the same URL hash at the same source,
      a fingerprint at the same source that differs in at most three bits, or a chunk at another source closer
      to one of its chunks than 0.12. */
  ghost predicate Repeats(dist: Metric, items: map<Id, Item>, id: Id, s: Score, w: Id) {
    && id in items && w in items && items[w].createdAt < items[id].createdAt
    && match s
       case ExactDup =>
         && items[w].source == items[id].source
         && items[id].urlHash != None && items[id].urlHash != Some("") && items[w].urlHash == items[id].urlHash
       case NearDup =>
         && items[w].source == items[id].source && items[id].simhash.Some? && items[w].simhash.Some?
         && var x, y := Simhash.Unsigned(items[id].simhash.value), Simhash.Unsigned(items[w].simhash.value);
            |Simhash.DifferingBits(x, y, 64)| <= 3
       case SemanticDup =>
         && items[w].source != items[id].source
         && exists v, u :: v in items[id].vectors && u in items[w].vectors && dist(v, u) < 0.12
       case Quality(_) => false
  }

  lemma RepeatsIff(dist: Metric, items: map<Id, Item>, id: Id, s: Score, w: Id)
    ensures Repeats(dist, items, id, s, w) <==> Witness(dist, items, id, s, w)
  {
    match s
    case NearDup =>
      if id in items && w in items && items[id].simhash.Some? && items[w].simhash.Some? {
        Simhash.CountIsSize(
          Simhash.Unsigned(items[id].simhash.value), Simhash.Unsigned(items[w].simhash.value), 64);
      }
    case SemanticDup =>
      if Repeats(dist, items, id, s, w) {
        var v, u :| v in items[id].vectors && u in items[w].vectors && dist(v, u) < 0.12;
        var j: nat :| j < |items[id].vectors| && items[id].vectors[j] == v;
        var k: nat :| k < |items[w].vectors| && items[w].vectors[k] == u;
        assert Close(dist, items, id, j, w, k);
      }
      if SemanticWitness(dist, items, id, w) {
        var j: nat, k: nat :| Close(dist, items, id, j, w, k);
        assert items[id].vectors[j] in items[id].vectors && items[w].vectors[k] in items[w].vectors;
      }
    case _ =>
  }

  ghost predicate HasRepeat(dist: Metric, items: map<Id, Item>, id: Id, s: Score) {
    exists w :: Repeats(dist, items, id, s, w)
  }

  /** What becomes of a row: the first of the three relations some older row stands in, or none. */
  ghost predicate Decided(dist: Metric, items: map<Id, Item>, id: Id, v: Option<Score>) {
    match v
    case Some(ExactDup) => HasRepeat(dist, items, id, ExactDup)
    case Some(NearDup) => !HasRepeat(dist, items, id, ExactDup) && HasRepeat(dist, items, id, NearDup)
    case Some(SemanticDup) =>
      && !HasRepeat(dist, items, id, ExactDup) && !HasRepeat(dist, items, id, NearDup)
      && HasRepeat(dist, items, id, SemanticDup)
    case Some(Quality(_)) => false
    case None =>
      && !HasRepeat(dist, items, id, ExactDup) && !HasRepeat(dist, items, id, NearDup)
      && !HasRepeat(dist, items, id, SemanticDup)
  }

  lemma HasRepeatIff(dist: Metric, items: map<Id, Item>, id: Id, s: Score)
    ensures HasRepeat(dist, items, id, s) <==> HasWitness(dist, items, id, s)
  {
    if HasRepeat(dist, items, id, s) {
      var w :| Repeats(dist, items, id, s, w);
      RepeatsIff(dist, items, id, s, w);
    }
    if HasWitness(dist, items, id, s) {
      var w :| Witness(dist, items, id, s, w);
      RepeatsIff(dist, items, id, s, w);
    }
  }

  /** The verdict is that. */
  lemma DecidedIff(dist: Metric, items: map<Id, Item>, id: Id, v: Option<Score>)
    ensures Decided(dist, items, id, v) <==> v == Verdict(dist, items, id)
  {
    HasRepeatIff(dist, items, id, ExactDup);
    HasRepeatIff(dist, items, id, NearDup);
    HasRepeatIff(dist, items, id, SemanticDup);
  }

  // ---------- The table over any history ----------

  /** `because` records for every marked row the row it was found to repeat. */
  datatype Table = Table(items: map<Id, Item>, scores: map<Id, Score>, because: map<Id, Id>)

  predicate Marked(t: Table, id: Id) {
    id in t.scores && !t.scores[id].Quality?
  }

  /** What a batch decided about one row; `stored` is false when the UPDATE failed. */
  datatype Decision = Decision(id: Id, verdict: Option<Score>, original: Id, stored: bool)

  function Mark(t: Table, d: Decision): Table {
    if d.verdict.Some? && d.stored then
      t.(scores := t.scores[d.id := d.verdict.value], because := t.because[d.id := d.original])
    else t
  }

  function Apply(t: Table, ds: seq<Decision>): Table {
    if ds == [] then t else Mark(Apply(t, ds[..|ds| - 1]), ds[|ds| - 1])
  }

  ghost predicate Justified(dist: Metric, t: Table, ds: seq<Decision>) {
    forall k :: 0 <= k < |ds| && ds[k].verdict.Some? ==>
      ds[k].id !in t.scores && Witness(dist, t.items, ds[k].id, ds[k].verdict.value, ds[k].original)
  }

  datatype Event =
    | Arrive(id: Id, item: Item)
    | Revise(id: Id, item: Item)
    | Enrich(id: Id, quality: nat)
    | Batch(decisions: seq<Decision>)

  datatype History = Start | Then(before: History, event: Event)

  ghost predicate Allowed(dist: Metric, t: Table, e: Event) {
    match e
    case Arrive(id, item) => id !in t.items
    case Revise(id, item) => id in t.items && item.createdAt == t.items[id].createdAt
    case Enrich(id, _) => id in t.items && id !in t.scores
    case Batch(ds) => Justified(dist, t, ds)
  }

  function After(t: Table, e: Event): Table {
    match e
    case Arrive(id, item) => t.(items := t.items[id := item])
    case Revise(id, item) => t.(items := t.items[id := item])
    case Enrich(id, q) => t.(scores := t.scores[id := Quality(q)])
    case Batch(ds) => Apply(t, ds)
  }

  function StateOf(h: History): Table {
    match h
    case Start => Table(map[], map[], map[])
    case Then(before, e) => After(StateOf(before), e)
  }

  ghost predicate Legal(dist: Metric, h: History) {
    match h
    case Start => true
    case Then(before, e) => Legal(dist, before) && Allowed(dist, StateOf(before), e)
  }

  /** The witness of every marked row is a strictly older row. */
  ghost predicate Sound(t: Table) {
    && t.scores.Keys <= t.items.Keys
    && forall id :: Marked(t, id) ==> id in t.because && Older(t.items, id, t.because[id])
  }

  lemma {:induction false} ApplyKeepsItems(t: Table, ds: seq<Decision>)
    ensures Apply(t, ds).items == t.items
  {
    if ds != [] {
      ApplyKeepsItems(t, ds[..|ds| - 1]);
    }
  }

  lemma {:induction false} ApplySound(dist: Metric, t: Table, ds: seq<Decision>)
    requires Sound(t) && Justified(dist, t, ds)
    ensures Sound(Apply(t, ds))
  {
    if ds != [] {
      var before, d := ds[..|ds| - 1], ds[|ds| - 1];
      ApplySound(dist, t, before);
      ApplyKeepsItems(t, before);
      if d.verdict.Some? {
        WitnessIsOlder(dist, t.items, d.id, d.verdict.value, d.original);
      }
    }
  }

  /** Every history keeps that: no arrival, revision, enrichment or batch breaks it. */
  lemma {:induction false} WitnessesAreOlder(dist: Metric, h: History)
    requires Legal(dist, h)
    ensures Sound(StateOf(h))
  {
    if h.Then? {
      WitnessesAreOlder(dist, h.before);
      var t := StateOf(h.before);
      match h.event
      case Arrive(_, _) => ArriveSound(t, h.event.id, h.event.item);
      case Revise(_, _) => ReviseSound(t, h.event.id, h.event.item);
      case Enrich(_, _) =>
      case Batch(ds) => ApplySound(dist, t, ds);
    }
  }

  lemma ArriveSound(t: Table, id: Id, item: Item)
    requires Sound(t) && id !in t.items
    ensures Sound(t.(items := t.items[id := item]))
  {
  }

  lemma ReviseSound(t: Table, id: Id, item: Item)
    requires Sound(t) && id in t.items && item.createdAt == t.items[id].createdAt
    ensures Sound(t.(items := t.items[id := item]))
  {
  }

  /** The batch decided, and stored, that `id` repeats `w`. */
  ghost predicate Decides(ds: seq<Decision>, id: Id, s: Score, w: Id) {
    exists k :: 0 <= k < |ds| && ds[k] == Decision(id, Some(s), w, true)
  }

  /** Some batch in the history decided so, when `w` satisfied the stage's test in the table. */
  ghost predicate MarkedFor(dist: Metric, h: History, id: Id, s: Score, w: Id) {
    h.Then? && (
      || MarkedFor(dist, h.before, id, s, w)
      || (h.event.Batch? && Decides(h.event.decisions, id, s, w)
          && Witness(dist, StateOf(h.before).items, id, s, w)))
  }

  lemma {:induction false} ApplyOrigin(dist: Metric, t: Table, ds: seq<Decision>, id: Id)
    requires Justified(dist, t, ds) && Marked(Apply(t, ds), id)
    ensures || (Marked(t, id) && Apply(t, ds).scores[id] == t.scores[id]
                && (id in t.because ==> id in Apply(t, ds).because && Apply(t, ds).because[id] == t.because[id]))
            || (id in Apply(t, ds).because
                && Decides(ds, id, Apply(t, ds).scores[id], Apply(t, ds).because[id])
                && Witness(dist, t.items, id, Apply(t, ds).scores[id], Apply(t, ds).because[id]))
  {
    if ds != [] {
      var before, d := ds[..|ds| - 1], ds[|ds| - 1];
      if d.verdict.Some? && d.stored && d.id == id {
        assert d == Decision(id, Some(d.verdict.value), d.original, true);
      } else {
        ApplyOrigin(dist, t, before, id);
        assert forall k :: 0 <= k < |before| ==> ds[k] == before[k];
      }
    }
  }

  /** A mark is never without cause: a batch of the history decided on exactly this verdict and row, and
      at that moment the row did satisfy the stage's test. */
  lemma {:induction false} MarksHaveCause(dist: Metric, h: History, id: Id)
    requires Legal(dist, h) && Marked(StateOf(h), id)
    ensures var t := StateOf(h);
      id in t.because && MarkedFor(dist, h, id, t.scores[id], t.because[id])
  {
    var t := StateOf(h.before);
    if h.event.Batch? {
      ApplyOrigin(dist, t, h.event.decisions, id);
    }
    if Marked(t, id) {
      MarksHaveCause(dist, h.before, id);
    }
  }

  /** Whatever happened, an item no row is older than is unmarked. */
  lemma EarliestNeverMarked(dist: Metric, h: History, id: Id)
    requires Legal(dist, h) && id in StateOf(h).items
    requires forall other :: other in StateOf(h).items ==>
               StateOf(h).items[id].createdAt <= StateOf(h).items[other].createdAt
    ensures !Marked(StateOf(h), id)
  {
    WitnessesAreOlder(dist, h);
  }

  // ---------- Following witnesses ----------

  ghost function EarlierThan(t: Table, id: Id): set<Id>
    requires id in t.items
  {
    set k | k in t.items && t.items[k].createdAt < t.items[id].createdAt
  }

  lemma DescentStep(t: Table, id: Id)
    requires Sound(t) && Marked(t, id)
    ensures t.because[id] in t.items && |EarlierThan(t, t.because[id])| < |EarlierThan(t, id)|
  {
    var w := t.because[id];
    assert Older(t.items, id, w);
    assert w in EarlierThan(t, id) && w !in EarlierThan(t, w);
    SubsetSize(EarlierThan(t, w), EarlierThan(t, id));
  }

  /** The rows met on the way from `id` to the first unmarked one. */
  ghost function Trail(t: Table, id: Id): seq<Id>
    requires Sound(t) && id in t.items
    decreases |EarlierThan(t, id)|
  {
    if !Marked(t, id) then [id]
    else
      DescentStep(t, id);
      [id] + Trail(t, t.because[id])
  }

  /** The trail follows recorded witnesses, strictly back in time, and ends at an unmarked item. */
  lemma {:induction false} TrailEndsUnmarked(t: Table, id: Id)
    requires Sound(t) && id in t.items
    ensures var p := Trail(t, id);
      && p != [] && p[0] == id
      && |p| <= |EarlierThan(t, id)| + 1
      && p[|p| - 1] in t.items && !Marked(t, p[|p| - 1])
      && (|p| == 1 || Older(t.items, id, p[|p| - 1]))
    ensures var p := Trail(t, id);
      forall k :: 0 <= k < |p| - 1 ==> Marked(t, p[k]) && p[k + 1] == t.because[p[k]]
    decreases |EarlierThan(t, id)|
  {
    if Marked(t, id) {
      DescentStep(t, id);
      var w := t.because[id];
      TrailEndsUnmarked(t, w);
      assert Trail(t, id) == [id] + Trail(t, w);
      assert Older(t.items, id, w);
    }
  }

  /** In every history, following witnesses from any item reaches an unmarked item no younger than it. */
  lemma DescentReachesUnmarked(dist: Metric, h: History, id: Id)
    requires Legal(dist, h) && id in StateOf(h).items
    ensures exists root ::
              && root in StateOf(h).items && !Marked(StateOf(h), root)
              && (root == id || Older(StateOf(h).items, id, root))
  {
    WitnessesAreOlder(dist, h);
    var t := StateOf(h);
    TrailEndsUnmarked(t, id);
    var p := Trail(t, id);
    var root := p[|p| - 1];
    assert root in t.items && !Marked(t, root);
  }

  /** Each row of `p` is within three bits of the next. */
  predicate EachNear(items: map<Id, Item>, p: seq<Id>) {
    forall k :: 0 <= k < |p| - 1 ==> NearWitness(items, p[k], p[k + 1])
  }

  lemma NearTail(items: map<Id, Item>, id: Id, q: seq<Id>)
    requires q != [] && EachNear(items, [id] + q)
    ensures NearWitness(items, id, q[0]) && EachNear(items, q)
  {
    var p := [id] + q;
    assert p[0] == id && p[1] == q[0] && NearWitness(items, p[0], p[1]);
    forall k | 0 <= k < |q| - 1
      ensures NearWitness(items, q[k], q[k + 1])
    {
      assert p[k + 1] == q[k] && p[k + 2] == q[k + 1] && NearWitness(items, p[k + 1], p[k + 2]);
    }
  }

  /** Near duplicates drift: along a trail of rows each within three bits of the next, the last can be
      three bits further off for each step, and no more. */
  lemma {:induction false} NearDrift(t: Table, id: Id)
    requires Sound(t) && id in t.items && t.items[id].simhash.Some?
    requires EachNear(t.items, Trail(t, id))
    ensures var p := Trail(t, id);
      && p[|p| - 1] in t.items && t.items[p[|p| - 1]].simhash.Some?
      && Simhash.Distance(t.items[id].simhash.value, t.items[p[|p| - 1]].simhash.value)
           <= SIMHASH_THRESHOLD * (|p| - 1)
    decreases |EarlierThan(t, id)|
  {
    var a := t.items[id].simhash.value;
    if Marked(t, id) {
      DescentStep(t, id);
      var w, p := t.because[id], Trail(t, id);
      var q := Trail(t, w);
      assert p == [id] + q;
      TrailEndsUnmarked(t, w);
      NearTail(t.items, id, q);
      NearDrift(t, w);
      Simhash.DistanceIsMetric(a, t.items[w].simhash.value, t.items[q[|q| - 1]].simhash.value);
    } else {
      Simhash.DistanceIsMetric(a, a, a);
    }
  }

  // ---------- The checker ----------

  /** The counters of one run. */
  datatype DedupResult = DedupResult(checked: nat, exactDups: nat, nearDups: nat, semanticDups: nat, newItems: int)

  /** How many rows got the verdict `v`. */
  function CountOf(ds: seq<Decision>, v: Option<Score>): nat {
    if ds == [] then 0 else CountOf(ds[..|ds| - 1], v) + if ds[|ds| - 1].verdict == v then 1 else 0
  }

  predicate Distinct(ids: seq<Id>) {
    forall i, j :: 0 <= i < j < |ids| ==> ids[i] != ids[j]
  }

  /** Every read succeeds and every search is exact; updates may still fail. */
  ghost predicate ReadsSucceed(down: Trouble -> bool) {
    forall q: Trouble :: !q.UpdateFails? ==> !down(q)
  }

  class Checker {
    const dist: Metric
    var items: map<Id, Item>
    var scores: map<Id, Score>
    ghost var because: map<Id, Id>

    constructor (dist: Metric)
      ensures View() == StateOf(Start) && this.dist == dist
    {
      this.dist := dist;
      items, scores, because := map[], map[], map[];
    }

    ghost function View(): Table
      reads this
    {
      Table(items, scores, because)
    }

    /** One older row of the same source with the same URL hash. */
    method QueryExact(id: Id, down: Trouble -> bool) returns (row: Option<Id>)
      requires id in items && items[id].urlHash.Some? && items[id].urlHash.value != ""
      ensures row.Some? ==> Witness(dist, items, id, ExactDup, row.value)
      ensures !down(ExactQueryFails(id)) && row.None? ==> !HasWitness(dist, items, id, ExactDup)
    {
      var matches := set w | w in items && ExactWitness(items, id, w);
      assert forall w :: ExactWitness(items, id, w) ==> w in matches;
      if down(ExactQueryFails(id)) || matches == {} {
        return None;
      }
      var w :| w in matches;
      return Some(w);
    }

    /** The rows of the same source that have a fingerprint, in any order. */
    method QueryNear(id: Id, down: Trouble -> bool) returns (rows: seq<Id>)
      requires id in items
      ensures forall k :: 0 <= k < |rows| ==> NearCandidate(items, id, rows[k])
      ensures !down(NearQueryFails(id)) ==> forall w :: NearCandidate(items, id, w) ==> w in rows
    {
      rows := [];
      if down(NearQueryFails(id)) {
        return;
      }
      var matches := set w | w in items && NearCandidate(items, id, w);
      while matches != {}
        invariant forall k :: 0 <= k < |rows| ==> NearCandidate(items, id, rows[k])
        invariant forall w :: NearCandidate(items, id, w) ==> w in rows || w in matches
        invariant forall w :: w in matches ==> NearCandidate(items, id, w)
        decreases |matches|
      {
        var w :| w in matches;
        rows, matches := rows + [w], matches - {w};
      }
    }

    /** The chunk nearest to `vector` among older rows of other sources; an approximate index may miss it. */
    method Nearest(id: Id, vector: Vector, down: Trouble -> bool) returns (row: Option<(Id, nat)>)
      requires id in items
      ensures row.Some? ==> SemanticCandidate(items, id, row.value.0, row.value.1)
      ensures !down(SearchFails(id, vector)) && !down(SearchApproximate(id, vector)) ==>
                forall w, k :: SemanticCandidate(items, id, w, k) ==>
                  row.Some? && Distance(vector, row.value) <= Distance(vector, (w, k))
    {
      if down(SearchFails(id, vector)) {
        return None;
      }
      if down(SearchApproximate(id, vector)) {
        var candidates := set w | w in items && SemanticCandidate(items, id, w, 0);
        if candidates == {} {
          return None;
        }
        var w :| w in candidates;
        return Some((w, 0));
      }
      row := None;
      var rest := items.Keys;
      while rest != {}
        invariant rest <= items.Keys
        invariant row.Some? ==> SemanticCandidate(items, id, row.value.0, row.value.1)
        invariant forall w, k :: w !in rest && SemanticCandidate(items, id, w, k) ==>
                    row.Some? && Distance(vector, row.value) <= Distance(vector, (w, k))
        decreases |rest|
      {
        var w :| w in rest;
        row := NearestOf(id, vector, w, row);
        rest := rest - {w};
      }
    }

    function Distance(vector: Vector, at: (Id, nat)): real
      reads this
    {
      if at.0 in items && at.1 < |items[at.0].vectors| then dist(vector, items[at.0].vectors[at.1]) else 0.0
    }

    method NearestOf(id: Id, vector: Vector, w: Id, best: Option<(Id, nat)>)
      returns (row: Option<(Id, nat)>)
      requires id in items && w in items
      requires best.Some? ==> SemanticCandidate(items, id, best.value.0, best.value.1)
      ensures row.Some? ==> SemanticCandidate(items, id, row.value.0, row.value.1)
      ensures best.Some? ==> row.Some? && Distance(vector, row.value) <= Distance(vector, best.value)
      ensures forall k :: SemanticCandidate(items, id, w, k) ==>
                row.Some? && Distance(vector, row.value) <= Distance(vector, (w, k))
    {
      row := best;
      if !SemanticCandidate(items, id, w, 0) {
        return;
      }
      for j := 0 to |items[w].vectors|
        invariant row.Some? ==> SemanticCandidate(items, id, row.value.0, row.value.1)
        invariant best.Some? ==>
                    row.Some? && Distance(vector, row.value) <= Distance(vector, best.value)
        invariant j > 0 ==> row.Some?
        invariant forall k: nat :: k < j ==>
                    row.Some? && Distance(vector, row.value) <= Distance(vector, (w, k))
      {
        if row.None? || Distance(vector, (w, j)) < Distance(vector, row.value) {
          row := Some((w, j));
        }
      }
    }

    /** Stores the mark. A failed update is only logged, and the row still counts. */
    method MarkDup(id: Id, s: Score, ghost w: Id, down: Trouble -> bool)
      modifies this`scores, this`because
      ensures View() == Mark(old(View()), Decision(id, Some(s), w, !down(UpdateFails(id))))
    {
      if !down(UpdateFails(id)) {
        scores := scores[id := s];
        because := because[id := w];
      }
    }

    method CheckNearDup(id: Id, down: Trouble -> bool) returns (dup: bool, ghost w: Id)
      requires id in items && items[id].simhash.Some?
      modifies this`scores, this`because
      ensures dup ==> Witness(dist, items, id, NearDup, w)
      ensures !dup && ReadsSucceed(down) ==> !HasWitness(dist, items, id, NearDup)
      ensures View() ==
              if dup then Mark(old(View()), Decision(id, Some(NearDup), w, !down(UpdateFails(id)))) else old(View())
    {
      w := id;
      var rows := QueryNear(id, down);
      for k := 0 to |rows|
        invariant View() == old(View())
        invariant ReadsSucceed(down) ==> forall i :: 0 <= i < k ==> !NearWitness(items, id, rows[i])
      {
        if down(NearRowUnreadable(id, rows[k])) {
          continue;
        }
        var distance := Simhash.HammingDistance(items[id].simhash.value, items[rows[k]].simhash.value);
        if distance <= SIMHASH_THRESHOLD {
          w := rows[k];
          MarkDup(id, NearDup, w, down);
          return true, w;
        }
      }
      return false, w;
    }

    method CheckSemanticDup(id: Id, vecs: seq<Vector>, down: Trouble -> bool) returns (dup: bool, ghost w: Id)
      requires id in items && vecs == items[id].vectors
      modifies this`scores, this`because
      ensures dup ==> Witness(dist, items, id, SemanticDup, w)
      ensures !dup && ReadsSucceed(down) ==> !HasWitness(dist, items, id, SemanticDup)
      ensures View() ==
              if dup then Mark(old(View()), Decision(id, Some(SemanticDup), w, !down(UpdateFails(id)))) else old(View())
    {
      w := id;
      var bestDistance := 1.0 - COSINE_THRESHOLD;
      for j := 0 to |vecs|
        invariant View() == old(View())
        invariant bestDistance <= 1.0 - COSINE_THRESHOLD
        invariant bestDistance < 1.0 - COSINE_THRESHOLD ==> SemanticWitness(dist, items, id, w)
        invariant ReadsSucceed(down) ==> forall i, v, k ::
                    0 <= i < j && SemanticCandidate(items, id, v, k) ==> bestDistance <= Distance(vecs[i], (v, k))
      {
        var row := Nearest(id, vecs[j], down);
        if row.None? {
          continue;
        }
        var distance := Distance(vecs[j], row.value);
        if distance < bestDistance {
          bestDistance, w := distance, row.value.0;
          assert Close(dist, items, id, j, row.value.0, row.value.1);
        }
      }
      if bestDistance >= 1.0 - COSINE_THRESHOLD {
        return false, w;
      }
      MarkDup(id, SemanticDup, w, down);
      return true, w;
    }

    /** The three stages for one row; the first that finds an older row decides. */
    method CheckItem(id: Id, down: Trouble -> bool) returns (verdict: Option<Score>, ghost d: Decision)
      requires id in items
      modifies this`scores, this`because
      ensures d.id == id && d.verdict == verdict && d.stored == !down(UpdateFails(id))
      ensures View() == Mark(old(View()), d)
      ensures verdict.Some? ==> Witness(dist, items, id, verdict.value, d.original)
      ensures ReadsSucceed(down) ==> verdict == Verdict(dist, items, id)
    {
      var it := items[id];
      ghost var w := id;
      SkippedStage(dist, items, id);
      if it.urlHash.Some? && it.urlHash.value != "" {
        var existing := QueryExact(id, down);
        if existing.Some? {
          MarkDup(id, ExactDup, existing.value, down);
          return Some(ExactDup), Decision(id, Some(ExactDup), existing.value, !down(UpdateFails(id)));
        }
      }
      if it.simhash.Some? {
        var dup: bool;
        dup, w := CheckNearDup(id, down);
        if dup {
          return Some(NearDup), Decision(id, Some(NearDup), w, !down(UpdateFails(id)));
        }
      }
      var vecs := if down(NoVectors(id)) then [] else it.vectors;
      if |vecs| > 0 {
        var dup: bool;
        dup, w := CheckSemanticDup(id, vecs, down);
        if dup {
          return Some(SemanticDup), Decision(id, Some(SemanticDup), w, !down(UpdateFails(id)));
        }
      }
      return None, Decision(id, None, w, !down(UpdateFails(id)));
    }

    /** The newest rows without a score. */
    method FetchUnchecked(limit: nat) returns (rows: seq<Id>)
      ensures NewestUnscored(items, scores, limit, rows)
    {
      rows := [];
      var rest := set o | o in items && o !in scores;
      while |rows| < limit && rest != {}
        invariant Picked(items, scores, rows, rest) && |rows| <= limit
        decreases |rest|
      {
        NewestExists(items, rest);
        var o :| o in rest && forall p :: p in rest ==> items[p].createdAt <= items[o].createdAt;
        PickStep(items, scores, rows, rest, o);
        rows, rest := rows + [o], rest - {o};
      }
    }

    /** Reads the rows of a batch; the first that cannot be read gives up on all of them. */
    method ReadBatch(limit: nat, down: Trouble -> bool) returns (rows: Option<seq<Id>>)
      ensures rows.Some? ==> NewestUnscored(items, scores, limit, rows.value) && !down(BatchQueryFails)
      ensures rows.Some? ==> forall k :: 0 <= k < |rows.value| ==> !down(RowUnreadable(rows.value[k]))
      ensures rows.None? ==> down(BatchQueryFails) || Unreadable(items, scores, down)
    {
      if down(BatchQueryFails) {
        return None;
      }
      var ids := FetchUnchecked(limit);
      for k := 0 to |ids|
        invariant forall i :: 0 <= i < k ==> !down(RowUnreadable(ids[i]))
      {
        if down(RowUnreadable(ids[k])) {
          return None;
        }
      }
      return Some(ids);
    }

    /** The loop over the rows of a batch. */
    method CheckRows(rows: seq<Id>, down: Trouble -> bool) returns (result: DedupResult, ghost ds: seq<Decision>)
      requires forall k :: 0 <= k < |rows| ==> rows[k] in items && rows[k] !in scores
      modifies this`scores, this`because
      ensures |ds| == |rows| && SoFar(dist, down, old(View()), rows, ds) && View() == Apply(old(View()), ds)
      ensures result == Tally(ds)
    {
      ds := [];
      ghost var t0 := View();
      var exact, near, semantic := 0, 0, 0;
      for n := 0 to |rows|
        invariant |ds| == n && SoFar(dist, down, t0, rows, ds) && View() == Apply(t0, ds)
        invariant exact == CountOf(ds, Some(ExactDup)) && near == CountOf(ds, Some(NearDup))
        invariant semantic == CountOf(ds, Some(SemanticDup)) && n == exact + near + semantic + CountOf(ds, None)
      {
        ApplyKeepsItems(t0, ds);
        var verdict, d := CheckItem(rows[n], down);
        Counted(t0, ds, d);
        SoFarStep(dist, down, t0, rows, ds, d);
        ds := ds + [d];
        match verdict
        case Some(ExactDup) => exact := exact + 1;
        case Some(NearDup) => near := near + 1;
        case Some(SemanticDup) => semantic := semantic + 1;
        case _ =>
      }
      result := DedupResult(|rows|, exact, near, semantic, |rows| - exact - near - semantic);
    }

    /** One run: an allowed Batch event whose counters tell exactly what became of each row. A run that
        cannot read its rows is an error and decides nothing. */
    method CheckBatch(limit: nat, down: Trouble -> bool) returns (result: Option<DedupResult>, ghost ds: seq<Decision>)
      modifies this`scores, this`because
      ensures Allowed(dist, old(View()), Batch(ds)) && View() == After(old(View()), Batch(ds))
      ensures |ds| <= limit
      ensures forall k :: 0 <= k < |ds| ==> ds[k].id in items && ds[k].id !in old(scores)
      ensures forall i, j :: 0 <= i < j < |ds| ==> ds[i].id != ds[j].id
      ensures result.Some? ==> result.value == Tally(ds)
      ensures result.None? ==> ds == [] && (down(BatchQueryFails) || Unreadable(items, old(scores), down))
      ensures result.Some? ==> !down(BatchQueryFails)
      ensures result.Some? ==> forall k :: 0 <= k < |ds| ==> !down(RowUnreadable(ds[k].id))
      ensures ReadsSucceed(down) ==> result.Some?
      ensures ReadsSucceed(down) ==>
                forall k :: 0 <= k < |ds| ==> ds[k].verdict == Verdict(dist, items, ds[k].id)
      ensures PlainBatch(dist, down, old(View()), View(), ds)
      ensures result.Some? ==> PlainTally(ds, result.value)
    {
      var batch := ReadBatch(limit, down);
      if batch.None? {
        return None, [];
      }
      var counted;
      counted, ds := CheckRows(batch.value, down);
      BatchIsPlain(dist, down, old(View()), batch.value, ds);
      TallyIsPlain(ds);
      return Some(counted), ds;
    }
  }

  /** Every decision has its reason, and with no failing read is the right one; a row is marked with its verdict
      unless the update fails, and no other score changes. */
  ghost predicate PlainBatch(dist: Metric, down: Trouble -> bool, was: Table, now: Table, ds: seq<Decision>) {
    && now.items == was.items
    && (forall k :: 0 <= k < |ds| && ds[k].verdict.Some? ==>
          Repeats(dist, was.items, ds[k].id, ds[k].verdict.value, ds[k].original))
    && (ReadsSucceed(down) ==> forall k :: 0 <= k < |ds| ==> Decided(dist, was.items, ds[k].id, ds[k].verdict))
    && (forall k :: 0 <= k < |ds| && ds[k].verdict.Some? && !down(UpdateFails(ds[k].id)) ==>
          ds[k].id in now.scores && now.scores[ds[k].id] == ds[k].verdict.value)
    && was.scores.Keys <= now.scores.Keys
    && (forall id :: id in now.scores ==>
          if id in was.scores then now.scores[id] == was.scores[id]
          else exists k :: 0 <= k < |ds| && ds[k].id == id && ds[k].verdict.Some? && !down(UpdateFails(id)))
  }

  ghost function Rows(ds: seq<Decision>, v: Option<Score>): set<nat> {
    set k | 0 <= k < |ds| && ds[k].verdict == v
  }

  /** The counters are the numbers of rows with each verdict. */
  ghost predicate PlainTally(ds: seq<Decision>, r: DedupResult) {
    && r.checked == |ds|
    && r.exactDups == |Rows(ds, Some(ExactDup))| && r.nearDups == |Rows(ds, Some(NearDup))|
    && r.semanticDups == |Rows(ds, Some(SemanticDup))| && r.newItems == |Rows(ds, None)|
  }

  lemma {:induction false} CountIsRows(ds: seq<Decision>, v: Option<Score>)
    ensures CountOf(ds, v) == |Rows(ds, v)|
  {
    if ds != [] {
      var last := |ds| - 1;
      CountIsRows(ds[..last], v);
      if ds[last].verdict == v {
        assert Rows(ds, v) == Rows(ds[..last], v) + {last};
      } else {
        assert Rows(ds, v) == Rows(ds[..last], v);
      }
    }
  }

  lemma TallyIsPlain(ds: seq<Decision>)
    ensures PlainTally(ds, Tally(ds))
  {
    CountIsRows(ds, Some(ExactDup));
    CountIsRows(ds, Some(NearDup));
    CountIsRows(ds, Some(SemanticDup));
    CountIsRows(ds, None);
  }

  /** The rows that a list of decisions marks. */
  ghost predicate Marks(ds: seq<Decision>, id: Id) {
    exists k :: 0 <= k < |ds| && ds[k].id == id && ds[k].verdict.Some? && ds[k].stored
  }

  lemma {:induction false} ApplyMarks(t: Table, ds: seq<Decision>)
    requires forall i, j :: 0 <= i < j < |ds| ==> ds[i].id != ds[j].id
    ensures Apply(t, ds).items == t.items && t.scores.Keys <= Apply(t, ds).scores.Keys
    ensures forall k :: 0 <= k < |ds| && ds[k].verdict.Some? && ds[k].stored ==>
              ds[k].id in Apply(t, ds).scores && Apply(t, ds).scores[ds[k].id] == ds[k].verdict.value
    ensures forall id :: id in Apply(t, ds).scores && !Marks(ds, id) ==>
              id in t.scores && Apply(t, ds).scores[id] == t.scores[id]
  {
    if ds != [] {
      var last := |ds| - 1;
      ApplyMarks(t, ds[..last]);
      forall id | !Marks(ds, id)
        ensures !Marks(ds[..last], id)
      {
        assert forall k :: 0 <= k < last ==> ds[..last][k] == ds[k];
      }
      assert forall k :: 0 <= k < last ==> ds[..last][k] == ds[k];
      assert ds[last].verdict.Some? && ds[last].stored ==> Marks(ds, ds[last].id);
    }
  }

  lemma BatchIsPlain(dist: Metric, down: Trouble -> bool, t: Table, rows: seq<Id>, ds: seq<Decision>)
    requires SoFar(dist, down, t, rows, ds) && |ds| == |rows| && Distinct(rows)
    requires forall k :: 0 <= k < |ds| ==> ds[k].id !in t.scores
    ensures PlainBatch(dist, down, t, Apply(t, ds), ds)
  {
    ApplyMarks(t, ds);
    forall k | 0 <= k < |ds|
      ensures ds[k].verdict.Some? ==> Repeats(dist, t.items, ds[k].id, ds[k].verdict.value, ds[k].original)
      ensures ReadsSucceed(down) ==> Decided(dist, t.items, ds[k].id, ds[k].verdict)
    {
      DecidedIff(dist, t.items, ds[k].id, ds[k].verdict);
      if ds[k].verdict.Some? {
        RepeatsIff(dist, t.items, ds[k].id, ds[k].verdict.value, ds[k].original);
      }
    }
    MarkedOnce(down, t, ds);
  }

  lemma MarkedOnce(down: Trouble -> bool, t: Table, ds: seq<Decision>)
    requires forall k :: 0 <= k < |ds| ==> ds[k].id !in t.scores && ds[k].stored == !down(UpdateFails(ds[k].id))
    requires forall i, j :: 0 <= i < j < |ds| ==> ds[i].id != ds[j].id
    ensures forall id :: id in Apply(t, ds).scores ==>
              if id in t.scores then Apply(t, ds).scores[id] == t.scores[id]
              else exists k :: 0 <= k < |ds| && ds[k].id == id && ds[k].verdict.Some? && !down(UpdateFails(id))
  {
    ApplyMarks(t, ds);
    forall id | id in Apply(t, ds).scores
      ensures if id in t.scores then Apply(t, ds).scores[id] == t.scores[id]
              else exists k :: 0 <= k < |ds| && ds[k].id == id && ds[k].verdict.Some? && !down(UpdateFails(id))
    {
      if Marks(ds, id) {
        var k :| 0 <= k < |ds| && ds[k].id == id && ds[k].verdict.Some? && ds[k].stored;
        assert !down(UpdateFails(ds[k].id));
      }
    }
  }

  ghost predicate Unreadable(items: map<Id, Item>, scores: map<Id, Score>, down: Trouble -> bool) {
    exists id :: id in items && id !in scores && down(RowUnreadable(id))
  }

  /** The counters that belong to a list of decisions: every row under exactly one verdict. */
  function Tally(ds: seq<Decision>): DedupResult {
    DedupResult(|ds|, CountOf(ds, Some(ExactDup)), CountOf(ds, Some(NearDup)), CountOf(ds, Some(SemanticDup)),
                CountOf(ds, None))
  }

  /** Distinct rows without a score, newest first, at most `limit`, with none newer left out. */
  ghost predicate NewestUnscored(items: map<Id, Item>, scores: map<Id, Score>, limit: nat, rows: seq<Id>) {
    && Distinct(rows) && |rows| <= limit
    && (forall k :: 0 <= k < |rows| ==> rows[k] in items && rows[k] !in scores)
    && (forall i, j :: 0 <= i < j < |rows| ==> items[rows[j]].createdAt <= items[rows[i]].createdAt)
    && (forall o, k :: o in items && o !in scores && o !in rows && 0 <= k < |rows| ==>
          items[o].createdAt <= items[rows[k]].createdAt)
    && (|rows| < limit ==> forall o :: o in items && o !in scores ==> o in rows)
  }

  /** `rows` has been picked, newest first, and `rest` is still to pick from. */
  ghost predicate Picked(items: map<Id, Item>, scores: map<Id, Score>, rows: seq<Id>, rest: set<Id>) {
    && Distinct(rows)
    && (forall o :: o in rest ==> o in items && o !in scores && o !in rows)
    && (forall o :: o in items && o !in scores ==> o in rest || o in rows)
    && (forall k :: 0 <= k < |rows| ==> rows[k] in items && rows[k] !in scores)
    && (forall i, j :: 0 <= i < j < |rows| ==> items[rows[j]].createdAt <= items[rows[i]].createdAt)
    && (forall o, k :: o in rest && 0 <= k < |rows| ==> items[o].createdAt <= items[rows[k]].createdAt)
  }

  lemma PickStep(items: map<Id, Item>, scores: map<Id, Score>, rows: seq<Id>, rest: set<Id>, o: Id)
    requires Picked(items, scores, rows, rest) && o in rest
    requires forall p :: p in rest ==> items[p].createdAt <= items[o].createdAt
    ensures Picked(items, scores, rows + [o], rest - {o})
  {
    var more := rows + [o];
    forall i, j | 0 <= i < j < |more|
      ensures more[i] != more[j] && items[more[j]].createdAt <= items[more[i]].createdAt
    {
      if j == |rows| {
        assert more[i] == rows[i];
      }
    }
  }

  /** The decisions on the first rows of a batch. */
  ghost predicate SoFar(dist: Metric, down: Trouble -> bool, t0: Table, rows: seq<Id>, ds: seq<Decision>) {
    && |ds| <= |rows| && Justified(dist, t0, ds)
    && (forall k :: 0 <= k < |ds| ==> ds[k].id == rows[k] && ds[k].stored == !down(UpdateFails(rows[k])))
    && (ReadsSucceed(down) ==> forall k :: 0 <= k < |ds| ==> ds[k].verdict == Verdict(dist, t0.items, ds[k].id))
  }

  lemma SoFarStep(dist: Metric, down: Trouble -> bool, t0: Table, rows: seq<Id>, ds: seq<Decision>, d: Decision)
    requires SoFar(dist, down, t0, rows, ds) && |ds| < |rows| && d.id == rows[|ds|] && d.id !in t0.scores
    requires d.stored == !down(UpdateFails(d.id))
    requires d.verdict.Some? ==> Witness(dist, t0.items, d.id, d.verdict.value, d.original)
    requires ReadsSucceed(down) ==> d.verdict == Verdict(dist, t0.items, d.id)
    ensures SoFar(dist, down, t0, rows, ds + [d])
  {
  }

  lemma Counted(t: Table, ds: seq<Decision>, d: Decision)
    ensures Apply(t, ds + [d]) == Mark(Apply(t, ds), d)
    ensures forall v :: CountOf(ds + [d], v) == CountOf(ds, v) + if d.verdict == v then 1 else 0
  {
  }

  lemma {:induction false} NewestExists(items: map<Id, Item>, ids: set<Id>)
    requires ids != {} && ids <= items.Keys
    ensures exists o :: o in ids && forall p :: p in ids ==> items[p].createdAt <= items[o].createdAt
  {
    var x :| x in ids;
    if ids == {x} {
      assert forall p :: p in ids ==> items[p].createdAt <= items[x].createdAt;
    } else {
      NewestExists(items, ids - {x});
      var o :| o in ids - {x} && forall p :: p in ids - {x} ==> items[p].createdAt <= items[o].createdAt;
      var best := if items[x].createdAt > items[o].createdAt then x else o;
      assert best in ids && forall p :: p in ids ==> items[p].createdAt <= items[best].createdAt;
    }
  }
}

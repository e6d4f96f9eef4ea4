/** internal/corpus/evidence.go: which evidence records a publish stages, with which status, and what
    that means for the corpus over any number of publishes. */
module Evidence {
  import opened Basics

  type Id = string
  type Name = string

  const CURRENT: string := "current"
  const SUPERSEDED: string := "superseded"
  /** Ninety days in seconds. */
  const RETENTION: int := 90 * 24 * 3600

  /** Fourteen days in seconds, and the most records a run renders. */
  const WINDOW: int := 14 * 24 * 3600
  const MAX_RECORDS: nat := 600

  /** `published` is None when the record carries no date that can be parsed. */
  datatype Record = Record(id: Id, status: string, published: Option<int>, body: string)

  /** The files of a records directory. */
  type Dir = map<Name, Record>

  /** "sha256:" in front of an id is not part of the file name. */
  function FileName(id: Id): Name {
    (if |id| >= 7 && id[..7] == "sha256:" then id[7..] else id) + ".json"
  }

  predicate IsHashId(id: Id) {
    |id| >= 7 && id[..7] == "sha256:"
  }

  /** Distinct hash ids go to distinct files. */
  lemma DistinctFiles(a: Id, b: Id)
    requires IsHashId(a) && IsHashId(b) && FileName(a) == FileName(b)
    ensures a == b
  {
    var x, y := a[7..], b[7..];
    assert |x| == |FileName(a)| - 5 && |y| == |FileName(b)| - 5;
    assert x == FileName(a)[..|x|] && y == FileName(b)[..|y|];
    assert a == a[..7] + x && b == b[..7] + y;
  }

  /** Records without a parseable date are kept. */
  predicate Retained(r: Record, now: int) {
    r.published.None? || now - r.published.value <= RETENTION
  }

  /** Published at most so many days ago, or at a time that is not known. */
  ghost predicate WithinDays(r: Record, now: int, days: int) {
    r.published != None ==> now <= r.published.value + days * 86400
  }

  /** Every file holds the record its name stands for. */
  ghost predicate WellFiled(d: Dir) {
    forall name :: name in d ==> IsHashId(d[name].id) && FileName(d[name].id) == name
  }

  ghost predicate Keyed(m: map<Id, Record>) {
    forall id :: id in m ==> IsHashId(id) && m[id].id == id
  }

  /** The records a run renders afresh: all are current. */
  ghost predicate CurrentSet(current: map<Id, Record>) {
    Keyed(current) && forall id :: id in current ==> current[id].status == CURRENT
  }

  function Find(d: Dir, id: Id): Option<Record> {
    if FileName(id) in d then Some(d[FileName(id)]) else None
  }

  // ---------- Loading ----------

  /** The retained records of a directory, by id. */
  ghost predicate LoadedFrom(d: Dir, now: int, m: map<Id, Record>) {
    && (forall id :: id in m ==>
          FileName(id) in d && m[id] == d[FileName(id)] && m[id].id == id && Retained(m[id], now))
    && (forall name :: name in d && Retained(d[name], now) ==> d[name].id in m)
  }

  /** Any directory gives the retained records with an id, one per id; a well-filed one gives them all. */
  method LoadExistingRecords(d: Dir, now: int) returns (m: map<Id, Record>)
    ensures forall id :: id in m ==> m[id].id == id != "" && Retained(m[id], now) && m[id] in d.Values
    ensures forall name :: name in d && d[name].id != "" && Retained(d[name], now) ==> d[name].id in m
    ensures WellFiled(d) ==> Keyed(m) && LoadedFrom(d, now, m)
    ensures forall name :: name in d && d[name].id != "" && WithinDays(d[name], now, 90) ==> d[name].id in m
    ensures forall id :: id in m ==> WithinDays(m[id], now, 90)
  {
    m := map[];
    var rest := d.Keys;
    while rest != {}
      invariant rest <= d.Keys
      invariant forall id :: id in m ==> m[id].id == id != "" && Retained(m[id], now) && m[id] in d.Values
      invariant forall name :: name in d && name !in rest && d[name].id != "" && Retained(d[name], now) ==>
                  d[name].id in m
      decreases |rest|
    {
      var name :| name in rest;
      rest := rest - {name};
      var rec := d[name];
      if rec.id != "" && Retained(rec, now) {
        m := m[rec.id := rec];
      }
    }
  }

  // ---------- Staging ----------

  predicate NoRepeats(ids: seq<Id>) {
    forall i, j :: 0 <= i < j < |ids| ==> ids[i] != ids[j]
  }

  /** `ids` lists exactly the members of `s`, once each. */
  ghost predicate Lists(ids: seq<Id>, s: set<Id>) {
    NoRepeats(ids) && forall id :: id in ids <==> id in s
  }

  /** The record staged for an id. */
  function StagedRecord(current: map<Id, Record>, prev: map<Id, Record>, id: Id): Record
    requires id in current || id in prev
  {
    if id in current then current[id] else prev[id].(status := SUPERSEDED)
  }

  /** The staged files are those of the current ids and of the retained previous ids, and nothing else. */
  ghost predicate Stages(d: Dir, current: map<Id, Record>, prev: map<Id, Record>) {
    && (forall id :: id in current || id in prev ==>
          FileName(id) in d && d[FileName(id)] == StagedRecord(current, prev, id))
    && (forall name :: name in d ==>
          (d[name].id in current || d[name].id in prev) && FileName(d[name].id) == name)
  }

  /** What has been staged of the current records but those in `rest`, on top of `was`. */
  ghost predicate WroteCurrent(current: map<Id, Record>, fails: Id -> bool, was: Dir, rest: set<Id>, d: Dir) {
    && was.Keys <= d.Keys
    && (forall id :: id in current && id !in rest && !fails(id) ==>
          FileName(id) in d && d[FileName(id)] == current[id])
    && (forall name :: name in d ==>
          || (name in was && d[name] == was[name])
          || (d[name].id in current && FileName(d[name].id) == name))
  }

  lemma WriteOneCurrent(current: map<Id, Record>, fails: Id -> bool, was: Dir, rest: set<Id>, d: Dir, rid: Id)
    requires Keyed(current) && rid in rest && rest <= current.Keys && WroteCurrent(current, fails, was, rest, d)
    ensures WroteCurrent(current, fails, was, rest - {rid}, if fails(rid) then d else d[FileName(rid) := current[rid]])
  {
    SameFileSameId(current, rid);
  }

  /** Staged for an id that is previous but not current. */
  predicate Demoted(current: map<Id, Record>, prev: map<Id, Record>, id: Id) {
    id in prev && id !in current
  }

  /** What has been staged of the previous records that are not current, but those in `rest`. */
  ghost predicate WroteSuperseded(
    current: map<Id, Record>, prev: map<Id, Record>, was: Dir, rest: set<Id>, d: Dir)
  {
    && (forall id :: Demoted(current, prev, id) && id !in rest ==>
          FileName(id) in d && d[FileName(id)] == prev[id].(status := SUPERSEDED))
    && (forall name :: name in d ==>
          || (name in was && d[name] == was[name])
          || (Demoted(current, prev, d[name].id) && FileName(d[name].id) == name))
    && (forall id :: id in current && FileName(id) in was ==>
          FileName(id) in d && d[FileName(id)] == was[FileName(id)])
  }

  lemma WriteOneSuperseded(
    current: map<Id, Record>, prev: map<Id, Record>, was: Dir, rest: set<Id>, d: Dir, rid: Id)
    requires Keyed(current) && Keyed(prev) && rid in rest && rest <= prev.Keys
    requires WroteSuperseded(current, prev, was, rest, d)
    ensures WroteSuperseded(current, prev, was, rest - {rid},
              if rid in current then d else d[FileName(rid) := prev[rid].(status := SUPERSEDED)])
  {
    SameFileSameId(prev, rid);
    SameFileSameId(current, rid);
  }

  lemma ListsMore(ids: seq<Id>, all: set<Id>, rest: set<Id>, x: Id)
    requires Lists(ids, all - rest) && x in rest
    ensures Lists(if x in all then ids + [x] else ids, all - (rest - {x}))
  {
  }

  class Staging {
    var records: Dir

    /** An empty staging tree. */
    constructor ()
      ensures records == map[]
    {
      records := map[];
    }

    /** Writes the current records; a failure is only logged. Returns the ids that are new. */
    method WriteCurrentRecords(current: map<Id, Record>, prev: map<Id, Record>, fails: Id -> bool)
      returns (added: seq<Id>)
      requires Keyed(current)
      modifies this
      ensures Lists(added, current.Keys - prev.Keys)
      ensures WroteCurrent(current, fails, old(records), {}, records)
    {
      added := [];
      var rest := current.Keys;
      while rest != {}
        invariant rest <= current.Keys
        invariant Lists(added, (current.Keys - prev.Keys) - rest)
        invariant WroteCurrent(current, fails, old(records), rest, records)
        decreases |rest|
      {
        var rid :| rid in rest;
        WriteOneCurrent(current, fails, old(records), rest, records, rid);
        ListsMore(added, current.Keys - prev.Keys, rest, rid);
        rest := rest - {rid};
        if !fails(rid) {
          records := records[FileName(rid) := current[rid]];
        }
        if rid !in prev {
          added := added + [rid];
        }
      }
    }

    /** Marks the previous records that are not current any more, and writes them back; the first
        failing write is an error. */
    method WriteSupersededRecords(current: map<Id, Record>, prev: map<Id, Record>, fails: Id -> bool)
      returns (superseded: seq<Id>, failed: bool)
      requires Keyed(current) && Keyed(prev)
      modifies this
      ensures failed <==> exists id :: Demoted(current, prev, id) && fails(id)
      ensures !failed ==> Lists(superseded, prev.Keys - current.Keys)
      ensures !failed ==> WroteSuperseded(current, prev, old(records), {}, records)
      ensures failed ==> exists rest :: WroteSuperseded(current, prev, old(records), rest, records)
    {
      superseded, failed := [], false;
      var rest := prev.Keys;
      while rest != {}
        invariant rest <= prev.Keys
        invariant Lists(superseded, (prev.Keys - current.Keys) - rest)
        invariant WroteSuperseded(current, prev, old(records), rest, records)
        invariant forall id :: Demoted(current, prev, id) && id !in rest ==> !fails(id)
        decreases |rest|
      {
        var rid :| rid in rest;
        WriteOneSuperseded(current, prev, old(records), rest, records, rid);
        ListsMore(superseded, prev.Keys - current.Keys, rest, rid);
        if rid !in current {
          if fails(rid) {
            assert Demoted(current, prev, rid);
            return superseded, true;
          }
          records := records[FileName(rid) := prev[rid].(status := SUPERSEDED)];
          superseded := superseded + [rid];
        }
        rest := rest - {rid};
      }
    }
  }

  lemma SameFileSameId(m: map<Id, Record>, id: Id)
    requires Keyed(m) && IsHashId(id)
    ensures forall other :: other in m && FileName(other) == FileName(id) ==> other == id
  {
    forall other | other in m && FileName(other) == FileName(id)
      ensures other == id
    {
      DistinctFiles(other, id);
    }
  }

  /** renderEvidence on an empty staging tree when every write succeeds. */
  method RenderEvidence(corpus: Dir, current: map<Id, Record>, now: int)
    returns (staged: Dir, prev: map<Id, Record>, added: seq<Id>, superseded: seq<Id>)
    requires WellFiled(corpus) && CurrentSet(current)
    ensures Keyed(prev) && LoadedFrom(corpus, now, prev) && Stages(staged, current, prev)
    ensures Lists(added, current.Keys - prev.Keys) && Lists(superseded, prev.Keys - current.Keys)
  {
    prev := LoadExistingRecords(corpus, now);
    var staging := new Staging();
    added := staging.WriteCurrentRecords(current, prev, _ => false);
    var failed: bool;
    superseded, failed := staging.WriteSupersededRecords(current, prev, _ => false);
    staged := staging.records;
  }

  // ---------- The partition by status ----------

  /** A staged record carries the status "current" exactly when its id is current; the others are
      retained previous records, superseded. */
  lemma StatusIff(staged: Dir, current: map<Id, Record>, prev: map<Id, Record>, name: Name)
    requires CurrentSet(current) && Keyed(prev) && Stages(staged, current, prev) && name in staged
    ensures var r := staged[name];
      && (r.status == CURRENT <==> r.id in current)
      && (r.status == SUPERSEDED <==> r.id in prev && r.id !in current)
  {
  }

  /** The names of the files with status "current". */
  function CurrentFiles(d: Dir): set<Name> {
    set name | name in d && d[name].status == CURRENT
  }

  method CountCurrentEvidence(d: Dir) returns (count: nat)
    ensures count == |CurrentFiles(d)|
  {
    count := 0;
    var rest := d.Keys;
    ghost var seen: set<Name> := {};
    while rest != {}
      invariant rest <= d.Keys
      invariant seen == set name | name in CurrentFiles(d) && name !in rest
      invariant count == |seen|
      decreases |rest|
    {
      var name :| name in rest;
      rest := rest - {name};
      if d[name].status == CURRENT {
        count := count + 1;
        seen := seen + {name};
      }
    }
    assert seen == CurrentFiles(d);
  }

  function Names(ids: set<Id>): set<Name> {
    set id | id in ids :: FileName(id)
  }

  lemma {:induction false} AsManyFiles(ids: set<Id>)
    requires forall id :: id in ids ==> IsHashId(id)
    ensures |Names(ids)| == |ids|
  {
    if ids != {} {
      var x :| x in ids;
      var rest := ids - {x};
      AsManyFiles(rest);
      forall id | id in rest
        ensures FileName(id) != FileName(x)
      {
        if FileName(id) == FileName(x) {
          DistinctFiles(id, x);
        }
      }
      assert FileName(x) !in Names(rest);
      assert Names(ids) == Names(rest) + {FileName(x)};
    }
  }

  /** So the manifest's evidence count is the number of current records. */
  lemma CountIsCurrent(staged: Dir, current: map<Id, Record>, prev: map<Id, Record>)
    requires CurrentSet(current) && Keyed(prev) && Stages(staged, current, prev)
    ensures |CurrentFiles(staged)| == |current.Keys|
  {
    forall name
      ensures name in CurrentFiles(staged) <==> name in Names(current.Keys)
    {
      if name in staged {
        StatusIff(staged, current, prev, name);
      }
    }
    assert CurrentFiles(staged) == Names(current.Keys);
    AsManyFiles(current.Keys);
  }

  // ---------- Over any number of publishes ----------

  /** A publish queries the items at `asked`, loads the committed records at `now`, and stages; a sync
      overwrites files and never deletes one. */
  datatype History =
    | Nothing
    | Publish(
        before: History,
        asked: int,
        now: int,
        current: map<Id, Record>,
        prev: map<Id, Record>,
        staged: Dir,
        synced: bool)

  function CorpusOf(h: History): Dir {
    match h
    case Nothing => map[]
    case Publish(before, _, _, _, _, staged, synced) => if synced then CorpusOf(before) + staged else CorpusOf(before)
  }

  /** Only items published within fourteen days are rendered, and not too many. */
  ghost predicate Recent(current: map<Id, Record>, asked: int) {
    && |current| <= MAX_RECORDS
    && forall id :: id in current ==> current[id].published.Some? && current[id].published.value >= asked - WINDOW
  }

  ghost predicate Legal(h: History) {
    h.Publish? ==>
      && Legal(h.before)
      && (h.before.Publish? ==> h.before.now <= h.asked) && h.asked <= h.now
      && CurrentSet(h.current) && Recent(h.current, h.asked) && Keyed(h.prev)
      && LoadedFrom(CorpusOf(h.before), h.now, h.prev)
      && Stages(h.staged, h.current, h.prev)
  }

  /** The corpus stays well filed, which is what the next load relies on. */
  lemma {:induction false} CorpusIsWellFiled(h: History)
    requires Legal(h)
    ensures WellFiled(CorpusOf(h))
  {
    if h.Publish? {
      CorpusIsWellFiled(h.before);
    }
  }

  predicate Extends(g: History, h: History) {
    g == h || (h.Publish? && Extends(g, h.before))
  }

  lemma {:induction false} CorpusGrows(g: History, h: History)
    requires Extends(g, h)
    ensures CorpusOf(g).Keys <= CorpusOf(h).Keys
  {
    if g != h {
      CorpusGrows(g, h.before);
    }
  }

  /** Once committed, a record is staged by every later run at which its corpus copy is still inside the
      window: as current if the run renders it, as superseded if not. */
  lemma StagedWhileRetained(g: History, h: History, id: Id)
    requires Legal(h) && h.Publish? && Extends(g, h.before)
    requires IsHashId(id) && FileName(id) in CorpusOf(g)
    ensures FileName(id) in CorpusOf(h.before)
    ensures Retained(CorpusOf(h.before)[FileName(id)], h.now) ==>
              && FileName(id) in h.staged
              && h.staged[FileName(id)] == (if id in h.current then h.current[id]
                                            else CorpusOf(h.before)[FileName(id)].(status := SUPERSEDED))
  {
    CorpusGrows(g, h.before);
    CorpusIsWellFiled(h.before);
    var corpus := CorpusOf(h.before);
    if Retained(corpus[FileName(id)], h.now) {
      DistinctFiles(corpus[FileName(id)].id, id);
      assert id in h.prev;
    }
  }

  /** After a sync the corpus shows a record as current that the run did not render exactly when it was
      shown as current before and had left the retention window: such a record is no longer loaded. */
  lemma StaleIff(h: History, name: Name)
    requires Legal(h) && h.Publish? && h.synced
    ensures var was, shown := CorpusOf(h.before), CorpusOf(h);
      (name in shown && shown[name].status == CURRENT && shown[name].id !in h.current) <==>
      (name in was && was[name].status == CURRENT && !Retained(was[name], h.now) && was[name].id !in h.current)
  {
    CorpusIsWellFiled(h.before);
    if name in h.staged {
      StatusIff(h.staged, h.current, h.prev, name);
      StagedHasSource(h, name);
    }
  }

  /** A staged file that is not current overwrites its own, still retained, corpus copy. */
  lemma StagedHasSource(h: History, name: Name)
    requires Legal(h) && h.Publish? && name in h.staged && WellFiled(CorpusOf(h.before))
    ensures h.staged[name].id !in h.current ==>
              name in CorpusOf(h.before) && Retained(CorpusOf(h.before)[name], h.now)
    ensures name in CorpusOf(h.before) ==> CorpusOf(h.before)[name].id == h.staged[name].id
  {
    var id := h.staged[name].id;
    assert FileName(id) == name;
    if name in CorpusOf(h.before) {
      DistinctFiles(CorpusOf(h.before)[name].id, id);
    }
  }

  /** What the last run that synced rendered, and when it asked for it. */
  function LastCurrent(h: History): map<Id, Record> {
    match h
    case Nothing => map[]
    case Publish(before, _, _, current, _, _, synced) => if synced then current else LastCurrent(before)
  }

  function LastAsked(h: History): Option<int> {
    match h
    case Nothing => None
    case Publish(before, asked, _, _, _, _, synced) => if synced then Some(asked) else LastAsked(before)
  }

  /** No 76 days pass between two syncs. */
  predicate Regular(h: History) {
    h.Publish? ==>
      && Regular(h.before)
      && (h.synced && LastAsked(h.before).Some? ==> h.now - LastAsked(h.before).value <= RETENTION - WINDOW)
  }

  /** The corpus shows as current what the last synced run rendered, and nothing else. */
  ghost predicate Truthful(h: History) {
    && (forall id :: id in LastCurrent(h) ==>
          FileName(id) in CorpusOf(h) && CorpusOf(h)[FileName(id)] == LastCurrent(h)[id])
    && (forall name :: name in CorpusOf(h) && CorpusOf(h)[name].status == CURRENT ==>
          CorpusOf(h)[name].id in LastCurrent(h))
  }

  /** No record shown as current has left the window without being rendered again. */
  ghost predicate NoneLeftBehind(h: History)
    requires h.Publish?
  {
    forall id :: id in LastCurrent(h.before) && id !in h.current ==> Retained(LastCurrent(h.before)[id], h.now)
  }

  lemma TruthfulKeepsRetained(h: History)
    requires Legal(h) && h.Publish? && h.synced && Truthful(h.before) && Truthful(h)
    ensures NoneLeftBehind(h)
  {
    forall id | id in LastCurrent(h.before) && id !in h.current
      ensures Retained(LastCurrent(h.before)[id], h.now)
    {
      LastCurrentIsRecent(h.before, id);
      StaleIff(h, FileName(id));
      assert CorpusOf(h.before)[FileName(id)].id == id;
    }
  }

  lemma RetainedIsShownRight(h: History, name: Name)
    requires Legal(h) && h.Publish? && h.synced && Truthful(h.before) && NoneLeftBehind(h)
    requires name in CorpusOf(h) && CorpusOf(h)[name].status == CURRENT
    ensures CorpusOf(h)[name].id in h.current
  {
    StaleIff(h, name);
    CorpusIsWellFiled(h.before);
  }

  /** Exactly when a sync leaves the statuses right. */
  lemma TruthfulIff(h: History)
    requires Legal(h) && h.Publish? && h.synced && Truthful(h.before)
    ensures Truthful(h) <==> NoneLeftBehind(h)
  {
    if Truthful(h) {
      TruthfulKeepsRetained(h);
    }
    if NoneLeftBehind(h) {
      RenderedIsShown(h);
      forall name | name in CorpusOf(h) && CorpusOf(h)[name].status == CURRENT
        ensures CorpusOf(h)[name].id in h.current
      {
        RetainedIsShownRight(h, name);
      }
    }
  }

  lemma RenderedIsShown(h: History)
    requires Legal(h) && h.Publish? && h.synced
    ensures forall id :: id in h.current ==> FileName(id) in CorpusOf(h) && CorpusOf(h)[FileName(id)] == h.current[id]
  {
  }

  /** A record rendered at the last sync is still inside the retention window 76 days later. */
  lemma {:induction false} LastCurrentIsRecent(h: History, id: Id)
    requires Legal(h) && id in LastCurrent(h)
    ensures LastAsked(h).Some? && CurrentSet(LastCurrent(h))
    ensures LastCurrent(h)[id].published.Some?
    ensures LastCurrent(h)[id].published.value >= LastAsked(h).value - WINDOW
  {
    if h.Publish? && !h.synced {
      LastCurrentIsRecent(h.before, id);
    }
  }

  /** So the statuses in the corpus are right as long as syncs come at least every 76 days. */
  lemma {:induction false} RegularIsTruthful(h: History)
    requires Legal(h) && Regular(h)
    ensures Truthful(h)
  {
    if h.Publish? {
      RegularIsTruthful(h.before);
      if h.synced {
        forall id | id in LastCurrent(h.before)
          ensures Retained(LastCurrent(h.before)[id], h.now)
        {
          LastCurrentIsRecent(h.before, id);
        }
        TruthfulIff(h);
      }
    }
  }

  /** No run between `g` and `h` renders `id`. */
  predicate Unrendered(g: History, h: History, id: Id) {
    g == h || (h.Publish? && id !in h.current && Unrendered(g, h.before, id))
  }

  /** While nobody renders it, a committed record keeps its date. */
  lemma {:induction false} PublishedStays(g: History, h: History, id: Id)
    requires Legal(h) && Unrendered(g, h, id) && IsHashId(id) && FileName(id) in CorpusOf(g)
    ensures Legal(g) && FileName(id) in CorpusOf(h)
    ensures CorpusOf(h)[FileName(id)].published == CorpusOf(g)[FileName(id)].published
  {
    if g != h {
      PublishedStays(g, h.before, id);
      if h.synced && FileName(id) in h.staged {
        DistinctFiles(h.staged[FileName(id)].id, id);
      }
    }
  }

  /** And once it has left the retention window it is never staged again. */
  lemma AgedOutIsNotStaged(g: History, h: History, id: Id)
    requires Legal(h) && h.Publish? && Unrendered(g, h, id) && g != h && IsHashId(id) && FileName(id) in CorpusOf(g)
    requires !Retained(CorpusOf(g)[FileName(id)], h.now)
    ensures FileName(id) !in h.staged
  {
    PublishedStays(g, h.before, id);
    if FileName(id) in h.staged {
      CorpusIsWellFiled(h.before);
      StagedHasSource(h, FileName(id));
      DistinctFiles(h.staged[FileName(id)].id, id);
    }
  }

  function Sample(id: Id): Record {
    Record(id, CURRENT, Some(0), "")
  }

  /** A record rendered at time zero on an empty corpus. */
  function FirstPublish(id: Id): History {
    Publish(Nothing, 0, 0, map[id := Sample(id)], map[], map[FileName(id) := Sample(id)], true)
  }

  /** And a sync 91 days later that renders nothing. */
  function SecondPublish(id: Id): History {
    Publish(FirstPublish(id), 91 * 24 * 3600, 91 * 24 * 3600, map[], map[], map[], true)
  }

  lemma FirstPublishLegal(id: Id)
    requires IsHashId(id)
    ensures Legal(FirstPublish(id)) && CorpusOf(FirstPublish(id)) == map[FileName(id) := Sample(id)]
  {
    SampleIsRendered(id);
    var h := FirstPublish(id);
    assert LoadedFrom(map[], 0, h.prev) && Legal(h.before) && Keyed(map[]);
    assert map[] + h.staged == h.staged;
  }

  lemma SampleIsRendered(id: Id)
    requires IsHashId(id)
    ensures CurrentSet(map[id := Sample(id)]) && Recent(map[id := Sample(id)], 0)
    ensures Stages(map[FileName(id) := Sample(id)], map[id := Sample(id)], map[])
  {
    var current := map[id := Sample(id)];
    assert current.Keys == {id} && |current| == |current.Keys|;
  }

  lemma SampleIsLoaded(id: Id, t: int)
    requires IsHashId(id) && 0 <= t <= WINDOW
    ensures var one, d := map[id := Sample(id)], map[FileName(id) := Sample(id)];
      CurrentSet(one) && Recent(one, t) && LoadedFrom(d, t, one) && Stages(d, one, one)
  {
    var one := map[id := Sample(id)];
    assert one.Keys == {id} && |one| == |one.Keys|;
  }

  lemma LegalStep(h: History, t: int, current: map<Id, Record>, prev: map<Id, Record>, staged: Dir, synced: bool)
    requires Legal(h) && (h.Publish? ==> h.now <= t)
    requires CurrentSet(current) && Recent(current, t) && Keyed(prev)
    requires LoadedFrom(CorpusOf(h), t, prev) && Stages(staged, current, prev)
    ensures Legal(Publish(h, t, t, current, prev, staged, synced))
  {
  }

  /** A run at `t` that renders the one record of the corpus once more. */
  function Repeated(h: History, id: Id, t: int, synced: bool): History {
    Publish(h, t, t, map[id := Sample(id)], map[id := Sample(id)], map[FileName(id) := Sample(id)], synced)
  }

  lemma RepeatedLegal(h: History, id: Id, t: int, synced: bool)
    requires Legal(h) && IsHashId(id) && CorpusOf(h) == map[FileName(id) := Sample(id)]
    requires h.Publish? && h.now <= t && 0 <= t <= WINDOW
    ensures Legal(Repeated(h, id, t, synced))
  {
    SampleIsLoaded(id, t);
    var one := map[id := Sample(id)];
    LegalStep(h, t, one, one, map[FileName(id) := Sample(id)], synced);
  }

  lemma RepeatedCorpus(h: History, id: Id, t: int, synced: bool)
    requires CorpusOf(h) == map[FileName(id) := Sample(id)]
    ensures CorpusOf(Repeated(h, id, t, synced)) == CorpusOf(h)
  {
    var d := map[FileName(id) := Sample(id)];
    assert d + d == d;
  }

  /** Nothing of the directory is inside the retention window. */
  predicate Aged(d: Dir, now: int) {
    forall name :: name in d ==> !Retained(d[name], now)
  }

  lemma NothingToStage(d: Dir, now: int)
    requires Aged(d, now)
    ensures LoadedFrom(d, now, map[]) && Stages(map[], map[], map[])
    ensures CurrentSet(map[]) && Recent(map[], now) && Keyed(map[])
  {
  }

  /** A run that finds nothing to render and nothing inside the window is legal and stages nothing. */
  lemma EmptyPublishLegal(h: History, now: int, synced: bool)
    requires Legal(h) && Aged(CorpusOf(h), now) && (h.Publish? ==> h.now <= now)
    ensures Legal(Publish(h, now, now, map[], map[], map[], synced))
    ensures CorpusOf(Publish(h, now, now, map[], map[], map[], synced)) == CorpusOf(h)
  {
    NothingToStage(CorpusOf(h), now);
    assert CorpusOf(h) + map[] == CorpusOf(h);
  }

  /** Without that the corpus can be wrong: it shows a record as current that the last run did not render. */
  lemma StaleHappens(id: Id)
    requires IsHashId(id)
    ensures Legal(SecondPublish(id)) && !Truthful(SecondPublish(id))
  {
    FirstPublishLegal(id);
    var h := SecondPublish(id);
    var corpus := CorpusOf(h.before);
    EmptyPublishLegal(h.before, h.now, true);
    assert CorpusOf(h) == corpus && FileName(id) in corpus && LastCurrent(h) == map[];
  }
}

/** internal/sleeper/client.go: the response cache under any interleaving of concurrent gets. Every
    stretch that holds the mutex, and every look at the clock, is one step. */
module Cache {
  import opened Basics
  import opened FlexCodec
  import opened CacheCodec

  type Tid = nat
  type Path = string

  /** Seconds an entry is served. */
  const TTL: nat := 300
  const CACHE_SWEEP_THRESHOLD: nat := 200

  datatype Entry = Entry(data: Any, expires: nat)

  /** What a fetched document is stored as, per path; None when get fails on it. */
  datatype Setup = Setup(stored: (Path, Json) -> Option<Any>)

  datatype Phase =
    | Called(path: Path)
    | Found(path: Path, entry: Entry)
    | Stale(path: Path)
    | Fetching(path: Path)
    | Fetched(path: Path, body: Json)

  datatype State = State(clock: nat, cache: map<Path, Entry>, calls: map<Tid, Phase>)

  /** `lag` is the time between the two looks at the clock inside the storing lock region. */
  datatype Event =
    | Advance(seconds: nat)
    | Call(tid: Tid, path: Path)
    | Lookup(tid: Tid)
    | Check(tid: Tid)
    | Evict(tid: Tid)
    | FetchOk(tid: Tid, body: Json)
    | FetchFails(tid: Tid)
    | Store(tid: Tid, lag: nat)

  function Swept(cache: map<Path, Entry>, now: nat): map<Path, Entry> {
    map p | p in cache && now <= cache[p].expires :: cache[p]
  }

  /** Storing: past the threshold sweep, and if that is not enough, start over. */
  function Stored(cache: map<Path, Entry>, path: Path, data: Any, now: nat, later: nat): map<Path, Entry> {
    var grown := cache[path := Entry(data, now + TTL)];
    if |grown| <= CACHE_SWEEP_THRESHOLD then grown
    else if |Swept(grown, later)| <= CACHE_SWEEP_THRESHOLD then Swept(grown, later)
    else map[]
  }

  predicate Allowed(u: Setup, s: State, e: Event) {
    match e
    case Advance(_) => true
    case Call(tid, _) => tid !in s.calls
    case Lookup(tid) => tid in s.calls && s.calls[tid].Called?
    case Check(tid) => tid in s.calls && s.calls[tid].Found?
    case Evict(tid) => tid in s.calls && s.calls[tid].Stale?
    case FetchOk(tid, body) => tid in s.calls && s.calls[tid].Fetching? && u.stored(s.calls[tid].path, body).Some?
    case FetchFails(tid) => tid in s.calls && s.calls[tid].Fetching?
    case Store(tid, _) =>
      && tid in s.calls && s.calls[tid].Fetched?
      && u.stored(s.calls[tid].path, s.calls[tid].body).Some?
  }

  /** The fresh-enough test of a found entry. */
  predicate Hits(s: State, tid: Tid) {
    tid in s.calls && s.calls[tid].Found? && s.clock < s.calls[tid].entry.expires
  }

  function After(u: Setup, s: State, e: Event): State
    requires Allowed(u, s, e)
  {
    match e
    case Advance(d) => s.(clock := s.clock + d)
    case Call(tid, path) => s.(calls := s.calls[tid := Called(path)])
    case Lookup(tid) =>
      var path := s.calls[tid].path;
      s.(calls := s.calls[tid := if path in s.cache then Found(path, s.cache[path]) else Fetching(path)])
    case Check(tid) =>
      if Hits(s, tid) then s.(calls := s.calls - {tid})
      else s.(calls := s.calls[tid := Stale(s.calls[tid].path)])
    case Evict(tid) =>
      var path := s.calls[tid].path;
      s.(cache := s.cache - {path}, calls := s.calls[tid := Fetching(path)])
    case FetchOk(tid, body) => s.(calls := s.calls[tid := Fetched(s.calls[tid].path, body)])
    case FetchFails(tid) => s.(calls := s.calls - {tid})
    case Store(tid, lag) =>
      var c := s.calls[tid];
      State(s.clock + lag,
            Stored(s.cache, c.path, u.stored(c.path, c.body).value, s.clock, s.clock + lag),
            s.calls - {tid})
  }

  datatype History = Start | Then(before: History, event: Event)

  predicate Legal(u: Setup, h: History)
    decreases h, 0
  {
    match h
    case Start => true
    case Then(before, e) => Legal(u, before) && Allowed(u, StateOf(u, before), e)
  }

  function StateOf(u: Setup, h: History): State
    requires Legal(u, h)
    decreases h, 1
  {
    match h
    case Start => State(0, map[], map[])
    case Then(before, e) => After(u, StateOf(u, before), e)
  }

  // ---------- Size ----------

  lemma RemovalShrinks(cache: map<Path, Entry>, path: Path)
    ensures |cache - {path}| <= |cache|
  {
  }

  /** At every moment, whatever the interleaving, at most 200 entries. */
  lemma {:induction false} CacheIsBounded(u: Setup, h: History)
    requires Legal(u, h)
    ensures |StateOf(u, h).cache| <= 200
  {
    match h
    case Start =>
    case Then(before, e) =>
      CacheIsBounded(u, before);
      if e.Evict? {
        var s := StateOf(u, before);
        RemovalShrinks(s.cache, s.calls[e.tid].path);
      }
  }

  /** What a store does to the others: nothing while there is room; else the expired go; and only when
      more than 200 live entries remain does it drop everything, the new entry included. */
  lemma StoreOutcome(cache: map<Path, Entry>, path: Path, data: Any, now: nat, lag: nat)
    requires |cache| <= CACHE_SWEEP_THRESHOLD && lag <= TTL
    ensures var r := Stored(cache, path, data, now, now + lag);
      var e := Entry(data, now + TTL);
      var live := Swept(cache[path := e], now + lag);
      && (r == map[] <==> |live| > CACHE_SWEEP_THRESHOLD)
      && (r != map[] ==> path in r && r[path] == e)
      && (r != map[] ==> forall p :: p in cache && p != path && now + lag <= cache[p].expires ==>
            p in r && r[p] == cache[p])
      && (path in cache ==> r == cache[path := e])
  {
    var e := Entry(data, now + TTL);
    var grown := cache[path := e];
    assert path in Swept(grown, now + lag);
    if path in cache {
      assert grown.Keys == cache.Keys;
      KeysCount(cache, grown);
      SweptIsPart(grown, now + lag);
    }
    if |grown| <= CACHE_SWEEP_THRESHOLD {
      SweptIsPart(grown, now + lag);
    }
  }

  lemma KeysCount(a: map<Path, Entry>, b: map<Path, Entry>)
    requires a.Keys == b.Keys
    ensures |a| == |b|
  {
  }

  lemma SweptIsPart(cache: map<Path, Entry>, now: nat)
    ensures |Swept(cache, now)| <= |cache|
  {
    SubsetSize(Swept(cache, now).Keys, cache.Keys);
    assert |Swept(cache, now)| == |Swept(cache, now).Keys| && |cache| == |cache.Keys|;
  }

  // ---------- Where a served value comes from ----------

  /** Some get of `path` fetched `body` and stored it when the clock showed `time`. */
  predicate StoredFrom(u: Setup, h: History, path: Path, body: Json, time: nat)
    requires Legal(u, h)
  {
    h.Then? && (
      || StoredFrom(u, h.before, path, body, time)
      || (h.event.Store?
          && StateOf(u, h.before).calls[h.event.tid] == Fetched(path, body)
          && StateOf(u, h.before).clock == time))
  }

  /** Some get of `path` received `body` from the server. */
  predicate FetchedFor(u: Setup, h: History, path: Path, body: Json)
    requires Legal(u, h)
  {
    h.Then? && (
      || FetchedFor(u, h.before, path, body)
      || (h.event.FetchOk? && h.event.body == body && StateOf(u, h.before).calls[h.event.tid].path == path))
  }

  /** An entry that was stored for `path` from a fetch for `path`. */
  ghost predicate Genuine(u: Setup, h: History, path: Path, entry: Entry)
    requires Legal(u, h)
  {
    exists body: Json, time: nat :: Source(u, h, path, entry, body, time)
  }

  predicate Source(u: Setup, h: History, path: Path, entry: Entry, body: Json, time: nat)
    requires Legal(u, h)
  {
    && StoredFrom(u, h, path, body, time) && FetchedFor(u, h, path, body)
    && u.stored(path, body).Some?
    && entry == Entry(u.stored(path, body).value, time + TTL)
    && time <= StateOf(u, h).clock
  }

  ghost predicate AllGenuine(u: Setup, h: History)
    requires Legal(u, h)
  {
    var s := StateOf(u, h);
    && (forall p :: p in s.cache ==> Genuine(u, h, p, s.cache[p]))
    && (forall t :: t in s.calls && s.calls[t].Found? ==> Genuine(u, h, s.calls[t].path, s.calls[t].entry))
    && (forall t :: t in s.calls && s.calls[t].Fetched? ==> FetchedFor(u, h, s.calls[t].path, s.calls[t].body))
  }

  lemma ClockGrows(u: Setup, s: State, e: Event)
    requires Allowed(u, s, e)
    ensures s.clock <= After(u, s, e).clock
  {
  }

  lemma SourceStays(u: Setup, h: History, path: Path, entry: Entry, body: Json, time: nat)
    requires h.Then? && Legal(u, h) && Source(u, h.before, path, entry, body, time)
    ensures Source(u, h, path, entry, body, time)
  {
    ClockGrows(u, StateOf(u, h.before), h.event);
    assert StateOf(u, h) == After(u, StateOf(u, h.before), h.event);
  }

  lemma StaysGenuine(u: Setup, h: History, path: Path, entry: Entry)
    requires h.Then? && Legal(u, h) && Genuine(u, h.before, path, entry)
    ensures Genuine(u, h, path, entry)
  {
    var body: Json, time: nat :| Source(u, h.before, path, entry, body, time);
    SourceStays(u, h, path, entry, body, time);
  }

  lemma NewIsGenuine(u: Setup, h: History, path: Path, body: Json)
    requires h.Then? && Legal(u, h) && h.event.Store?
    requires StateOf(u, h.before).calls[h.event.tid] == Fetched(path, body) && FetchedFor(u, h.before, path, body)
    ensures Genuine(u, h, path, Entry(u.stored(path, body).value, StateOf(u, h.before).clock + TTL))
  {
    var now := StateOf(u, h.before).clock;
    assert StoredFrom(u, h, path, body, now);
    assert Source(u, h, path, Entry(u.stored(path, body).value, now + TTL), body, now);
  }

  /** Every step's cache consists of old entries and at most the one just stored. */
  lemma CacheStep(u: Setup, s: State, e: Event, p: Path)
    requires Allowed(u, s, e) && p in After(u, s, e).cache
    ensures || (p in s.cache && After(u, s, e).cache[p] == s.cache[p])
            || (e.Store? && p == s.calls[e.tid].path
                && After(u, s, e).cache[p] == Entry(u.stored(p, s.calls[e.tid].body).value, s.clock + TTL))
  {
  }

  lemma CallStep(u: Setup, s: State, e: Event, t: Tid)
    requires Allowed(u, s, e) && t in After(u, s, e).calls
    ensures var c := After(u, s, e).calls[t];
      && (c.Found? ==> (t in s.calls && s.calls[t] == c) || (c.path in s.cache && s.cache[c.path] == c.entry))
      && (c.Fetched? ==> (t in s.calls && s.calls[t] == c)
                         || (e.FetchOk? && e.tid == t && e.body == c.body && s.calls[t].path == c.path))
  {
  }

  lemma {:induction false} AlwaysGenuine(u: Setup, h: History)
    requires Legal(u, h)
    ensures AllGenuine(u, h)
  {
    if h.Then? {
      AlwaysGenuine(u, h.before);
      var s, r := StateOf(u, h.before), StateOf(u, h);
      forall p | p in r.cache
        ensures Genuine(u, h, p, r.cache[p])
      {
        CacheGenuine(u, h, p);
      }
      forall t | t in r.calls
        ensures r.calls[t].Found? ==> Genuine(u, h, r.calls[t].path, r.calls[t].entry)
        ensures r.calls[t].Fetched? ==> FetchedFor(u, h, r.calls[t].path, r.calls[t].body)
      {
        CallGenuine(u, h, t);
      }
    }
  }

  lemma CacheGenuine(u: Setup, h: History, p: Path)
    requires h.Then? && Legal(u, h) && p in StateOf(u, h).cache
    requires var s := StateOf(u, h.before);
      && (p in s.cache ==> Genuine(u, h.before, p, s.cache[p]))
      && (h.event.Store? ==> FetchedFor(u, h.before, s.calls[h.event.tid].path, s.calls[h.event.tid].body))
    ensures Genuine(u, h, p, StateOf(u, h).cache[p])
  {
    var s := StateOf(u, h.before);
    CacheStep(u, s, h.event, p);
    if p in s.cache && StateOf(u, h).cache[p] == s.cache[p] {
      StaysGenuine(u, h, p, s.cache[p]);
    } else {
      NewIsGenuine(u, h, p, s.calls[h.event.tid].body);
    }
  }

  lemma CallGenuine(u: Setup, h: History, t: Tid)
    requires h.Then? && Legal(u, h) && AllGenuine(u, h.before) && t in StateOf(u, h).calls
    ensures var c := StateOf(u, h).calls[t];
      && (c.Found? ==> Genuine(u, h, c.path, c.entry))
      && (c.Fetched? ==> FetchedFor(u, h, c.path, c.body))
  {
    var s, c := StateOf(u, h.before), StateOf(u, h).calls[t];
    CallStep(u, s, h.event, t);
    if c.Found? {
      assert Genuine(u, h.before, c.path, c.entry);
      StaysGenuine(u, h, c.path, c.entry);
    }
  }

  /** The source of a found entry is less than five minutes old. */
  ghost predicate RecentSource(u: Setup, h: History, tid: Tid, body: Json, time: nat)
    requires Legal(u, h) && Hits(StateOf(u, h), tid)
  {
    var s := StateOf(u, h);
    Source(u, h, s.calls[tid].path, s.calls[tid].entry, body, time) && time <= s.clock < time + 300
  }

  /** A hit, in any interleaving and despite racing evictions: the entry was fetched for the same path
      and stored less than five minutes before the expiry check. */
  lemma HitIsRecent(u: Setup, h: History, tid: Tid)
    requires Legal(u, h) && Hits(StateOf(u, h), tid)
    ensures exists body: Json, time: nat :: RecentSource(u, h, tid, body, time)
  {
    AlwaysGenuine(u, h);
    var s := StateOf(u, h);
    var c := s.calls[tid];
    assert Genuine(u, h, c.path, c.entry);
    var body: Json, time: nat :| Source(u, h, c.path, c.entry, body, time);
    assert RecentSource(u, h, tid, body, time);
  }

  /** The setup of the real client: decode to the path's response type, encode, decode as `any`. */
  ghost predicate UsesCodec(u: Setup, lib: Library, typeOf: Path -> Ty) {
    forall p, body :: u.stored(p, body) ==
      if Fetch(lib, typeOf(p), body).Some? then Some(Fetch(lib, typeOf(p), body).value.1) else None
  }

  /** And the caller gets what that fetch decoded, exactly when the value survives the cache codec. */
  lemma HitServesFetchedValue(
    u: Setup, lib: Library, typeOf: Path -> Ty, h: History, tid: Tid, body: Json, time: nat)
    requires Legal(u, h) && Hits(StateOf(u, h), tid) && RecentSource(u, h, tid, body, time)
    requires UsesCodec(u, lib, typeOf) && Sound(lib) && Proper(typeOf(StateOf(u, h).calls[tid].path))
    ensures var c := StateOf(u, h).calls[tid];
      var ty := typeOf(c.path);
      && Fetch(lib, ty, body).Some?
      && var fetched := Fetch(lib, ty, body).value.0;
         var served := CopyEntry(lib, ty, c.entry.data);
         HasType(lib, ty, fetched) && (SmallInts(lib, ty, fetched) ==>
           served.Some? && (Agree(lib, ty, fetched, served.value) <==> Survives(ty, fetched)))
  {
    var c := StateOf(u, h).calls[tid];
    var ty := typeOf(c.path);
    assert u.stored(c.path, body).Some?;
    HitIsMissIff(lib, ty, body);
  }

  // ---------- The eviction that races ----------

  /** A get of `path` by `tid` that misses, up to the point where it will store. */
  function Missed(h: History, tid: Tid, path: Path, body: Json): History {
    Then(Then(Then(h, Call(tid, path)), Lookup(tid)), FetchOk(tid, body))
  }

  /** One more step of a history. */
  lemma StepTo(u: Setup, h: History, e: Event, s: State, r: State)
    requires Legal(u, h) && StateOf(u, h) == s && Allowed(u, s, e) && After(u, s, e) == r
    ensures Legal(u, Then(h, e)) && StateOf(u, Then(h, e)) == r
  {
  }

  lemma MissFetches(u: Setup, h: History, tid: Tid, path: Path, body: Json)
    requires Legal(u, h) && tid !in StateOf(u, h).calls && u.stored(path, body).Some?
    requires path !in StateOf(u, h).cache
    ensures Legal(u, Missed(h, tid, path, body))
    ensures StateOf(u, Missed(h, tid, path, body))
            == StateOf(u, h).(calls := StateOf(u, h).calls[tid := Fetched(path, body)])
  {
    var s := StateOf(u, h);
    var s1, s2 := s.(calls := s.calls[tid := Called(path)]), s.(calls := s.calls[tid := Fetching(path)]);
    var s3 := s.(calls := s.calls[tid := Fetched(path, body)]);
    MissSteps(u, s, tid, path, body);
    StepTo(u, h, Call(tid, path), s, s1);
    StepTo(u, Then(h, Call(tid, path)), Lookup(tid), s1, s2);
    StepTo(u, Then(Then(h, Call(tid, path)), Lookup(tid)), FetchOk(tid, body), s2, s3);
  }

  lemma MissSteps(u: Setup, s: State, tid: Tid, path: Path, body: Json)
    requires tid !in s.calls && u.stored(path, body).Some? && path !in s.cache
    ensures var s1, s2 := s.(calls := s.calls[tid := Called(path)]), s.(calls := s.calls[tid := Fetching(path)]);
      && After(u, s, Call(tid, path)) == s1
      && After(u, s1, Lookup(tid)) == s2
      && Allowed(u, s2, FetchOk(tid, body))
      && After(u, s2, FetchOk(tid, body)) == s.(calls := s.calls[tid := Fetched(path, body)])
  {
  }

  lemma StoredInEmpty(path: Path, data: Any, now: nat, later: nat)
    ensures Stored(map[], path, data, now, later) == map[path := Entry(data, now + TTL)]
  {
  }

  lemma StoreFirst(u: Setup, h: History, tid: Tid, path: Path, body: Json)
    requires Legal(u, h) && u.stored(path, body).Some? && StateOf(u, h).cache == map[]
    requires tid in StateOf(u, h).calls && StateOf(u, h).calls[tid] == Fetched(path, body)
    ensures var s := StateOf(u, h); var g := Then(h, Store(tid, 0));
      && Legal(u, g)
      && StateOf(u, g) == State(s.clock, map[path := Entry(u.stored(path, body).value, s.clock + TTL)], s.calls - {tid})
  {
    var s := StateOf(u, h);
    StoreSteps(u, s, tid, path, body);
    StepTo(u, h, Store(tid, 0), s, After(u, s, Store(tid, 0)));
  }

  lemma StoreSteps(u: Setup, s: State, tid: Tid, path: Path, body: Json)
    requires u.stored(path, body).Some? && s.cache == map[] && tid in s.calls && s.calls[tid] == Fetched(path, body)
    ensures Allowed(u, s, Store(tid, 0))
    ensures After(u, s, Store(tid, 0))
            == State(s.clock, map[path := Entry(u.stored(path, body).value, s.clock + TTL)], s.calls - {tid})
  {
    StoredInEmpty(path, u.stored(path, body).value, s.clock, s.clock);
  }

  /** A get of `path` that finds an entry gone stale, up to the point where it will evict. */
  function SeesStale(h: History, tid: Tid, path: Path): History {
    Then(Then(Then(h, Call(tid, path)), Lookup(tid)), Check(tid))
  }

  lemma StaleIsSeen(u: Setup, h: History, tid: Tid, path: Path)
    requires Legal(u, h) && tid !in StateOf(u, h).calls
    requires path in StateOf(u, h).cache && StateOf(u, h).cache[path].expires <= StateOf(u, h).clock
    ensures Legal(u, SeesStale(h, tid, path))
    ensures StateOf(u, SeesStale(h, tid, path)) == StateOf(u, h).(calls := StateOf(u, h).calls[tid := Stale(path)])
  {
    var s := StateOf(u, h);
    var s1, s2 := s.(calls := s.calls[tid := Called(path)]), s.(calls := s.calls[tid := Found(path, s.cache[path])]);
    StaleSteps(u, s, tid, path);
    StepTo(u, h, Call(tid, path), s, s1);
    StepTo(u, Then(h, Call(tid, path)), Lookup(tid), s1, s2);
    StepTo(u, Then(Then(h, Call(tid, path)), Lookup(tid)), Check(tid), s2, s.(calls := s.calls[tid := Stale(path)]));
  }

  lemma StaleSteps(u: Setup, s: State, tid: Tid, path: Path)
    requires tid !in s.calls && path in s.cache && s.cache[path].expires <= s.clock
    ensures var s1 := s.(calls := s.calls[tid := Called(path)]);
      var s2 := s.(calls := s.calls[tid := Found(path, s.cache[path])]);
      && After(u, s, Call(tid, path)) == s1
      && After(u, s1, Lookup(tid)) == s2
      && After(u, s2, Check(tid)) == s.(calls := s.calls[tid := Stale(path)])
  {
  }

  /** Two gets see the same expired entry; the first evicts it, fetches and stores; then the second evicts
      what the first has just stored. */
  ghost predicate EvictsFresh(u: Setup, h: History, tid: Tid)
    requires Legal(u, h)
  {
    var s := StateOf(u, h);
    && Allowed(u, s, Evict(tid))
    && s.calls[tid].path in s.cache && s.clock < s.cache[s.calls[tid].path].expires
  }

  /** Two gets that have both found the same entry expired. */
  function BothStale(path: Path, body: Json): History {
    var stored := Then(Missed(Start, 1, path, body), Store(1, 0));
    SeesStale(SeesStale(Then(stored, Advance(TTL)), 1, path), 2, path)
  }

  lemma BothSeeStale(u: Setup, path: Path, body: Json)
    requires u.stored(path, body).Some?
    ensures var h := BothStale(path, body);
      && Legal(u, h) && StateOf(u, h).cache.Keys == {path}
      && StateOf(u, h).calls == map[1 := Stale(path), 2 := Stale(path)]
  {
    var missed := Missed(Start, 1, path, body);
    MissFetches(u, Start, 1, path, body);
    StoreFirst(u, missed, 1, path, body);
    var a := Then(missed, Store(1, 0));
    var b := Then(a, Advance(TTL));
    assert Legal(u, b) && StateOf(u, b).calls == map[];
    StaleIsSeen(u, b, 1, path);
    StaleIsSeen(u, SeesStale(b, 1, path), 2, path);
  }

  /** It does happen, for every path that can be stored at all; HitIsRecent holds all the same. */
  lemma EvictionCanRace(u: Setup, path: Path, body: Json)
    requires u.stored(path, body).Some?
    ensures exists h, tid: Tid :: Legal(u, h) && EvictsFresh(u, h, tid)
  {
    BothSeeStale(u, path, body);
    var d := BothStale(path, body);
    var e := Then(d, Evict(1));
    assert Legal(u, e) && StateOf(u, e).cache == map[];
    assert StateOf(u, e).calls == map[1 := Fetching(path), 2 := Stale(path)];
    var f := Then(e, FetchOk(1, body));
    assert Legal(u, f) && StateOf(u, f).calls == map[1 := Fetched(path, body), 2 := Stale(path)];
    SecondEvicts(u, f, path, body);
  }

  lemma SecondEvicts(u: Setup, h: History, path: Path, body: Json)
    requires Legal(u, h) && u.stored(path, body).Some?
    requires StateOf(u, h).calls == map[1 := Fetched(path, body), 2 := Stale(path)]
    requires StateOf(u, h).cache == map[]
    ensures exists g, tid: Tid :: Legal(u, g) && EvictsFresh(u, g, tid)
  {
    StoreFirst(u, h, 1, path, body);
    var g := Then(h, Store(1, 0));
    assert EvictsFresh(u, g, 2);
  }

  // ---------- The client object ----------

  /** One attempt against the server. */
  datatype Answer = BadRequest | NoReply | Reply(status: int, body: Json)

  const STATUS_OK: int := 200

  /** An attempt that is worth another one: a network error, or any status but 200. */
  predicate Passing(a: Answer) {
    a.NoReply? || (a.Reply? && a.status != 200)
  }

  /** Attempt `k` brings `body` with a 200, and all before it were worth another one. */
  ghost predicate Answered(answers: nat -> Answer, k: nat, body: Json) {
    answers(k) == Reply(200, body) && forall i: nat :: i < k ==> Passing(answers(i))
  }

  /** The attempts end without a body: one of them is no request at all, or three have passed. */
  ghost predicate Unanswered(answers: nat -> Answer, attempts: nat) {
    && 1 <= attempts <= 3 && (forall i: nat :: i < attempts - 1 ==> Passing(answers(i)))
    && (answers(attempts - 1).BadRequest? || (attempts == 3 && Passing(answers(2))))
  }

  class Client {
    const u: Setup
    var cache: map<Path, Entry>
    /** The clock, and where every get is. */
    ghost var clock: nat
    ghost var calls: map<Tid, Phase>

    constructor (u: Setup)
      ensures this.u == u && View() == StateOf(u, Start)
    {
      this.u := u;
      cache, clock, calls := map[], 0, map[];
    }

    ghost function View(): State
      reads this
    {
      State(clock, cache, calls)
    }

    // Each of the following is one step.

    ghost method Pass(seconds: nat)
      modifies `clock
      ensures View() == After(u, old(View()), Advance(seconds))
    {
      clock := clock + seconds;
    }

    method Enter(ghost tid: Tid, path: Path)
      requires Allowed(u, View(), Call(tid, path))
      modifies `calls
      ensures View() == After(u, old(View()), Call(tid, path))
    {
      calls := calls[tid := Called(path)];
    }

    /** The read-locked region: the get goes on with the entry it has found, or to the server. */
    method Find(ghost tid: Tid, path: Path) returns (entry: Option<Entry>)
      requires Allowed(u, View(), Lookup(tid)) && calls[tid].path == path
      modifies `calls
      ensures View() == After(u, old(View()), Lookup(tid))
      ensures calls[tid] == if entry.Some? then Found(path, entry.value) else Fetching(path)
    {
      if path !in cache {
        calls := calls[tid := Fetching(path)];
        return None;
      }
      calls := calls[tid := Found(path, cache[path])];
      return Some(cache[path]);
    }

    /** The look at the clock: a hit ends the get. */
    method IsFresh(ghost tid: Tid, entry: Entry, now: nat) returns (valid: bool)
      requires Allowed(u, View(), Check(tid)) && calls[tid].entry == entry && now == clock
      modifies `calls
      ensures View() == After(u, old(View()), Check(tid))
      ensures valid <==> now < entry.expires
      ensures calls == if valid then old(calls) - {tid} else old(calls)[tid := Stale(old(calls)[tid].path)]
    {
      valid := now < entry.expires;
      calls := if valid then calls - {tid} else calls[tid := Stale(calls[tid].path)];
    }

    /** The evicting region, which does not look again at what it deletes. */
    method Delete(ghost tid: Tid, path: Path)
      requires Allowed(u, View(), Evict(tid)) && calls[tid].path == path
      modifies `cache, `calls
      ensures View() == After(u, old(View()), Evict(tid))
      ensures cache == old(cache) - {path} && calls == old(calls)[tid := Fetching(path)]
    {
      cache := cache - {path};
      calls := calls[tid := Fetching(path)];
    }

    /** Decoding the body that has arrived, if any, for the caller and for the cache. */
    method Receive(ghost tid: Tid, path: Path, body: Option<Json>) returns (data: Option<Any>)
      requires Allowed(u, View(), FetchFails(tid)) && calls[tid].path == path
      modifies `calls
      ensures data == if body.None? then None else u.stored(path, body.value)
      ensures calls == if data.None? then old(calls) - {tid} else old(calls)[tid := Fetched(path, body.value)]
      ensures View() == After(u, old(View()), if data.None? then FetchFails(tid) else FetchOk(tid, body.value))
    {
      data := if body.None? then None else u.stored(path, body.value);
      calls := if data.None? then calls - {tid} else calls[tid := Fetched(path, body.value)];
    }

    method SweepExpiredLocked(now: nat)
      modifies `cache
      ensures cache == Swept(old(cache), now)
      ensures forall p :: p in cache <==> p in old(cache) && now <= old(cache)[p].expires
      ensures forall p :: p in cache ==> cache[p] == old(cache)[p]
    {
      var rest := cache.Keys;
      ghost var before := cache;
      while rest != {}
        invariant rest <= before.Keys
        invariant forall p :: p in cache <==> p in before && (p in rest || now <= before[p].expires)
        invariant forall p :: p in cache ==> cache[p] == before[p]
        decreases |rest|
      {
        var k :| k in rest;
        rest := rest - {k};
        if now > cache[k].expires {
          cache := cache - {k};
        }
      }
      assert cache == Swept(before, now);
    }

    /** The storing region; `later` is the clock when the sweep looks at it. */
    method Put(ghost tid: Tid, path: Path, data: Any, now: nat, later: nat)
      requires Allowed(u, View(), Store(tid, 0)) && calls[tid].path == path
      requires u.stored(path, calls[tid].body) == Some(data) && now == clock && now <= later
      modifies this
      ensures View() == After(u, old(View()), Store(tid, later - now))
      ensures cache == Stored(old(cache), path, data, now, later) && calls == old(calls) - {tid} && clock == later
    {
      Insert(path, data, now, later);
      clock := later;
      calls := calls - {tid};
    }

    method Insert(path: Path, data: Any, now: nat, later: nat)
      modifies `cache
      ensures cache == Stored(old(cache), path, data, now, later)
    {
      cache := cache[path := Entry(data, now + TTL)];
      if |cache| > CACHE_SWEEP_THRESHOLD {
        SweepExpiredLocked(later);
        if |cache| > CACHE_SWEEP_THRESHOLD {
          cache := map[];
        }
      }
    }

    method DoGet(answers: nat -> Answer) returns (body: Option<Json>, attempts: nat)
      ensures 1 <= attempts <= 3
      ensures body.Some? ==> Answered(answers, attempts - 1, body.value)
      ensures body.None? ==> Unanswered(answers, attempts)
      ensures body.Some? <==> exists k: nat, b :: k < 3 && Answered(answers, k, b)
    {
      attempts := 0;
      while attempts < 3
        invariant attempts <= 3
        invariant forall k: nat :: k < attempts ==> Passing(answers(k))
      {
        var answer := answers(attempts);
        attempts := attempts + 1;
        if answer.BadRequest? {
          return None, attempts;
        }
        if answer.Reply? && answer.status == STATUS_OK {
          assert Answered(answers, attempts - 1, answer.body);
          return Some(answer.body), attempts;
        }
      }
      return None, attempts;
    }

    /** get from start to end when no other goroutine steps in between; `served` is the data that is
        decoded for the caller, None an error. The clock shows `checked` at the expiry check, `now` when
        the value is stored and `later` at the sweep. */
    method Get(ghost tid: Tid, path: Path, checked: nat, answers: nat -> Answer, now: nat, later: nat)
      returns (served: Option<Any>)
      requires tid !in calls && clock <= checked <= now <= later
      modifies this
      ensures calls == old(calls) && old(clock) <= clock <= later
      ensures path in old(cache) && checked < old(cache)[path].expires ==>
                served == Some(old(cache)[path].data) && cache == old(cache)
      ensures !(path in old(cache) && checked < old(cache)[path].expires) ==>
                Fetches(old(cache) - {path}, path, answers, served, cache, now, later)
    {
      served := FromCache(tid, path, checked);
      if served.Some? {
        return;
      }
      served := FetchAndStore(tid, path, answers, now, later);
      assert old(calls)[tid := Fetching(path)] - {tid} == old(calls);
    }

    /** A get that asks the server and finds `was` in the cache: the first 200 within three attempts is served
        and stored, and any error, of the requests or of the codec, stores nothing. */
    ghost predicate Fetches(was: map<Path, Entry>, path: Path, answers: nat -> Answer, served: Option<Any>,
                            cache: map<Path, Entry>, now: nat, later: nat)
    {
      && (served.Some? ==>
            && cache == Stored(was, path, served.value, now, later)
            && exists k: nat, b :: k < 3 && Answered(answers, k, b) && u.stored(path, b) == served)
      && (served.None? ==>
            && cache == was
            && forall k: nat, b :: k < 3 && Answered(answers, k, b) ==> u.stored(path, b).None?)
    }

    /** The part of a get that asks the cache. */
    method FromCache(ghost tid: Tid, path: Path, checked: nat) returns (served: Option<Any>)
      requires tid !in calls && clock <= checked
      modifies this
      ensures clock == checked
      ensures if path in old(cache) && checked < old(cache)[path].expires
        then served == Some(old(cache)[path].data) && cache == old(cache) && calls == old(calls)
        else served.None? && cache == old(cache) - {path} && calls == old(calls)[tid := Fetching(path)]
    {
      Enter(tid, path);
      var entry := Find(tid, path);
      Pass(checked - clock);
      if entry.None? {
        return None;
      }
      var valid := IsFresh(tid, entry.value, checked);
      if valid {
        assert calls == old(calls);
        return Some(entry.value.data);
      }
      Delete(tid, path);
      served := None;
    }

    /** The part of a get that asks the server. */
    method FetchAndStore(ghost tid: Tid, path: Path, answers: nat -> Answer, now: nat, later: nat)
      returns (served: Option<Any>)
      requires tid in calls && calls[tid] == Fetching(path) && clock <= now <= later
      modifies this
      ensures calls == old(calls) - {tid} && old(clock) <= clock <= later
      ensures Fetches(old(cache), path, answers, served, cache, now, later)
    {
      var body, attempts := DoGet(answers);
      served := Receive(tid, path, body);
      if served.None? {
        forall k: nat, b | k < 3 && Answered(answers, k, b)
          ensures u.stored(path, b).None?
        {
          OneAnswer(answers, k, b, attempts, body);
        }
        return;
      }
      Pass(now - clock);
      Put(tid, path, served.value, now, later);
    }
  }

  /** At most one body is the answer. */
  lemma OneAnswer(answers: nat -> Answer, k: nat, b: Json, attempts: nat, body: Option<Json>)
    requires k < 3 && Answered(answers, k, b)
    requires body.Some? ==> attempts >= 1 && Answered(answers, attempts - 1, body.value)
    requires body.None? ==> Unanswered(answers, attempts)
    ensures body == Some(b)
  {
    if body.Some? {
      assert k == attempts - 1;
    }
  }
}

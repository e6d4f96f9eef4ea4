/** internal/scheduler/scheduler.go: cron jobs and manual triggers under one mutex. Every stretch of
    code that holds the mutex is one step; any number of goroutines interleave between the steps. */
module Scheduler {
  import opened Basics

  type Tid = nat
  /** A registered step function. */
  type Fn = nat

  /** How a step function ends; runStep turns a panic into an error. */
  datatype Outcome = Ok | Error | Panicked

  datatype Status = Status(name: string, lastRun: nat, lastStatus: string, lastDuration: nat)

  /** Where a goroutine is inside runJob. Unwinding is a Goexit from the step: deferred calls still run. */
  datatype Phase =
    | Spawned
    | Running(start: nat)
    | Returned(start: nat, duration: nat, failed: bool)
    | Recorded
    | Unwinding

  datatype Thread = Thread(name: string, step: string, fn: Fn, phase: Phase)

  datatype Entry = Entry(name: string, step: string, fn: Fn)

  datatype State = State(
    steps: map<string, Fn>,
    cron: seq<Entry>,
    running: set<string>,
    status: map<string, Status>,
    threads: map<Tid, Thread>)

  datatype Event =
    | Register(step: string, fn: Fn)
    | AddJob(name: string, step: string, parses: bool)
    | Tick(tid: Tid, entry: nat)
    | Trigger(tid: Tid, cancelled: bool, name: string, step: string)
    | Begin(tid: Tid, now: nat)
    | Return(tid: Tid, outcome: Outcome, duration: nat)
    | Goexit(tid: Tid)
    | Record(tid: Tid)
    | Release(tid: Tid)

  predicate Active(s: State, tid: Tid) {
    tid in s.threads && !s.threads[tid].phase.Spawned?
  }

  predicate Allowed(s: State, e: Event) {
    match e
    case Register(_, _) => true
    case AddJob(_, _, _) => true
    case Tick(tid, k) => tid !in s.threads && k < |s.cron|
    case Trigger(tid, _, _, _) => tid !in s.threads
    case Begin(tid, _) => tid in s.threads && s.threads[tid].phase.Spawned?
    case Return(tid, _, _) => tid in s.threads && s.threads[tid].phase.Running?
    case Goexit(tid) => tid in s.threads && s.threads[tid].phase.Running?
    case Record(tid) => tid in s.threads && s.threads[tid].phase.Returned?
    case Release(tid) => tid in s.threads && (s.threads[tid].phase.Recorded? || s.threads[tid].phase.Unwinding?)
  }

  function Moved(s: State, tid: Tid, p: Phase): map<Tid, Thread>
    requires tid in s.threads
  {
    s.threads[tid := s.threads[tid].(phase := p)]
  }

  function StatusText(failed: bool): string {
    if failed then "error" else "ok"
  }

  /** The status record runJob writes for a run that has returned. */
  function StatusFor(t: Thread): Status
    requires t.phase.Returned?
  {
    Status(t.name, t.phase.start, StatusText(t.phase.failed), t.phase.duration)
  }

  function After(s: State, e: Event): State
    requires Allowed(s, e)
  {
    match e
    case Register(step, fn) => s.(steps := s.steps[step := fn])
    case AddJob(name, step, parses) =>
      if step in s.steps && parses then s.(cron := s.cron + [Entry(name, step, s.steps[step])]) else s
    case Tick(tid, k) =>
      s.(threads := s.threads[tid := Thread(s.cron[k].name, s.cron[k].step, s.cron[k].fn, Spawned)])
    case Trigger(tid, cancelled, name, step) =>
      if cancelled || step !in s.steps then s
      else s.(threads := s.threads[tid := Thread(name, step, s.steps[step], Spawned)])
    case Begin(tid, now) =>
      if s.threads[tid].name in s.running then s.(threads := s.threads - {tid})
      else s.(running := s.running + {s.threads[tid].name}, threads := Moved(s, tid, Running(now)))
    case Return(tid, outcome, duration) =>
      s.(threads := Moved(s, tid, Returned(s.threads[tid].phase.start, duration, outcome != Ok)))
    case Goexit(tid) => s.(threads := Moved(s, tid, Unwinding))
    case Record(tid) =>
      s.(status := s.status[s.threads[tid].name := StatusFor(s.threads[tid])], threads := Moved(s, tid, Recorded))
    case Release(tid) =>
      s.(running := s.running - {s.threads[tid].name}, threads := s.threads - {tid})
  }

  // ---------- Every interleaving ----------

  datatype History = Start | Then(before: History, event: Event)

  predicate Legal(h: History)
    decreases h, 0
  {
    match h
    case Start => true
    case Then(before, e) => Legal(before) && Allowed(StateOf(before), e)
  }

  function StateOf(h: History): State
    requires Legal(h)
    decreases h, 1
  {
    match h
    case Start => State(map[], [], {}, map[], map[])
    case Then(before, e) => After(StateOf(before), e)
  }

  /** Every active run has its flag up. */
  ghost predicate FlagUp(s: State) {
    forall t :: Active(s, t) ==> s.threads[t].name in s.running
  }

  predicate Owns(s: State, t: Tid, name: string) {
    Active(s, t) && s.threads[t].name == name
  }

  /** Every flag that is up belongs to an active run. */
  ghost predicate FlagOwned(s: State) {
    forall n :: n in s.running ==> exists t :: Owns(s, t, n)
  }

  /** No two active runs share a name. */
  ghost predicate OnePerName(s: State) {
    forall t, u :: Active(s, t) && Active(s, u) && s.threads[t].name == s.threads[u].name ==> t == u
  }

  /** The flag of a name is up exactly while one run of it is active, and never for two. */
  ghost predicate Exclusive(s: State) {
    FlagUp(s) && FlagOwned(s) && OnePerName(s)
  }

  /** A step changes at most the goroutine that makes it. */
  lemma StepIsLocal(s: State, e: Event, t: Tid)
    requires Allowed(s, e)
    ensures !Steps(e, t) && Active(s, t) ==> Active(After(s, e), t) && After(s, e).threads[t] == s.threads[t]
    ensures !Steps(e, t) && Active(After(s, e), t) ==> Active(s, t) && After(s, e).threads[t] == s.threads[t]
    ensures Steps(e, t) && Active(After(s, e), t) ==> After(s, e).threads[t].name == s.threads[t].name
    ensures Steps(e, t) && Active(After(s, e), t) && !e.Begin? ==> Active(s, t)
    ensures Steps(e, t) && Active(s, t) && !e.Release? ==> Active(After(s, e), t)
  {
  }

  /** Only Begin and Release move a flag. */
  lemma FlagsMove(s: State, e: Event)
    requires Allowed(s, e)
    ensures After(s, e).running ==
            if e.Begin? then s.running + {s.threads[e.tid].name}
            else if e.Release? then s.running - {s.threads[e.tid].name}
            else s.running
  {
  }

  lemma FlagUpKept(s: State, e: Event)
    requires Exclusive(s) && Allowed(s, e)
    ensures FlagUp(After(s, e))
  {
    FlagsMove(s, e);
    forall t | Active(After(s, e), t)
      ensures After(s, e).threads[t].name in After(s, e).running
    {
      StepIsLocal(s, e, t);
    }
  }

  lemma FlagOwnedKept(s: State, e: Event)
    requires Exclusive(s) && Allowed(s, e)
    ensures FlagOwned(After(s, e))
  {
    FlagsMove(s, e);
    forall n | n in After(s, e).running
      ensures exists t :: Owns(After(s, e), t, n)
    {
      if n in s.running {
        var t :| Owns(s, t, n);
        StepIsLocal(s, e, t);
        assert Owns(After(s, e), t, n);
      } else {
        assert Owns(After(s, e), e.tid, n);
      }
    }
  }

  lemma OnePerNameKept(s: State, e: Event)
    requires Exclusive(s) && Allowed(s, e)
    ensures OnePerName(After(s, e))
  {
    forall t, u | Active(After(s, e), t) && Active(After(s, e), u)
                  && After(s, e).threads[t].name == After(s, e).threads[u].name
      ensures t == u
    {
      StepIsLocal(s, e, t);
      StepIsLocal(s, e, u);
    }
  }

  lemma {:induction false} AlwaysExclusive(h: History)
    requires Legal(h)
    ensures Exclusive(StateOf(h))
  {
    if h.Then? {
      AlwaysExclusive(h.before);
      FlagUpKept(StateOf(h.before), h.event);
      FlagOwnedKept(StateOf(h.before), h.event);
      OnePerNameKept(StateOf(h.before), h.event);
    }
  }

  /** Two runs of one name are never active together, and the running map tells exactly who is. */
  lemma OneRunPerName(h: History, t: Tid, u: Tid)
    requires Legal(h) && Active(StateOf(h), t) && Active(StateOf(h), u)
    ensures StateOf(h).threads[t].name == StateOf(h).threads[u].name ==> t == u
    ensures StateOf(h).running == set x | x in StateOf(h).threads && Active(StateOf(h), x) :: StateOf(h).threads[x].name
  {
    AlwaysExclusive(h);
    var s := StateOf(h);
    var names := set x | x in s.threads && Active(s, x) :: s.threads[x].name;
    forall n
      ensures n in s.running <==> n in names
    {
      if n in s.running {
        var x :| Active(s, x) && s.threads[x].name == n;
        assert x in s.threads;
      }
    }
  }

  // ---------- The status map ----------

  /** The outcome of the last run of `name` whose step function has returned. */
  function LastReturned(h: History, name: string): Option<Status>
    requires Legal(h)
  {
    match h
    case Start => None
    case Then(before, e) =>
      var s := StateOf(before);
      if e.Return? && s.threads[e.tid].name == name then
        Some(Status(name, s.threads[e.tid].phase.start, if e.outcome == Ok then "ok" else "error", e.duration))
      else LastReturned(before, name)
  }

  function StatusOf(s: State, name: string): Option<Status> {
    if name in s.status then Some(s.status[name]) else None
  }

  predicate Pending(s: State, t: Tid, name: string) {
    t in s.threads && s.threads[t].phase.Returned? && s.threads[t].name == name
  }

  /** Between a return and its status write the map may lag; at all other times it is up to date. */
  ghost predicate Tracks(s: State, last: Option<Status>, name: string) {
    && (forall t :: Pending(s, t, name) ==> last == Some(StatusFor(s.threads[t])))
    && ((forall t :: !Pending(s, t, name)) ==> StatusOf(s, name) == last)
  }

  lemma {:induction false} StatusTracks(h: History, name: string)
    requires Legal(h)
    ensures Tracks(StateOf(h), LastReturned(h, name), name)
  {
    if h.Then? {
      StatusTracks(h.before, name);
      AlwaysExclusive(h.before);
      var s, e := StateOf(h.before), h.event;
      if e.Return? && s.threads[e.tid].name == name {
        ReturnPends(s, e, name);
      } else if e.Record? && s.threads[e.tid].name == name {
        RecordSettles(s, e, name);
      } else {
        TracksUnchanged(s, e, LastReturned(h.before, name), name);
      }
    }
  }

  lemma TracksUnchanged(s: State, e: Event, last: Option<Status>, name: string)
    requires Tracks(s, last, name)
    requires Allowed(s, e) && ((e.Return? || e.Record?) ==> s.threads[e.tid].name != name)
    ensures Tracks(After(s, e), last, name)
  {
    PendingUnchanged(s, e, name);
    var r := After(s, e);
    forall t | Pending(r, t, name)
      ensures last == Some(StatusFor(r.threads[t]))
    {
      assert Pending(s, t, name);
    }
    if forall t :: !Pending(r, t, name) {
      assert forall t :: Pending(s, t, name) ==> Pending(r, t, name);
    }
  }

  lemma ReturnPends(s: State, e: Event, name: string)
    requires e.Return? && Allowed(s, e) && Exclusive(s) && s.threads[e.tid].name == name
    ensures Pending(After(s, e), e.tid, name) && forall t :: Pending(After(s, e), t, name) ==> t == e.tid
  {
  }

  lemma RecordSettles(s: State, e: Event, name: string)
    requires e.Record? && Allowed(s, e) && Exclusive(s) && s.threads[e.tid].name == name
    ensures Pending(s, e.tid, name) && forall t :: !Pending(After(s, e), t, name)
  {
  }

  lemma PendingUnchanged(s: State, e: Event, name: string)
    requires Allowed(s, e) && ((e.Return? || e.Record?) ==> s.threads[e.tid].name != name)
    ensures forall t :: Pending(After(s, e), t, name) <==> Pending(s, t, name)
    ensures forall t :: Pending(s, t, name) ==> After(s, e).threads[t] == s.threads[t]
    ensures StatusOf(After(s, e), name) == StatusOf(s, name)
  {
  }

  /** Whenever no run of a name is active, its status is that of its most recent finished run: the
      write comes before the release, so no older run can overwrite a newer one. */
  lemma StatusIsLatest(h: History, name: string)
    requires Legal(h) && name !in StateOf(h).running
    ensures StatusOf(StateOf(h), name) == LastReturned(h, name)
  {
    StatusTracks(h, name);
    AlwaysExclusive(h);
    var s := StateOf(h);
    forall t
      ensures !Pending(s, t, name)
    {
      assert Pending(s, t, name) ==> Active(s, t);
    }
  }

  // ---------- No name stays blocked ----------

  /** Steps an active run still has to take. */
  function Rank(s: State, t: Tid): nat {
    if t !in s.threads then 0
    else match s.threads[t].phase
      case Spawned => 4
      case Running(_) => 3
      case Returned(_, _, _) => 2
      case Recorded => 1
      case Unwinding => 1
  }

  predicate Steps(e: Event, t: Tid) {
    match e
    case Begin(u, _) => u == t
    case Return(u, _, _) => u == t
    case Goexit(u) => u == t
    case Record(u) => u == t
    case Release(u) => u == t
    case _ => false
  }

  /** `g` continues `h`. */
  predicate Extends(h: History, g: History) {
    g == h || (g.Then? && Extends(h, g.before))
  }

  function OwnSteps(h: History, g: History, t: Tid): nat
    requires Extends(h, g)
  {
    if g == h then 0 else OwnSteps(h, g.before, t) + if Steps(g.event, t) then 1 else 0
  }

  predicate AlwaysActive(h: History, g: History, t: Tid)
    requires Legal(g) && Extends(h, g)
  {
    Active(StateOf(g), t) && (g == h || AlwaysActive(h, g.before, t))
  }

  lemma RankStep(s: State, e: Event, t: Tid)
    requires Allowed(s, e) && Active(s, t)
    ensures Rank(After(s, e), t) + (if Steps(e, t) then 1 else 0) <= Rank(s, t)
    ensures !Steps(e, t) ==> Active(After(s, e), t) && After(s, e).threads[t] == s.threads[t]
  {
  }

  /** Whatever the others do, a run stays active for at most two of its own steps after its flag went
      up; its third clears the flag. */
  lemma {:induction false} FewOwnSteps(h: History, g: History, t: Tid)
    requires Legal(g) && Extends(h, g) && Legal(h) && AlwaysActive(h, g, t)
    ensures OwnSteps(h, g, t) + Rank(StateOf(g), t) <= Rank(StateOf(h), t) <= 3
    ensures OwnSteps(h, g, t) <= 2
  {
    if g != h {
      FewOwnSteps(h, g.before, t);
      RankStep(StateOf(g.before), g.event, t);
    }
  }

  /** The next own step of an active run; a step function that has not returned may do so in any way. */
  function NextStep(s: State, t: Tid, outcome: Outcome, duration: nat): Event
    requires Active(s, t)
  {
    match s.threads[t].phase
    case Running(_) => Return(t, outcome, duration)
    case Returned(_, _, _) => Record(t)
    case _ => Release(t)
  }

  /** It is never blocked: the step is allowed now, and the one that ends the run frees its name. */
  lemma NeverStuck(h: History, t: Tid, outcome: Outcome, duration: nat)
    requires Legal(h) && Active(StateOf(h), t)
    ensures var s := StateOf(h); var e := NextStep(s, t, outcome, duration);
      && Allowed(s, e)
      && Rank(After(s, e), t) == Rank(s, t) - 1
      && (Rank(s, t) == 1 ==> s.threads[t].name !in After(s, e).running && t !in After(s, e).threads)
  {
  }

  /** Once its name is free, the next trigger of it does start. */
  lemma FreeNameStarts(h: History, t: Tid, now: nat)
    requires Legal(h) && Allowed(StateOf(h), Begin(t, now))
    ensures Active(After(StateOf(h), Begin(t, now)), t) <==>
            forall u :: Active(StateOf(h), u) ==> StateOf(h).threads[u].name != StateOf(h).threads[t].name
  {
    AlwaysExclusive(h);
  }

  /** Every goroutine runs a function that was registered under its step name. */
  lemma {:induction false} OnlyRegisteredRun(h: History, t: Tid)
    requires Legal(h) && t in StateOf(h).threads
    ensures var s := StateOf(h);
      WasRegistered(h, s.threads[t].step, s.threads[t].fn)
  {
    var s := StateOf(h.before);
    match h.event
    case Tick(tid, k) =>
      if tid == t {
        CronRegistered(h.before, k);
      } else {
        OnlyRegisteredRun(h.before, t);
      }
    case Trigger(tid, cancelled, name, step) =>
      if t !in s.threads {
        MapRegistered(h.before, step);
      } else {
        OnlyRegisteredRun(h.before, t);
      }
    case _ => OnlyRegisteredRun(h.before, t);
  }

  predicate WasRegistered(h: History, step: string, fn: Fn) {
    h.Then? && (h.event == Register(step, fn) || WasRegistered(h.before, step, fn))
  }

  lemma {:induction false} MapRegistered(h: History, step: string)
    requires Legal(h) && step in StateOf(h).steps
    ensures WasRegistered(h, step, StateOf(h).steps[step])
  {
    if !(h.event.Register? && h.event.step == step) {
      MapRegistered(h.before, step);
    }
  }

  lemma CronGrows(s: State, e: Event, k: nat)
    requires Allowed(s, e) && k < |After(s, e).cron|
    ensures k < |s.cron| ==> After(s, e).cron[k] == s.cron[k]
    ensures k >= |s.cron| ==>
              e.AddJob? && e.step in s.steps && After(s, e).cron[k] == Entry(e.name, e.step, s.steps[e.step])
  {
  }

  lemma {:induction false} CronRegistered(h: History, k: nat)
    requires Legal(h) && k < |StateOf(h).cron|
    ensures WasRegistered(h, StateOf(h).cron[k].step, StateOf(h).cron[k].fn)
  {
    CronGrows(StateOf(h.before), h.event, k);
    if k < |StateOf(h.before).cron| {
      CronRegistered(h.before, k);
    } else {
      MapRegistered(h.before, h.event.step);
    }
  }

  // ---------- The scheduler object ----------

  datatype TriggerResult = Cancelled | NotRegistered | Accepted

  class Scheduler {
    var steps: map<string, Fn>
    var cron: seq<Entry>
    var running: set<string>
    var status: map<string, Status>
    /** The goroutines and where they are. */
    ghost var threads: map<Tid, Thread>

    constructor ()
      ensures View() == StateOf(Start)
    {
      steps, cron, running, status, threads := map[], [], {}, map[], map[];
    }

    ghost function View(): State
      reads this
    {
      State(steps, cron, running, status, threads)
    }

    method RegisterStep(name: string, fn: Fn)
      modifies this
      ensures View() == After(old(View()), Register(name, fn))
      ensures steps == old(steps)[name := fn]
    {
      steps := steps[name := fn];
    }

    /** `parses` is whether cron accepts the schedule. */
    method AddJob(name: string, step: string, parses: bool) returns (registered: bool)
      modifies this
      ensures registered <==> step in old(steps) && parses
      ensures cron == if registered then old(cron) + [Entry(name, step, old(steps)[step])] else old(cron)
      ensures View() == After(old(View()), Event.AddJob(name, step, parses))
    {
      if step !in steps {
        return false;
      }
      if !parses {
        return false;
      }
      cron := cron + [Entry(name, step, steps[step])];
      return true;
    }

    /** A cancelled caller starts nothing, nor does an unknown step; otherwise a goroutine is born. */
    method TriggerStep(cancelled: bool, step: string, name: string, ghost tid: Tid) returns (r: TriggerResult)
      requires tid !in threads
      modifies this
      ensures View() == After(old(View()), Trigger(tid, cancelled, name, step))
      ensures r == if cancelled then Cancelled else if step !in old(steps) then NotRegistered else Accepted
      ensures r.Accepted? <==> tid in threads
      ensures r.Accepted? ==> threads == old(threads)[tid := Thread(name, step, old(steps)[step], Spawned)]
      ensures !r.Accepted? ==> threads == old(threads)
    {
      if cancelled {
        return Cancelled;
      }
      if step !in steps {
        return NotRegistered;
      }
      threads := threads[tid := Thread(name, step, steps[step], Spawned)];
      return Accepted;
    }

    /** First lock region of runJob. */
    method TryBegin(ghost tid: Tid, name: string, now: nat) returns (started: bool)
      requires Allowed(View(), Begin(tid, now)) && threads[tid].name == name
      modifies this
      ensures started <==> name !in old(running)
      ensures View() == After(old(View()), Begin(tid, now))
    {
      if name in running {
        threads := threads - {tid};
        return false;
      }
      running := running + {name};
      threads := threads[tid := threads[tid].(phase := Running(now))];
      return true;
    }

    /** The step function is back, with a value or a panic. */
    ghost method End(tid: Tid, outcome: Outcome, duration: nat)
      requires Allowed(View(), Return(tid, outcome, duration))
      modifies `threads
      ensures View() == After(old(View()), Return(tid, outcome, duration))
    {
      threads := threads[tid := threads[tid].(phase := Returned(threads[tid].phase.start, duration, outcome != Ok))];
    }

    /** The step function has ended its goroutine. */
    ghost method Exit(tid: Tid)
      requires Allowed(View(), Goexit(tid))
      modifies `threads
      ensures View() == After(old(View()), Goexit(tid))
    {
      threads := threads[tid := threads[tid].(phase := Unwinding)];
    }

    /** Second lock region of runJob. */
    method RecordStatus(ghost tid: Tid, name: string, start: nat, failed: bool, duration: nat)
      requires Allowed(View(), Record(tid)) && threads[tid].name == name
      requires threads[tid].phase == Returned(start, duration, failed)
      modifies this
      ensures View() == After(old(View()), Record(tid))
    {
      var text := "ok";
      if failed {
        text := "error";
      }
      status := status[name := Status(name, start, text, duration)];
      threads := threads[tid := threads[tid].(phase := Recorded)];
    }

    /** The deferred lock region of runJob. */
    method Clear(ghost tid: Tid, name: string)
      requires Allowed(View(), Release(tid)) && threads[tid].name == name
      modifies this
      ensures View() == After(old(View()), Release(tid))
    {
      running := running - {name};
      threads := threads - {tid};
    }

    /** runJob from start to end when no other goroutine steps in between. `outcome` is how the step
        function ends; None is a Goexit, which skips the status but not the deferred release. */
    method RunJob(ghost tid: Tid, name: string, now: nat, outcome: Option<Outcome>, duration: nat)
      requires Allowed(View(), Begin(tid, now)) && threads[tid].name == name
      modifies this
      ensures running == old(running) && threads == old(threads) - {tid}
      ensures steps == old(steps) && cron == old(cron)
      ensures status ==
              if name in old(running) || outcome.None? then old(status)
              else old(status)[name := Status(name, now, if outcome == Some(Ok) then "ok" else "error", duration)]
    {
      var started := TryBegin(tid, name, now);
      if !started {
        return;
      }
      if outcome.None? {
        Exit(tid);
      } else {
        End(tid, outcome.value, duration);
        RecordStatus(tid, name, now, outcome.value != Ok, duration);
      }
      Clear(tid, name);
    }
  }
}

/** internal/db/db.go: RunMigrations over any sequence of daemon starts, each of which may be cut off by
    a crash or an error after any number of writes. A file is its position in the sorted list; later
    releases only add files behind. */
module Migrations {
  import opened Basics

  /** `effects` lists the SQL files in the order they took effect; `preexisting` says that the `source`
      table was there before the first start. */
  datatype DB = DB(tracked: set<nat>, effects: seq<nat>, preexisting: bool)

  /** The `source` table comes with the first file. */
  predicate HasSource(db: DB) {
    db.preexisting || 0 in db.effects
  }

  predicate Backfills(db: DB) {
    HasSource(db) && db.tracked == {}
  }

  /** Mark files `i` and up as applied, with `b` writes left. */
  function Backfill(db: DB, i: nat, n: nat, b: nat): DB
    decreases n - i
  {
    if i >= n || b == 0 then db else Backfill(db.(tracked := db.tracked + {i}), i + 1, n, b - 1)
  }

  /** Run and record what is pending from file `i` on, with `b` writes left. */
  function Apply(db: DB, i: nat, n: nat, b: nat): DB
    decreases n - i
  {
    if i >= n then db
    else if i in db.tracked then Apply(db, i + 1, n, b)
    else if b == 0 then db
    else
      var ran := db.(effects := db.effects + [i]);
      if b == 1 then ran else Apply(ran.(tracked := ran.tracked + {i}), i + 1, n, b - 2)
  }

  /** One daemon start with `n` files that is cut off after `b` writes (or completes before). */
  function Run(db: DB, n: nat, b: nat): DB {
    if Backfills(db) then Backfill(db, 0, n, b) else Apply(db, 0, n, b)
  }

  /** The files below `n` without a record. */
  ghost function Pending(tracked: set<nat>, n: nat): set<nat> {
    set i: nat | i < n && i !in tracked
  }

  /** The writes a start with `n` files needs: one record each when it takes the database for an old one, and
      otherwise a run and a record for each pending file. */
  ghost function Writes(db: DB, n: nat): nat {
    if (db.preexisting || 0 in db.effects) && db.tracked == {} then n else 2 * |Pending(db.tracked, n)|
  }

  lemma PendingNext(tracked: set<nat>, i: nat, n: nat)
    requires i < n
    ensures |Pending(tracked, i + 1)| == |Pending(tracked, i)| + (if i in tracked then 0 else 1)
    ensures |Pending(tracked, i + 1)| <= |Pending(tracked, n)|
  {
    if i in tracked {
      assert Pending(tracked, i + 1) == Pending(tracked, i);
    } else {
      assert Pending(tracked, i + 1) == Pending(tracked, i) + {i};
    }
    SubsetSize(Pending(tracked, i + 1), Pending(tracked, n));
  }

  class Database {
    var tracked: set<nat>
    var effects: seq<nat>
    const preexisting: bool

    constructor (preexisting: bool)
      ensures View() == DB({}, [], preexisting)
    {
      tracked, effects, this.preexisting := {}, [], preexisting;
    }

    function View(): DB
      reads this
    {
      DB(tracked, effects, preexisting)
    }

    /** `budget` is the number of writes before the process dies; `done` is false when it did. */
    method RunMigrations(n: nat, budget: nat) returns (done: bool)
      modifies this
      ensures View() == Run(old(View()), n, budget)
      ensures done ==> forall i: nat :: i < n ==> i in tracked
      ensures done <==> budget >= Writes(old(View()), n)
    {
      var existingTable := preexisting || 0 in effects;
      if existingTable && tracked == {} {
        done := MarkAll(n, budget);
      } else {
        done := ApplyPending(n, budget);
      }
    }

    /** The loop that records every file of an old database. */
    method MarkAll(n: nat, budget: nat) returns (done: bool)
      modifies this
      ensures View() == Backfill(old(View()), 0, n, budget)
      ensures done ==> forall i: nat :: i < n ==> i in tracked
      ensures done <==> budget >= n
    {
      ghost var goal := Backfill(View(), 0, n, budget);
      var left: nat := budget;
      for i := 0 to n
        invariant goal == Backfill(View(), i, n, left)
        invariant forall k: nat :: k < i ==> k in tracked
        invariant left + i == budget
      {
        if left == 0 {
          return false;
        }
        tracked, left := tracked + {i}, left - 1;
      }
      return true;
    }

    /** The loop that runs and records what is pending. */
    method ApplyPending(n: nat, budget: nat) returns (done: bool)
      modifies this
      ensures View() == Apply(old(View()), 0, n, budget)
      ensures done ==> forall i: nat :: i < n ==> i in tracked
      ensures done <==> budget >= 2 * |Pending(old(tracked), n)|
    {
      ghost var was, goal := tracked, Apply(View(), 0, n, budget);
      assert Pending(was, 0) == {};
      var left: nat := budget;
      for i := 0 to n
        invariant goal == Apply(View(), i, n, left)
        invariant forall k: nat :: k < i ==> k in tracked
        invariant forall k: nat :: k >= i ==> (k in tracked <==> k in was)
        invariant left + 2 * |Pending(was, i)| == budget
      {
        PendingNext(was, i, n);
        if i in tracked {
          continue;
        }
        if left == 0 {
          return false;
        }
        effects, left := effects + [i], left - 1;
        if left == 0 {
          return false;
        }
        tracked, left := tracked + {i}, left - 1;
      }
      return true;
    }
  }

  // ---------- Every history of starts ----------

  datatype History = Initial(preexisting: bool) | Start(before: History, files: nat, budget: nat)

  function StateOf(h: History): DB {
    match h
    case Initial(preexisting) => DB({}, [], preexisting)
    case Start(before, n, b) => Run(StateOf(before), n, b)
  }

  /** The first `k` files. */
  function Prefix(k: nat): (s: set<nat>)
    ensures forall i: nat :: i in s <==> i < k
  {
    if k == 0 then {} else Prefix(k - 1) + {k - 1}
  }

  /** Exactly the first `k` files are recorded, all of them have run, and files ran in list order; the
      only one that may have run without a record is the next, and it is not the first. */
  ghost predicate Healthy(db: DB, k: nat) {
    && !db.preexisting
    && db.tracked == Prefix(k)
    && (forall i: nat :: i < k ==> i in db.effects)
    && (forall x, y :: 0 <= x < y < |db.effects| ==> db.effects[x] <= db.effects[y])
    && (forall x :: 0 <= x < |db.effects| ==> db.effects[x] <= k)
    && (k == 0 ==> db.effects == [])
  }

  /** The first file has run and is not recorded: the next start takes the database for an old one. */
  ghost predicate Trapped(db: DB) {
    db == DB({}, [0], false)
  }

  /** A file is recorded as applied that never ran. */
  ghost predicate Skipped(db: DB) {
    exists i :: i in db.tracked && i !in db.effects
  }

  /** How far an applying run gets from file `k` on. */
  function Reached(k: nat, n: nat, b: nat): nat
    decreases n - k
  {
    if k >= n || b < 2 then k else Reached(k + 1, n, b - 2)
  }

  lemma {:induction false} ApplySkips(db: DB, i: nat, k: nat, n: nat, b: nat)
    requires db.tracked == Prefix(k) && i <= k
    ensures Apply(db, i, n, b) == Apply(db, k, n, b)
    decreases k - i
  {
    if i < k && i < n {
      assert i in db.tracked;
      ApplySkips(db, i + 1, k, n, b);
    } else if i < k {
      assert Apply(db, k, n, b) == db;
    }
  }

  lemma HealthyStep(db: DB, k: nat)
    requires Healthy(db, k)
    ensures Healthy(db.(effects := db.effects + [k], tracked := db.tracked + {k}), k + 1)
    ensures k > 0 ==> Healthy(db.(effects := db.effects + [k]), k)
  {
  }

  lemma {:induction false} ApplyHealthy(db: DB, k: nat, n: nat, b: nat)
    requires Healthy(db, k) && !(k == 0 && n > 0 && b == 1)
    ensures Healthy(Apply(db, k, n, b), Reached(k, n, b))
    decreases n - k
  {
    if k < n && b > 0 {
      HealthyStep(db, k);
      assert k !in db.tracked;
      if b > 1 {
        ApplyHealthy(db.(effects := db.effects + [k], tracked := db.tracked + {k}), k + 1, n, b - 2);
      }
    }
  }

  lemma HealthyDoesNotBackfill(db: DB, k: nat)
    requires Healthy(db, k)
    ensures !Backfills(db)
  {
  }

  /** From a healthy database, a start leads to a healthy one that is at least as far, except that dying
      right after the very first write springs the trap. */
  lemma HealthyRun(db: DB, k: nat, n: nat, b: nat)
    requires Healthy(db, k)
    ensures !(k == 0 && n > 0 && b == 1) ==> Healthy(Run(db, n, b), Reached(k, n, b))
    ensures k == 0 && n > 0 && b == 1 ==> Trapped(Run(db, n, b))
  {
    HealthyDoesNotBackfill(db, k);
    ApplySkips(db, 0, k, n, b);
    if !(k == 0 && n > 0 && b == 1) {
      ApplyHealthy(db, k, n, b);
    }
  }

  /** No start of the history died between running the first file and recording it. */
  predicate FirstRecorded(h: History) {
    match h
    case Initial(_) => true
    case Start(before, n, b) =>
      FirstRecorded(before) && !(StateOf(before).tracked == {} && StateOf(before).effects == [] && n > 0 && b == 1)
  }

  function Progress(h: History): nat {
    match h
    case Initial(_) => 0
    case Start(before, n, b) => Reached(Progress(before), n, b)
  }

  predicate FromFresh(h: History) {
    match h
    case Initial(preexisting) => !preexisting
    case Start(before, _, _) => FromFresh(before)
  }

  /** From a fresh database, if no crash falls into that window, the tracked set is always a prefix of
      the list and the files take effect in list order. */
  lemma {:induction false} TrackedIsPrefix(h: History)
    requires FromFresh(h) && FirstRecorded(h)
    ensures Healthy(StateOf(h), Progress(h))
  {
    if h.Start? {
      TrackedIsPrefix(h.before);
      HealthyRun(StateOf(h.before), Progress(h.before), h.files, h.budget);
    }
  }

  // ---------- How often a file runs ----------

  /** The file an applying run leaves run but unrecorded. */
  function Dangling(db: DB, i: nat, n: nat, b: nat): Option<nat>
    decreases n - i
  {
    if i >= n then None
    else if i in db.tracked then Dangling(db, i + 1, n, b)
    else if b == 0 then None
    else if b == 1 then Some(i)
    else Dangling(db.(effects := db.effects + [i], tracked := db.tracked + {i}), i + 1, n, b - 2)
  }

  function One(c: bool): nat {
    if c then 1 else 0
  }

  lemma {:induction false} RunsOfOneStart(db: DB, i: nat, n: nat, b: nat, f: nat)
    ensures var r := Apply(db, i, n, b);
      multiset(r.effects)[f] + One(f in db.tracked)
      == multiset(db.effects)[f] + One(f in r.tracked) + One(Dangling(db, i, n, b) == Some(f))
    decreases n - i
  {
    if i < n {
      if i in db.tracked {
        RunsOfOneStart(db, i + 1, n, b, f);
      } else if b > 1 {
        RunsOfOneStart(db.(effects := db.effects + [i], tracked := db.tracked + {i}), i + 1, n, b - 2, f);
      }
    }
  }

  /** How many starts died between running `f` and recording it. */
  function Interrupted(h: History, f: nat): nat {
    match h
    case Initial(_) => 0
    case Start(before, n, b) =>
      Interrupted(before, f) + One(!Backfills(StateOf(before)) && Dangling(StateOf(before), 0, n, b) == Some(f))
  }

  /** A file runs once for its record and once more for every start that died in between: never twice
      without such a crash. */
  lemma {:induction false} RunsAccountedFor(h: History, f: nat)
    requires FromFresh(h) && FirstRecorded(h)
    ensures multiset(StateOf(h).effects)[f] == Interrupted(h, f) + One(f in StateOf(h).tracked)
  {
    if h.Start? {
      RunsAccountedFor(h.before, f);
      TrackedIsPrefix(h.before);
      var db := StateOf(h.before);
      HealthyDoesNotBackfill(db, Progress(h.before));
      RunsOfOneStart(db, 0, h.files, h.budget, f);
    }
  }

  // ---------- Completion ----------

  predicate Complete(db: DB, n: nat) {
    forall i: nat :: i < n ==> i in db.tracked
  }

  lemma {:induction false} NothingPending(db: DB, i: nat, n: nat, b: nat)
    requires Complete(db, n)
    ensures Apply(db, i, n, b) == db
    decreases n - i
  {
    if i < n {
      NothingPending(db, i + 1, n, b);
    }
  }

  /** A completed run is a fixed point: further starts with the same files change nothing. */
  lemma CompletedIsFixed(db: DB, n: nat, b: nat)
    requires Complete(db, n) && n > 0
    ensures Run(db, n, b) == db
  {
    assert 0 in db.tracked;
    NothingPending(db, 0, n, b);
  }

  lemma {:induction false} EnoughBudget(db: DB, i: nat, n: nat, b: nat)
    requires b >= 2 * (n - i) && Complete(db, i)
    ensures Complete(Apply(db, i, n, b), n)
    decreases n - i
  {
    if i < n {
      if i in db.tracked {
        EnoughBudget(db, i + 1, n, b);
      } else {
        EnoughBudget(db.(effects := db.effects + [i], tracked := db.tracked + {i}), i + 1, n, b - 2);
      }
    }
  }

  // ---------- The trap ----------

  lemma {:induction false} BackfillMarks(db: DB, i: nat, n: nat, b: nat)
    requires db.tracked == Prefix(i)
    ensures var r := Backfill(db, i, n, b);
      && r.effects == db.effects && r.preexisting == db.preexisting
      && r.tracked == Prefix(if i >= n then i else if b <= n - i then i + b else n)
    decreases n - i
  {
    if i < n && b > 0 {
      assert db.tracked + {i} == Prefix(i + 1);
      BackfillMarks(db.(tracked := db.tracked + {i}), i + 1, n, b - 1);
    }
  }

  /** A trapped database: one backfilled record puts it right, two or more skip a file for good. */
  lemma TrappedRun(db: DB, n: nat, b: nat)
    requires Trapped(db)
    ensures (n == 0 || b == 0) ==> Run(db, n, b) == db
    ensures (n > 0 && b > 0 && (n == 1 || b == 1)) ==> Healthy(Run(db, n, b), 1)
    ensures (n > 1 && b > 1) ==> Skipped(Run(db, n, b)) && !Run(db, n, b).preexisting
  {
    assert db.tracked == Prefix(0);
    BackfillMarks(db, 0, n, b);
    var r := Run(db, n, b);
    if n > 1 && b > 1 {
      assert 1 in r.tracked && 1 !in r.effects;
    }
  }

  lemma {:induction false} ApplyKeepsSkipped(db: DB, i: nat, n: nat, b: nat, f: nat)
    requires f in db.tracked && f !in db.effects
    ensures f in Apply(db, i, n, b).tracked && f !in Apply(db, i, n, b).effects
    decreases n - i
  {
    if i < n {
      if i in db.tracked {
        ApplyKeepsSkipped(db, i + 1, n, b, f);
      } else if b > 1 {
        ApplyKeepsSkipped(db.(effects := db.effects + [i], tracked := db.tracked + {i}), i + 1, n, b - 2, f);
      }
    }
  }

  /** No later start repairs it. */
  lemma SkippedForever(db: DB, n: nat, b: nat)
    requires Skipped(db)
    ensures Skipped(Run(db, n, b))
  {
    var f :| f in db.tracked && f !in db.effects;
    ApplyKeepsSkipped(db, 0, n, b, f);
    assert f in Run(db, n, b).tracked && f !in Run(db, n, b).effects;
  }

  /** Somewhere in the history a start with two files or more, living for two writes or more, found the
      first file run but unrecorded. */
  predicate FellIn(h: History) {
    match h
    case Initial(_) => false
    case Start(before, n, b) => FellIn(before) || (StateOf(before) == DB({}, [0], false) && n > 1 && b > 1)
  }

  lemma HealthyIsNotSkipped(db: DB, k: nat)
    requires Healthy(db, k)
    ensures !Skipped(db) && !Trapped(db)
  {
  }

  /** Every history from a fresh database ends healthy, in the trap, or with a skipped file. */
  lemma {:induction false} ThreeFates(h: History)
    requires FromFresh(h)
    ensures FellIn(h) ==> Skipped(StateOf(h))
    ensures !FellIn(h) ==> Trapped(StateOf(h)) || exists k :: Healthy(StateOf(h), k)
  {
    match h
    case Initial(_) => assert Healthy(StateOf(h), 0);
    case Start(before, n, b) =>
      ThreeFates(before);
      var db := StateOf(before);
      if FellIn(before) {
        SkippedForever(db, n, b);
      } else if Trapped(db) {
        TrappedRun(db, n, b);
      } else {
        var k :| Healthy(db, k);
        HealthyRun(db, k, n, b);
      }
  }

  /** Exactly when the tracker lies: a file counts as applied that never ran if and only if some start
      backfilled two files or more over a database whose first file was run but unrecorded. */
  lemma SkippedIff(h: History)
    requires FromFresh(h)
    ensures Skipped(StateOf(h)) <==> FellIn(h)
  {
    ThreeFates(h);
    var db := StateOf(h);
    if !FellIn(h) && !Trapped(db) {
      var k :| Healthy(db, k);
      HealthyIsNotSkipped(db, k);
    }
  }

  /** With the eight shipped files: a first start that dies after one write, and a second that lives,
      leave seven files recorded and not run, whatever the starts after that. */
  lemma FirstCrashSkipsTheRest()
    ensures var h := Start(Start(Initial(false), 8, 1), 8, 8);
      StateOf(h) == DB(Prefix(8), [0], false) && Skipped(StateOf(h))
  {
  }

  // ---------- Databases older than the tracker ----------

  function Range(a: nat, b: nat): seq<nat>
    requires a <= b
  {
    seq(b - a, i requires 0 <= i < b - a => a + i)
  }

  lemma {:induction false} ApplyRunsRange(db: DB, k: nat, n: nat, b: nat)
    requires db.tracked == Prefix(k) && k <= n && b >= 2 * (n - k)
    ensures Apply(db, k, n, b) == db.(tracked := Prefix(n), effects := db.effects + Range(k, n))
    decreases n - k
  {
    if k < n {
      assert db.tracked + {k} == Prefix(k + 1);
      var next := db.(effects := db.effects + [k], tracked := db.tracked + {k});
      ApplyRunsRange(next, k + 1, n, b - 2);
      assert Range(k, n) == [k] + Range(k + 1, n);
      assert (db.effects + [k]) + Range(k + 1, n) == db.effects + Range(k, n);
    } else {
      assert db.effects + Range(k, n) == db.effects;
    }
  }

  /** An untracked old database: the first start records as many files as it lives writes and runs none;
      a complete later start runs exactly the files behind those, so of the files that were there at
      the backfill none is ever run if and only if the backfill recorded them all. */
  lemma OldDatabase(n: nat, b: nat, later: nat, enough: nat)
    requires 0 < n <= later && b > 0 && enough >= 2 * later
    ensures var marked := if b <= n then b else n;
      var first := Run(DB({}, [], true), n, b);
      && first == DB(Prefix(marked), [], true)
      && Run(first, later, enough) == DB(Prefix(later), Range(marked, later), true)
      && ((forall i: nat :: i < n ==> i !in Run(first, later, enough).effects) <==> b >= n)
  {
    var marked := if b <= n then b else n;
    var first := Run(DB({}, [], true), n, b);
    assert DB({}, [], true).tracked == Prefix(0);
    BackfillMarks(DB({}, [], true), 0, n, b);
    assert 0 in first.tracked;
    ApplySkips(first, 0, marked, later, enough);
    ApplyRunsRange(first, marked, later, enough);
    assert [] + Range(marked, later) == Range(marked, later);
    var ran := Range(marked, later);
    assert forall x :: 0 <= x < |ran| ==> ran[x] >= marked;
    if marked < n {
      assert ran[0] == marked && marked in ran;
      assert marked in Run(first, later, enough).effects;
    } else {
      assert forall i: nat :: i < n ==> i !in ran;
    }
  }
}

/** internal/corpus/current_leaguemates_manifest.go: the append-only change log that every publish
    carries over from the previous one, capped at 16 MiB on a line boundary. */
module ChangeLog {
  import opened Basics
  import opened Seqs
  import opened Utf8
  import opened Whitespace

  const NEWLINE: byte := 10
  const MAX_CHANGE_LOG_BYTES: nat := 0x100_0000   // 16 << 20

  /** One JSONL entry: its change id and the line it is marshalled to. */
  datatype Entry = Entry(id: string, line: bytes)

  predicate NoNewline(s: bytes) {
    forall i :: 0 <= i < |s| ==> s[i] != NEWLINE
  }

  /** A marshalled object: it starts with a brace and holds no raw newline (RFC 8259, section 7). */
  predicate IsObject(line: bytes) {
    line != [] && line[0] == '{' as int && NoNewline(line)
  }

  predicate AllObjects(es: seq<Entry>) {
    forall i :: 0 <= i < |es| ==> IsObject(es[i].line)
  }

  /** The file that holds the entries from `i` on. */
  function Encode(es: seq<Entry>, i: nat): bytes
    requires i <= |es|
    decreases |es| - i
  {
    if i == |es| then [] else (es[i].line + [NEWLINE]) + Encode(es, i + 1)
  }

  /** bytes.IndexByte(s[from..], '\n'), relative to s; |s| when there is none. */
  function NextNewline(s: bytes, from: nat): (p: nat)
    requires from <= |s|
    ensures from <= p <= |s|
    decreases |s| - from
  {
    if from == |s| || s[from] == NEWLINE then from else NextNewline(s, from + 1)
  }

  /** tailCompleteLines: the last `limit` bytes, from behind their first newline on. */
  function TailCompleteLines(data: bytes, limit: nat): bytes
    requires limit <= |data|
  {
    var tail := data[|data| - limit..];
    var idx := NextNewline(tail, 0);
    if idx < |tail| then tail[idx + 1..] else tail
  }

  /** `k` is behind the first newline at or after `from`, or `from` itself when none follows. */
  ghost predicate IsLineCut(s: bytes, from: int, k: int) {
    && 0 <= from <= k <= |s|
    && (if k > from then s[k - 1] == '\n' as int && forall i :: from <= i < k - 1 ==> s[i] != '\n' as int
        else forall i :: from <= i < |s| ==> s[i] != '\n' as int)
  }

  lemma {:induction false} NextNewlineIsFirst(s: bytes, from: nat)
    requires from <= |s|
    ensures forall i :: from <= i < NextNewline(s, from) ==> s[i] != NEWLINE
    ensures NextNewline(s, from) < |s| ==> s[NextNewline(s, from)] == NEWLINE
    decreases |s| - from
  {
    if from < |s| && s[from] != NEWLINE {
      NextNewlineIsFirst(s, from + 1);
    }
  }

  lemma TailIsLineCut(s: bytes, limit: nat)
    requires limit <= |s|
    ensures exists k :: IsLineCut(s, |s| - limit, k) && TailCompleteLines(s, limit) == s[k..]
  {
    var from := |s| - limit;
    var tail := s[from..];
    var idx := NextNewline(tail, 0);
    NextNewlineIsFirst(tail, 0);
    assert forall i :: from <= i < |s| ==> s[i] == tail[i - from];
    var k := if idx < |tail| then from + idx + 1 else from;
    assert IsLineCut(s, from, k) && TailCompleteLines(s, limit) == s[k..];
  }

  /** The first entry from which on the file is smaller than `limit`. */
  function FirstKept(es: seq<Entry>, i: nat, limit: nat): (j: nat)
    requires i <= |es|
    ensures i <= j <= |es|
    ensures limit > 0 ==> |Encode(es, j)| < limit
    decreases |es| - i
  {
    if i == |es| || |Encode(es, i)| < limit then i else FirstKept(es, i + 1, limit)
  }

  /** Nothing is dropped that could stay: from any earlier entry on the file reaches the limit. */
  lemma {:induction false} KeepsAllThatFits(es: seq<Entry>, i: nat, limit: nat, j: nat)
    requires i <= |es| && i <= j < FirstKept(es, i, limit)
    ensures |Encode(es, j)| >= limit
    decreases |es| - i
  {
    if i < j {
      KeepsAllThatFits(es, i + 1, limit, j);
    }
  }

  lemma {:induction false} NewlineBehind(x: bytes, rest: bytes, from: nat)
    requires NoNewline(x) && from <= |x|
    ensures NextNewline((x + [NEWLINE]) + rest, from) == |x|
    decreases |x| - from
  {
    if from < |x| {
      NewlineBehind(x, rest, from + 1);
    }
  }

  /** The cut falls into the first line or on its newline: the rest of the file survives. */
  lemma CutInLine(line: bytes, rest: bytes, cut: nat)
    requires NoNewline(line) && cut <= |line|
    ensures var data := (line + [NEWLINE]) + rest;
      TailCompleteLines(data, |data| - cut) == rest
  {
    var data := (line + [NEWLINE]) + rest;
    var x := line[cut..];
    assert data[cut..] == (x + [NEWLINE]) + rest;
    NewlineBehind(x, rest, 0);
    BehindNewline(x, rest);
  }

  lemma BehindNewline(x: bytes, rest: bytes)
    ensures ((x + [NEWLINE]) + rest)[|x| + 1..] == rest
  {
  }

  lemma DropFirst(first: bytes, rest: bytes, k: nat)
    requires k <= |rest|
    ensures (first + rest)[|first| + k..] == rest[k..]
  {
  }

  lemma CutLater(first: bytes, rest: bytes, limit: nat)
    requires limit <= |rest|
    ensures TailCompleteLines(first + rest, limit) == TailCompleteLines(rest, limit)
  {
    DropFirst(first, rest, |rest| - limit);
    assert |first + rest| - limit == |first| + (|rest| - limit);
  }

  /** Cutting a file of whole entries leaves whole entries: exactly those from the first on where the
      rest is smaller than the limit (an entry that would fit to the byte is dropped as well). No bound
      on the length of a line is needed. */
  lemma {:induction false} TailKeepsWholeEntries(es: seq<Entry>, i: nat, limit: nat)
    requires i <= |es| && AllObjects(es) && 0 < limit <= |Encode(es, i)|
    ensures TailCompleteLines(Encode(es, i), limit) == Encode(es, FirstKept(es, i, limit))
    decreases |es| - i
  {
    var first, rest := es[i].line + [NEWLINE], Encode(es, i + 1);
    if limit <= |rest| {
      CutLater(first, rest, limit);
      TailKeepsWholeEntries(es, i + 1, limit);
    } else {
      CutInLine(es[i].line, rest, |Encode(es, i)| - limit);
      assert FirstKept(es, i + 1, limit) == i + 1;
    }
  }

  // ---------- Appending ----------

  /** An entry and whether writing it succeeded. */
  datatype Attempt = Attempt(entry: Entry, ok: bool)

  function Written(attempts: seq<Attempt>): seq<Entry> {
    if attempts == [] then []
    else Written(attempts[..|attempts| - 1])
         + if attempts[|attempts| - 1].ok then [attempts[|attempts| - 1].entry] else []
  }

  lemma {:induction false} EncodeShift(es: seq<Entry>, n: nat, k: nat)
    requires n + k <= |es|
    ensures Encode(es, n + k) == Encode(es[n..], k)
    decreases |es| - k
  {
    if n + k < |es| {
      assert es[n..][k] == es[n + k];
      EncodeShift(es, n, k + 1);
    }
  }

  lemma ConcatDrop<T>(a: seq<T>, b: seq<T>)
    ensures (a + b)[|a|..] == b
  {
  }

  lemma {:induction false} EncodeConcat(es: seq<Entry>, fs: seq<Entry>, i: nat)
    requires i <= |es|
    ensures Encode(es + fs, i) == Encode(es, i) + Encode(fs, 0)
    decreases |es| - i
  {
    if i == |es| {
      ConcatDrop(es, fs);
      EncodeShift(es + fs, |es|, 0);
      NilUnits(Encode(fs, 0));
    } else {
      assert (es + fs)[i] == es[i];
      EncodeConcat(es, fs, i + 1);
      Associative(es[i].line + [NEWLINE], Encode(es, i + 1), Encode(fs, 0));
    }
  }

  lemma EncodeDrop(es: seq<Entry>, j: nat)
    requires j <= |es|
    ensures Encode(es[j..], 0) == Encode(es, j)
  {
    EncodeShift(es, j, 0);
  }

  lemma EncodeSnoc(es: seq<Entry>, e: Entry)
    ensures Encode(es + [e], 0) == Encode(es, 0) + (e.line + [NEWLINE])
  {
    EncodeConcat(es, [e], 0);
    assert Encode([e], 1) == [];
    NilUnits(e.line + [NEWLINE]);
  }

  // ---------- Counting ----------

  predicate NotBlank(line: bytes) {
    TrimSpace(line) != []
  }

  /** The lines of s[from..], split at newlines, that `counts` accepts. */
  function CountLines(counts: bytes -> bool, s: bytes, from: nat): nat
    requires from <= |s|
    decreases |s| - from
  {
    var nl := NextNewline(s, from);
    (if counts(s[from..nl]) then 1 else 0) + if nl == |s| then 0 else CountLines(counts, s, nl + 1)
  }

  /** A line that counts starts at `p`. */
  ghost predicate StartsLine(counts: bytes -> bool, s: bytes, p: nat) {
    p <= |s| && (p == 0 || s[p - 1] == '\n' as int) && counts(s[p..NextNewline(s, p)])
  }

  ghost function LineStarts(counts: bytes -> bool, s: bytes, from: nat): set<nat> {
    set p | from <= p <= |s| && StartsLine(counts, s, p)
  }

  /** A line that starts later starts behind the next newline. */
  lemma LaterLine(s: bytes, from: nat, p: nat)
    requires from < p <= |s| && s[p - 1] == NEWLINE
    ensures NextNewline(s, from) < p
  {
    NextNewlineIsFirst(s, from);
  }

  lemma FirstLine(counts: bytes -> bool, s: bytes, from: nat, nl: nat)
    requires from <= |s| && (from == 0 || s[from - 1] == NEWLINE) && nl == NextNewline(s, from)
    ensures |LineStarts(counts, s, from)| ==
            (if counts(s[from..nl]) then 1 else 0) + if nl == |s| then 0 else |LineStarts(counts, s, nl + 1)|
  {
    var rest: set<nat> := if nl == |s| then {} else LineStarts(counts, s, nl + 1);
    forall p | p in LineStarts(counts, s, from) && p != from
      ensures p in rest
    {
      LaterLine(s, from, p);
    }
    assert from !in rest;
    if counts(s[from..nl]) {
      assert LineStarts(counts, s, from) == rest + {from};
    } else {
      assert LineStarts(counts, s, from) == rest;
    }
  }

  lemma {:induction false} CountIsStarts(counts: bytes -> bool, s: bytes, from: nat)
    requires from <= |s| && (from == 0 || s[from - 1] == NEWLINE)
    ensures CountLines(counts, s, from) == |LineStarts(counts, s, from)|
    decreases |s| - from
  {
    var nl := NextNewline(s, from);
    FirstLine(counts, s, from, nl);
    if nl < |s| {
      NextNewlineIsFirst(s, from);
      CountIsStarts(counts, s, nl + 1);
    }
  }

  /** The lines of a file with visible text, by where they start. */
  ghost function VisibleLines(s: bytes): set<nat> {
    LineStarts(line => Ink(line) != [], s, 0)
  }

  /** They are what the count counts. */
  lemma CountIsVisible(s: bytes)
    ensures CountLines(NotBlank, s, 0) == |VisibleLines(s)|
  {
    CountIsStarts(NotBlank, s, 0);
    forall line: bytes
      ensures NotBlank(line) <==> Ink(line) != []
    {
      TrimEmptyIffNoInk(line);
    }
    assert LineStarts(NotBlank, s, 0) == VisibleLines(s);
  }

  method CountJSONLFile(file: Option<bytes>) returns (count: nat)
    ensures count == if file.None? then 0 else CountLines(NotBlank, file.value, 0)
    ensures count == if file.None? then 0 else |VisibleLines(file.value)|
  {
    if file.None? {
      return 0;
    }
    var data := file.value;
    CountIsVisible(data);
    var from := 0;
    var more := true;
    count := 0;
    while more
      invariant from <= |data|
      invariant CountLines(NotBlank, data, 0) == count + if more then CountLines(NotBlank, data, from) else 0
      decreases more, |data| - from
    {
      var nl := NextNewline(data, from);
      var line := data[from..nl];
      if TrimSpace(line) != [] {
        count := count + 1;
      }
      if nl == |data| {
        more := false;
      } else {
        from := nl + 1;
      }
    }
  }

  lemma {:induction false} NewlineShift(s: bytes, n: nat, k: nat)
    requires n + k <= |s|
    ensures NextNewline(s, n + k) == n + NextNewline(s[n..], k)
    decreases |s| - k
  {
    if n + k < |s| {
      assert s[n..][k] == s[n + k];
      if s[n + k] != NEWLINE {
        NewlineShift(s, n, k + 1);
      }
    }
  }

  lemma SliceShift(s: bytes, n: nat, x: nat, y: nat)
    requires x <= y && n + y <= |s|
    ensures s[n..][x..y] == s[n + x..n + y]
  {
  }

  lemma {:induction false} CountShift(counts: bytes -> bool, s: bytes, n: nat, k: nat)
    requires n + k <= |s|
    ensures CountLines(counts, s, n + k) == CountLines(counts, s[n..], k)
    decreases |s| - k
  {
    var b := s[n..];
    NewlineShift(s, n, k);
    var nl := NextNewline(b, k);
    SliceShift(s, n, k, nl);
    if nl < |b| {
      CountShift(counts, s, n, nl + 1);
      assert n + (nl + 1) == (n + nl) + 1;
    }
  }

  lemma ObjectHasInk(line: bytes)
    requires IsObject(line)
    ensures NotBlank(line)
  {
    TrimEmptyIffNoInk(line);
  }

  lemma CountFirst(line: bytes, rest: bytes)
    requires IsObject(line)
    ensures CountLines(NotBlank, (line + [NEWLINE]) + rest, 0) == 1 + CountLines(NotBlank, rest, 0)
  {
    var data := (line + [NEWLINE]) + rest;
    NewlineBehind(line, rest, 0);
    assert data[0..|line|] == line;
    ObjectHasInk(line);
    BehindNewline(line, rest);
    CountShift(NotBlank, data, |line| + 1, 0);
  }

  /** The manifest's count is the number of entries in the file. */
  lemma {:induction false} CountIsEntries(es: seq<Entry>, i: nat)
    requires i <= |es| && AllObjects(es)
    ensures CountLines(NotBlank, Encode(es, i), 0) == |es| - i
    decreases |es| - i
  {
    if i < |es| {
      CountFirst(es[i].line, Encode(es, i + 1));
      CountIsEntries(es, i + 1);
    }
  }

  // ---------- One publish ----------

  /** What carryForwardChangeLog starts the new log with; an unreadable old log counts as none. */
  function Carried(prev: Option<bytes>): bytes {
    match prev
    case None => []
    case Some(data) =>
      if |data| > MAX_CHANGE_LOG_BYTES then TailCompleteLines(data, MAX_CHANGE_LOG_BYTES) else data
  }

  /** How many of the oldest entries a carry drops. */
  function Dropped(es: seq<Entry>): (j: nat)
    ensures j <= |es|
  {
    if |Encode(es, 0)| > MAX_CHANGE_LOG_BYTES then FirstKept(es, 0, MAX_CHANGE_LOG_BYTES) else 0
  }

  /** Carrying a log of whole entries carries whole entries, and at most 16 MiB of them. */
  lemma CarriedEntries(es: seq<Entry>)
    requires AllObjects(es)
    ensures Carried(Some(Encode(es, 0))) == Encode(es[Dropped(es)..], 0)
    ensures |Carried(Some(Encode(es, 0)))| <= MAX_CHANGE_LOG_BYTES
  {
    if |Encode(es, 0)| > MAX_CHANGE_LOG_BYTES {
      TailKeepsWholeEntries(es, 0, MAX_CHANGE_LOG_BYTES);
      EncodeDrop(es, Dropped(es));
    } else {
      assert es[0..] == es;
    }
  }

  class Log {
    var data: bytes

    constructor ()
      ensures data == []
    {
      data := [];
    }

    /** Starts the log of a cleared directory; a write that fails is only logged, and leaves nothing. */
    method CarryForwardChangeLog(prev: Option<bytes>, writes: bool)
      modifies this
      ensures data == if writes then Carried(prev) else []
      ensures prev.None? || !writes ==> data == []
      ensures writes && prev.Some? && |prev.value| <= 16777216 ==> data == prev.value
      ensures writes && prev.Some? && |prev.value| > 16777216 ==>
                exists k :: IsLineCut(prev.value, |prev.value| - 16777216, k) && data == prev.value[k..]
    {
      if prev.Some? && |prev.value| > 16777216 {
        TailIsLineCut(prev.value, 16777216);
      }
      data := [];
      if prev.None? {
        return;
      }
      var kept := prev.value;
      if |kept| > MAX_CHANGE_LOG_BYTES {
        var tail := kept[|kept| - MAX_CHANGE_LOG_BYTES..];
        var idx := NextNewline(tail, 0);
        if idx < |tail| {
          tail := tail[idx + 1..];
        }
        kept := tail;
      }
      if writes {
        data := kept;
      }
    }

    /** AppendJSONL; a failed one leaves the file as it was. */
    method Append(a: Attempt) returns (ok: bool)
      modifies this
      ensures ok == a.ok
      ensures data == if a.ok then old(data) + (a.entry.line + [NEWLINE]) else old(data)
    {
      if a.ok {
        data := data + (a.entry.line + [NEWLINE]);
      }
      return a.ok;
    }

    /** Appends one list of changes; the cursor moves only past entries that were written. */
    method AppendEvidenceChanges(attempts: seq<Attempt>, cursor: Option<string>) returns (last: Option<string>)
      modifies this
      ensures data == old(data) + Encode(Written(attempts), 0)
      ensures last == LastId(Written(attempts), cursor)
    {
      last := cursor;
      ghost var start := data;
      for n := 0 to |attempts|
        invariant data == start + Encode(Written(attempts[..n]), 0)
        invariant last == LastId(Written(attempts[..n]), cursor)
      {
        WrittenStep(start, attempts, n, cursor);
        var ok := Append(attempts[n]);
        if ok {
          last := Some(attempts[n].entry.id);
        }
      }
      assert attempts[..|attempts|] == attempts;
    }

    /** appendEvidenceChangeLog: added ids first, then superseded ones; the count includes failures. */
    method AppendEvidenceChangeLog(added: seq<Attempt>, superseded: seq<Attempt>)
      returns (cursor: Option<string>, changes: nat)
      modifies this
      ensures data == old(data) + Encode(Written(added) + Written(superseded), 0)
      ensures cursor == LastId(Written(added) + Written(superseded), None)
      ensures changes == |added| + |superseded| >= |Written(added) + Written(superseded)|
      ensures (forall a :: a in added + superseded ==> a.ok) ==> changes == |Written(added) + Written(superseded)|
    {
      cursor := AppendEvidenceChanges(added, None);
      cursor := AppendEvidenceChanges(superseded, cursor);
      changes := |added| + |superseded|;
      EncodeConcat(Written(added), Written(superseded), 0);
      Associative(old(data), Encode(Written(added), 0), Encode(Written(superseded), 0));
      WrittenCount(added);
      WrittenCount(superseded);
    }
  }

  /** The id of the last entry, or `cursor` when there is none. */
  function LastId(es: seq<Entry>, cursor: Option<string>): Option<string> {
    if es == [] then cursor else Some(es[|es| - 1].id)
  }

  /** Entry `n` is the last that was written. */
  predicate LastWritten(attempts: seq<Attempt>, n: nat) {
    n < |attempts| && attempts[n].ok && forall k :: n < k < |attempts| ==> !attempts[k].ok
  }

  /** `last` is the id of the last entry that was written, and the old cursor if none was. */
  ghost predicate IsCursor(attempts: seq<Attempt>, cursor: Option<string>, last: Option<string>) {
    || (last == cursor && forall n :: 0 <= n < |attempts| ==> !attempts[n].ok)
    || exists n: nat :: LastWritten(attempts, n) && last == Some(attempts[n].entry.id)
  }

  /** That is what a list of changes leaves in the cursor. */
  lemma {:induction false} LastIdIsCursor(attempts: seq<Attempt>, cursor: Option<string>)
    ensures IsCursor(attempts, cursor, LastId(Written(attempts), cursor))
  {
    if attempts != [] {
      var front, a := attempts[..|attempts| - 1], attempts[|attempts| - 1];
      LastIdIsCursor(front, cursor);
      assert Written(front) + [] == Written(front);
      CursorMoves(front, a, cursor, LastId(Written(front), cursor));
      assert front + [a] == attempts;
    }
  }

  lemma CursorMoves(front: seq<Attempt>, a: Attempt, cursor: Option<string>, last: Option<string>)
    requires IsCursor(front, cursor, last)
    ensures IsCursor(front + [a], cursor, if a.ok then Some(a.entry.id) else last)
  {
    var all := front + [a];
    assert all[|front|] == a && forall k :: 0 <= k < |front| ==> all[k] == front[k];
    if a.ok {
      assert LastWritten(all, |front|);
    } else if n: nat :| LastWritten(front, n) && last == Some(front[n].entry.id) {
      assert LastWritten(all, n);
    }
  }

  lemma WrittenStep(start: bytes, attempts: seq<Attempt>, n: nat, cursor: Option<string>)
    requires n < |attempts|
    ensures var a := attempts[n];
      var before, after := Written(attempts[..n]), Written(attempts[..n + 1]);
      && start + Encode(after, 0)
         == (if a.ok then (start + Encode(before, 0)) + (a.entry.line + [NEWLINE]) else start + Encode(before, 0))
      && LastId(after, cursor) == if a.ok then Some(a.entry.id) else LastId(before, cursor)
  {
    var a, before := attempts[n], Written(attempts[..n]);
    assert attempts[..n + 1][..n] == attempts[..n];
    if a.ok {
      EncodeSnoc(before, a.entry);
      Associative(start, Encode(before, 0), a.entry.line + [NEWLINE]);
    } else {
      NilUnits(before);
    }
  }

  lemma {:induction false} WrittenCount(attempts: seq<Attempt>)
    ensures |Written(attempts)| <= |attempts|
    ensures (forall a :: a in attempts ==> a.ok) ==> |Written(attempts)| == |attempts|
  {
    if attempts != [] {
      WrittenCount(attempts[..|attempts| - 1]);
    }
  }

  // ---------- Any number of publishes ----------

  /** Each run carries over the committed log if it can read it and write it, appends its own entries,
      and commits the result only when the sync comes to it. */
  datatype History = Nothing | Publish(before: History, carries: bool, entries: seq<Entry>, synced: bool)

  /** The committed log, as the bytes of a file. */
  function FileOf(h: History): bytes {
    match h
    case Nothing => []
    case Publish(before, carries, es, synced) =>
      if synced then Carried(if carries then Some(FileOf(before)) else None) + Encode(es, 0) else FileOf(before)
  }

  /** The same log, as a list of entries. */
  function EntriesOf(h: History): seq<Entry> {
    match h
    case Nothing => []
    case Publish(before, carries, es, synced) =>
      if !synced then EntriesOf(before)
      else if carries then EntriesOf(before)[Dropped(EntriesOf(before))..] + es
      else es
  }

  /** Every entry ever committed, in order. */
  function AllEntries(h: History): seq<Entry> {
    match h
    case Nothing => []
    case Publish(before, _, es, synced) => if synced then AllEntries(before) + es else AllEntries(before)
  }

  predicate Marshalled(h: History) {
    h.Publish? ==> Marshalled(h.before) && AllObjects(h.entries)
  }

  lemma ObjectsOfParts(es: seq<Entry>, fs: seq<Entry>, j: nat)
    requires AllObjects(es) && AllObjects(fs) && j <= |es|
    ensures AllObjects(es[j..] + fs)
  {
  }

  /** Over any number of publishes the log is a whole number of entries: what the previous log kept,
      followed by this run's. */
  lemma {:induction false} LogIsWhole(h: History)
    requires Marshalled(h)
    ensures AllObjects(EntriesOf(h)) && FileOf(h) == Encode(EntriesOf(h), 0)
  {
    if h.Publish? && h.synced {
      LogIsWhole(h.before);
      var es := EntriesOf(h.before);
      if h.carries {
        ObjectsOfParts(es, h.entries, Dropped(es));
        CarriedEntries(es);
        EncodeConcat(es[Dropped(es)..], h.entries, 0);
      } else {
        NilUnits(Encode(h.entries, 0));
      }
    } else if h.Publish? {
      LogIsWhole(h.before);
    }
  }

  /** It never exceeds 16 MiB by more than the bytes of the run that committed it. */
  lemma LogIsBounded(h: History)
    requires h.Publish? && h.synced
    ensures |FileOf(h)| <= MAX_CHANGE_LOG_BYTES + |Encode(h.entries, 0)|
  {
  }

  ghost predicate SuffixFrom(h: History, k: nat) {
    k <= |AllEntries(h)| && EntriesOf(h) == AllEntries(h)[k..]
  }

  /** Only the oldest entries are ever lost: the log is a suffix of everything committed. */
  lemma {:induction false} LogIsSuffix(h: History)
    ensures exists k: nat :: SuffixFrom(h, k)
  {
    if h.Publish? {
      LogIsSuffix(h.before);
      var k: nat :| SuffixFrom(h.before, k);
      if h.synced {
        SuffixGrows(h, k);
      } else {
        assert SuffixFrom(h, k);
      }
    } else {
      assert SuffixFrom(h, 0);
    }
  }

  lemma SuffixGrows(h: History, k: nat)
    requires h.Publish? && h.synced && SuffixFrom(h.before, k)
    ensures exists m: nat :: SuffixFrom(h, m)
  {
    var all, es := AllEntries(h.before), EntriesOf(h.before);
    if h.carries {
      SuffixOfSuffix(all, k, Dropped(es), h.entries);
      assert SuffixFrom(h, k + Dropped(es));
    } else {
      ConcatDrop(all, h.entries);
      assert SuffixFrom(h, |all|);
    }
  }

  lemma SuffixOfSuffix(all: seq<Entry>, k: nat, j: nat, es: seq<Entry>)
    requires k + j <= |all|
    ensures all[k..][j..] + es == (all + es)[k + j..]
  {
  }

  /** The manifest counts exactly the entries of the committed log. */
  lemma CountMatchesLog(h: History)
    requires Marshalled(h)
    ensures CountLines(NotBlank, FileOf(h), 0) == |EntriesOf(h)|
  {
    LogIsWhole(h);
    CountIsEntries(EntriesOf(h), 0);
  }
}

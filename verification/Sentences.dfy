/** internal/htmlx/chunk.go, splitSentences: cutting a text after sentence-ending punctuation. */
module Sentences {
  import opened Seqs
  import opened Utf8
  import opened Whitespace

  predicate Terminator(b: byte) {
    b == '.' as int || b == '!' as int || b == '?' as int
  }

  /** RE2's \s, a subset of what TrimSpace removes (no vertical tab, ASCII only). */
  predicate ReSpace(b: byte) {
    b == 9 || b == 10 || b == 12 || b == 13 || b == 32
  }

  /** The pattern [.!?]\s+ matches at `i`. */
  predicate MatchAt(text: bytes, i: nat) {
    i + 1 < |text| && Terminator(text[i]) && ReSpace(text[i + 1])
  }

  /** First position from `j` on that is not \s. */
  function SpaceRun(text: bytes, j: nat): (k: nat)
    requires j <= |text|
    ensures j <= k <= |text|
    decreases |text| - j
  {
    if j < |text| && ReSpace(text[j]) then SpaceRun(text, j + 1) else j
  }

  /** Start of the leftmost match at or after `from`; |text| when there is none. */
  function NextMatch(text: bytes, from: nat): (i: nat)
    requires from <= |text|
    ensures from <= i <= |text|
    ensures i < |text| ==> MatchAt(text, i)
    decreases |text| - from
  {
    if from == |text| || MatchAt(text, from) then from else NextMatch(text, from + 1)
  }

  lemma {:induction false} SpaceRunIsMaximal(text: bytes, j: nat)
    requires j <= |text|
    ensures forall i :: j <= i < SpaceRun(text, j) ==> ReSpace(text[i])
    ensures SpaceRun(text, j) < |text| ==> !ReSpace(text[SpaceRun(text, j)])
    decreases |text| - j
  {
    if j < |text| && ReSpace(text[j]) {
      SpaceRunIsMaximal(text, j + 1);
    }
  }

  lemma {:induction false} NextMatchIsLeftmost(text: bytes, from: nat)
    requires from <= |text|
    ensures forall j :: from <= j < NextMatch(text, from) ==> !MatchAt(text, j)
    decreases |text| - from
  {
    if from < |text| && !MatchAt(text, from) {
      NextMatchIsLeftmost(text, from + 1);
    }
  }

  /** FindAllStringIndex: start and end of each leftmost, greedy, non-overlapping match. */
  function FindAll(text: bytes, from: nat): seq<(nat, nat)>
    requires from <= |text|
    decreases |text| - from
  {
    var i := NextMatch(text, from);
    if i == |text| then [] else
    var e := SpaceRun(text, i + 1);
    [(i, e)] + FindAll(text, e)
  }

  /** text[start..] cut after every match. */
  function Pieces(text: bytes, start: nat): (ps: seq<bytes>)
    requires start <= |text|
    ensures ps != []
    decreases |text| - start
  {
    var i := NextMatch(text, start);
    if i == |text| then [text[start..]] else
    var e := SpaceRun(text, i + 1);
    [text[start..e]] + Pieces(text, e)
  }

  /** Trims every piece; a blank last piece is no sentence. */
  function TrimPieces(ps: seq<bytes>): seq<bytes>
    requires ps != []
  {
    if |ps| > 1 then [TrimSpace(ps[0])] + TrimPieces(ps[1..])
    else if TrimSpace(ps[0]) == [] then []
    else [TrimSpace(ps[0])]
  }

  /** The sentences of a text: its trimmed pieces, or the text as it is when nothing matches. */
  function SentencesOf(text: bytes): seq<bytes> {
    if NextMatch(text, 0) == |text| then [text] else TrimPieces(Pieces(text, 0))
  }

  lemma FindNext(text: bytes, start: nat)
    requires start <= |text| && FindAll(text, start) != []
    ensures var e := FindAll(text, start)[0].1;
      && start < e <= |text|
      && FindAll(text, start)[1..] == FindAll(text, e)
      && TrimPieces(Pieces(text, start)) == [TrimSpace(text[start..e])] + TrimPieces(Pieces(text, e))
  {
  }

  lemma FindNone(text: bytes, start: nat)
    requires start <= |text| && FindAll(text, start) == []
    ensures TrimPieces(Pieces(text, start)) == if TrimSpace(text[start..]) == [] then [] else [TrimSpace(text[start..])]
    ensures start == |text| ==> TrimSpace(text[start..]) == []
  {
  }

  method SplitSentences(text: bytes) returns (sentences: seq<bytes>)
    ensures sentences == SentencesOf(text)
  {
    var indices := FindAll(text, 0);
    if |indices| == 0 {
      return [text];
    }
    sentences := [];
    var start: nat := 0;
    for n := 0 to |indices|
      invariant start <= |text|
      invariant indices[n..] == FindAll(text, start)
      invariant TrimPieces(Pieces(text, 0)) == sentences + TrimPieces(Pieces(text, start))
    {
      var end := indices[n].1;
      FindNext(text, start);
      assert indices[n..][0] == indices[n] && indices[n..][1..] == indices[n + 1..];
      Associative(sentences, [TrimSpace(text[start..end])], TrimPieces(Pieces(text, end)));
      sentences := sentences + [TrimSpace(text[start..end])];
      start := end;
    }
    FindNone(text, start);
    if start < |text| {
      var rem := TrimSpace(text[start..]);
      if rem != [] {
        sentences := sentences + [rem];
      }
    }
  }

  // ---------- Nothing but whitespace is lost ----------

  lemma PiecesStep(text: bytes, start: nat)
    requires start <= |text| && NextMatch(text, start) < |text|
    ensures var e := SpaceRun(text, NextMatch(text, start) + 1);
      start < e && Pieces(text, start) == [text[start..e]] + Pieces(text, e)
  {
  }

  lemma LastPiece(text: bytes, start: nat)
    requires start <= |text| && NextMatch(text, start) == |text|
    ensures Pieces(text, start) == [text[start..]]
  {
  }

  lemma FlattenOne(x: bytes)
    ensures Flatten([x]) == x
  {
    FlattenCons(x, []);
    NilUnits(x);
    NilUnits([x]);
  }

  lemma ValidCons(x: bytes, ps: seq<bytes>, all: seq<bytes>)
    requires Valid(x) && AllValid(ps) && all == [x] + ps
    ensures AllValid(all)
  {
  }

  /** The pieces are the text, cut. */
  lemma {:induction false} PiecesAreTheText(text: bytes, start: nat)
    requires start <= |text|
    ensures Flatten(Pieces(text, start)) == text[start..]
    decreases |text| - start
  {
    var i := NextMatch(text, start);
    if i < |text| {
      var e := SpaceRun(text, i + 1);
      PiecesStep(text, start);
      PiecesAreTheText(text, e);
      FlattenCons(text[start..e], Pieces(text, e));
      Rejoin(text, start, e);
    } else {
      LastPiece(text, start);
      FlattenOne(text[start..]);
    }
  }

  /** Where a sentence ends, valid text may be cut. */
  lemma CutAfterBlank(text: bytes, i: nat)
    requires Valid(text) && MatchAt(text, i)
    ensures i + 2 <= SpaceRun(text, i + 1) && Boundary(text, SpaceRun(text, i + 1))
  {
    var e := SpaceRun(text, i + 1);
    SpaceRunIsMaximal(text, i + 1);
    assert i + 2 <= e;
    assert ReSpace(text[e - 1]);
    AsciiBoundary(text, e - 1);
  }

  lemma FirstPieceValid(text: bytes, start: nat, i: nat, e: nat)
    requires Valid(text) && Boundary(text, start) && start <= i && MatchAt(text, i) && e == SpaceRun(text, i + 1)
    ensures start < e && Boundary(text, e) && Valid(text[start..e])
  {
    CutAfterBlank(text, i);
    BetweenBoundaries(text, start, e);
  }

  lemma BetweenBoundaries(text: bytes, a: nat, b: nat)
    requires Valid(text) && Boundary(text, a) && Boundary(text, b) && a <= b
    ensures Valid(text[a..b])
  {
    ValidSplit(text, a);
    SliceValid(text, a, b);
  }

  ghost predicate CutsAtBoundaries(text: bytes, all: seq<(nat, nat)>) {
    forall k :: 0 <= k < |all| ==> Boundary(text, all[k].1)
  }

  lemma {:induction false} FindAllAtBoundaries(text: bytes, start: nat, all: seq<(nat, nat)>)
    requires Valid(text) && start <= |text| && all == FindAll(text, start)
    ensures CutsAtBoundaries(text, all)
    decreases |text| - start
  {
    FoundAll(text, start, all);
    if all != [] {
      CutAfterBlank(text, NextMatch(text, start));
      FindAllAtBoundaries(text, all[0].1, all[1..]);
      assert forall k :: 1 <= k < |all| ==> all[k] == all[1..][k - 1];
    }
  }

  lemma {:induction false} BetweenValid(text: bytes, start: nat, all: seq<(nat, nat)>)
    requires Valid(text) && Boundary(text, start) && Ascending(text, start, all) && CutsAtBoundaries(text, all)
    ensures AllValid(PiecesBetween(text, start, all))
    decreases |all|
  {
    if all == [] {
      ValidSplit(text, start);
    } else {
      BetweenBoundaries(text, start, all[0].1);
      BetweenValid(text, all[0].1, all[1..]);
      ValidCons(text[start..all[0].1], PiecesBetween(text, all[0].1, all[1..]), PiecesBetween(text, start, all));
    }
  }

  /** The cuts of `Pieces` are boundaries of valid text, so the pieces are valid. */
  lemma PiecesValid(text: bytes, start: nat)
    requires Valid(text) && Boundary(text, start)
    ensures AllValid(Pieces(text, start))
  {
    FindAllAtBoundaries(text, start, FindAll(text, start));
    PiecesAreBetween(text, start, FindAll(text, start));
    BetweenValid(text, start, FindAll(text, start));
  }

  lemma SliceValid(text: bytes, a: nat, b: nat)
    requires a <= b <= |text| && Valid(text[a..]) && Boundary(text, b)
    ensures Valid(text[a..b])
  {
    DropTake(text, a, b);
    assert b < |text| ==> text[a..][b - a] == text[b];
    ValidSplit(text[a..], b - a);
  }

  lemma {:induction false} TrimPiecesKeepInk(ps: seq<bytes>)
    requires ps != [] && AllValid(ps)
    ensures AllValid(TrimPieces(ps)) && InkAll(TrimPieces(ps)) == InkAll(ps)
  {
    TrimKeepsInk(ps[0]);
    TrimEmptyIffNoInk(ps[0]);
    if |ps| > 1 {
      TrimPiecesKeepInk(ps[1..]);
    } else {
      assert ps[1..] == [];
    }
  }

  /** Splitting a valid text into sentences keeps every non-whitespace rune, in order. */
  lemma SentencesKeepInk(text: bytes)
    requires Valid(text)
    ensures AllValid(SentencesOf(text)) && InkAll(SentencesOf(text)) == Ink(text)
  {
    if NextMatch(text, 0) == |text| {
      assert InkAll([text]) == Ink(text) + InkAll([]);
    } else {
      PiecesValid(text, 0);
      PiecesAreTheText(text, 0);
      InkOfFlatten(Pieces(text, 0));
      TrimPiecesKeepInk(Pieces(text, 0));
      assert text[0..] == text;
    }
  }

  // ---------- The split is complete ----------

  ghost predicate NoMatch(text: bytes) {
    forall i: nat :: !MatchAt(text, i)
  }

  /** Only blanks follow `m`, and no match starts before it. */
  ghost predicate OnlyLastMatch(s: bytes, m: nat) {
    && m <= |s| && (forall i :: m < i < |s| ==> ReSpace(s[i]))
    && forall i: nat :: i < m ==> !MatchAt(s, i)
  }

  lemma SliceMatches(text: bytes, a: nat, b: nat)
    requires a <= b <= |text|
    ensures forall j: nat :: MatchAt(text[a..b], j) ==> MatchAt(text, a + j)
  {
  }

  lemma DropShape(s: bytes, m: nat, n: nat)
    requires OnlyLastMatch(s, m) && n <= |s|
    ensures OnlyLastMatch(s[n..], if m < n then 0 else m - n)
  {
    SliceMatches(s, n, |s|);
    assert s[n..|s|] == s[n..];
  }

  lemma TakeShape(s: bytes, m: nat, k: nat)
    requires OnlyLastMatch(s, m) && k <= |s|
    ensures OnlyLastMatch(s[..k], if m < k then m else k)
  {
    SliceMatches(s, 0, k);
    assert s[0..k] == s[..k];
  }

  lemma LastBlankIsTail(s: bytes)
    requires s != [] && ReSpace(s[|s| - 1])
    ensures TailSpace(s) == 1
  {
  }

  /** A piece whose only terminator-then-blank is its last one, at `m`, holds none once trimmed. */
  lemma {:induction false} TrimmedPieceHasNoMatch(s: bytes, m: nat)
    requires OnlyLastMatch(s, m)
    ensures NoMatch(TrimSpace(s))
    decreases |s|
  {
    if LeadSpace(s) > 0 {
      var n := LeadSpace(s);
      DropShape(s, m, n);
      TrimmedPieceHasNoMatch(s[n..], if m < n then 0 else m - n);
    } else if TailSpace(s) > 0 {
      var k := |s| - TailSpace(s);
      TakeShape(s, m, k);
      TrimmedPieceHasNoMatch(s[..k], if m < k then m else k);
    } else if m + 1 < |s| {
      LastBlankIsTail(s);
    }
  }

  lemma FirstPieceShape(text: bytes, start: nat)
    requires start <= |text| && NextMatch(text, start) < |text|
    ensures OnlyLastMatch(text[start..SpaceRun(text, NextMatch(text, start) + 1)], NextMatch(text, start) - start)
  {
    var i := NextMatch(text, start);
    var e := SpaceRun(text, i + 1);
    NextMatchIsLeftmost(text, start);
    SpaceRunIsMaximal(text, i + 1);
    SliceMatches(text, start, e);
    var piece := text[start..e];
    assert forall k :: i - start < k < |piece| ==> piece[k] == text[start + k];
  }

  /** Every piece breaks off at its first terminator-then-blank, the last one has none. */
  lemma {:induction false} PieceShape(text: bytes, start: nat, n: nat) returns (m: nat)
    requires start <= |text| && n < |Pieces(text, start)|
    ensures OnlyLastMatch(Pieces(text, start)[n], m)
    decreases |text| - start
  {
    var i := NextMatch(text, start);
    if i == |text| {
      NextMatchIsLeftmost(text, start);
      SliceMatches(text, start, |text|);
      assert text[start..|text|] == text[start..];
      m := |text| - start;
    } else if n == 0 {
      FirstPieceShape(text, start);
      m := i - start;
    } else {
      m := PieceShape(text, SpaceRun(text, i + 1), n - 1);
    }
  }

  lemma {:induction false} TrimPiecesAt(ps: seq<bytes>, n: nat)
    requires ps != [] && n < |TrimPieces(ps)|
    ensures n < |ps| && TrimPieces(ps)[n] == TrimSpace(ps[n])
    ensures n == |ps| - 1 ==> TrimPieces(ps)[n] != []
  {
    if n > 0 {
      TrimPiecesAt(ps[1..], n - 1);
    }
  }

  /** No returned sentence still contains an end of sentence followed by blank. */
  lemma SentencesComplete(text: bytes, n: nat)
    requires n < |SentencesOf(text)|
    ensures NoMatch(SentencesOf(text)[n])
  {
    if NextMatch(text, 0) < |text| {
      TrimPiecesAt(Pieces(text, 0), n);
      var m := PieceShape(text, 0, n);
      TrimmedPieceHasNoMatch(Pieces(text, 0)[n], m);
    } else {
      NextMatchIsLeftmost(text, 0);
    }
  }

  /** A terminator is ink, even in malformed text. */
  lemma {:induction false} InkHasTerminator(s: bytes, i: nat)
    requires i < |s| && Terminator(s[i])
    ensures Ink(s) != []
    decreases |s|
  {
    if LeadSpace(s) > 0 {
      InkHasTerminator(s[LeadSpace(s)..], i - LeadSpace(s));
    }
  }

  lemma {:induction false} PieceHasTerminator(text: bytes, start: nat, n: nat)
    requires start <= |text| && n < |Pieces(text, start)| - 1
    ensures TrimSpace(Pieces(text, start)[n]) != []
    decreases |text| - start
  {
    var i := NextMatch(text, start);
    var e := SpaceRun(text, i + 1);
    if n > 0 {
      PieceHasTerminator(text, e, n - 1);
    } else {
      InkHasTerminator(text[start..e], i - start);
      TrimEmptyIffNoInk(text[start..e]);
    }
  }

  /** The one empty sentence there can be is the empty text itself. */
  lemma SentencesNonEmpty(text: bytes, n: nat)
    requires text != [] && n < |SentencesOf(text)|
    ensures SentencesOf(text)[n] != []
  {
    if NextMatch(text, 0) < |text| {
      var ps := Pieces(text, 0);
      TrimPiecesAt(ps, n);
      if n < |ps| - 1 {
        PieceHasTerminator(text, 0, n);
      }
    }
  }

  // ---------- Where the text is cut ----------

  /** One of the blanks of RE2's \s. */
  predicate Blanks(c: int) {
    c in {'\t' as int, '\n' as int, 12, '\r' as int, ' ' as int}
  }

  /** In front of `e` stand a full stop, an exclamation or a question mark and then one or more blanks, and
      no further blank follows. */
  ghost predicate EndsSentence(text: bytes, e: nat) {
    && e <= |text| && (e < |text| ==> !Blanks(text[e]))
    && exists i: nat :: i + 1 < e && text[i] in {'.' as int, '!' as int, '?' as int}
                        && forall k :: i < k < e ==> Blanks(text[k])
  }

  /** The text is cut at `e` when it is split from `start` on. */
  predicate CutBetween(text: bytes, start: nat, e: nat)
    requires start <= |text|
    decreases |text| - start
  {
    exists n :: 0 <= n < |FindAll(text, start)| && FindAll(text, start)[n].1 == e
  }

  lemma FindAllStep(text: bytes, start: nat, e: nat)
    requires start <= |text| && NextMatch(text, start) < |text|
    ensures var next := SpaceRun(text, NextMatch(text, start) + 1);
      CutBetween(text, start, e) <==> e == next || CutBetween(text, next, e)
  {
    var i := NextMatch(text, start);
    var next := SpaceRun(text, i + 1);
    var all, rest := FindAll(text, start), FindAll(text, next);
    assert all == [(i, next)] + rest;
    if e == next {
      assert all[0].1 == e;
    }
    if CutBetween(text, next, e) {
      var n :| 0 <= n < |rest| && rest[n].1 == e;
      assert all[n + 1].1 == e;
    }
    if CutBetween(text, start, e) && e != next {
      var n :| 0 <= n < |all| && all[n].1 == e;
      assert rest[n - 1].1 == e;
    }
  }

  lemma MatchEnds(text: bytes, i: nat)
    requires MatchAt(text, i)
    ensures EndsSentence(text, SpaceRun(text, i + 1))
  {
    SpaceRunIsMaximal(text, i + 1);
    assert SpaceRun(text, i + 1) >= i + 2;
    assert text[i] in {'.' as int, '!' as int, '?' as int};
  }

  /** An end of sentence behind `start` is the end of the next match, or behind it. */
  lemma NextEnd(text: bytes, start: nat, e: nat)
    requires EndsSentence(text, e) && EndStart(text, e) >= start
    ensures NextMatch(text, start) < |text|
    ensures var next := SpaceRun(text, NextMatch(text, start) + 1);
      next <= e && (next < e ==> EndStart(text, e) >= next)
  {
    var i := EndStart(text, e);
    assert MatchAt(text, i);
    NextMatchIsLeftmost(text, start);
    var m := NextMatch(text, start);
    SpaceRunIsMaximal(text, m + 1);
    assert text[i] !in {9, 10, 12, 13, 32};
    if m < i {
      assert SpaceRun(text, m + 1) <= i;
    } else {
      assert SpaceRun(text, i + 1) == e;
    }
  }

  /** Where the punctuation in front of `e` stands. */
  ghost function EndStart(text: bytes, e: nat): (i: nat)
    requires EndsSentence(text, e)
    ensures i + 1 < e && text[i] in {'.' as int, '!' as int, '?' as int}
    ensures forall k :: i < k < e ==> Blanks(text[k])
  {
    var i: nat :| i + 1 < e && text[i] in {'.' as int, '!' as int, '?' as int}
                  && forall k :: i < k < e ==> Blanks(text[k]);
    i
  }

  /** The text is cut at exactly the ends of sentences. */
  lemma {:induction false} CutsIff(text: bytes, start: nat, e: nat)
    requires start <= |text|
    ensures CutBetween(text, start, e) <==> EndsSentence(text, e) && EndStart(text, e) >= start
    decreases |text| - start
  {
    if NextMatch(text, start) == |text| {
      if EndsSentence(text, e) && EndStart(text, e) >= start {
        NextEnd(text, start, e);
      }
    } else {
      var m := NextMatch(text, start);
      var next := SpaceRun(text, m + 1);
      FindAllStep(text, start, e);
      CutsIff(text, next, e);
      MatchEnds(text, m);
      if EndsSentence(text, e) && EndStart(text, e) >= start {
        NextEnd(text, start, e);
      }
      SpaceRunIsMaximal(text, m + 1);
    }
  }

  /** Where the n-th piece starts, and where it ends. */
  function CutBefore(text: bytes, n: nat): nat
    requires n <= |FindAll(text, 0)|
  {
    if n == 0 then 0 else FindAll(text, 0)[n - 1].1
  }

  function CutBehind(text: bytes, n: nat): nat
    requires n <= |FindAll(text, 0)|
  {
    if n == |FindAll(text, 0)| then |text| else FindAll(text, 0)[n].1
  }

  /** Where the cuts put the n-th piece of text[start..]. */
  predicate PieceIs(text: bytes, start: nat, all: seq<(nat, nat)>, n: nat, piece: bytes)
    requires n <= |all|
  {
    var from, to := if n == 0 then start else all[n - 1].1, if n == |all| then |text| else all[n].1;
    from <= to <= |text| && piece == text[from..to]
  }

  /** The ends of the matches in `all` cut the text from `start` on into these pieces. */
  function PiecesBetween(text: bytes, start: nat, all: seq<(nat, nat)>): seq<bytes>
    requires Ascending(text, start, all)
    decreases |all|
  {
    if all == [] then [text[start..]] else [text[start..all[0].1]] + PiecesBetween(text, all[0].1, all[1..])
  }

  predicate Ascending(text: bytes, start: nat, all: seq<(nat, nat)>)
    decreases |all|
  {
    start <= |text| && (all != [] ==> start <= all[0].1 <= |text| && Ascending(text, all[0].1, all[1..]))
  }

  lemma {:induction false} PieceBetween(text: bytes, start: nat, all: seq<(nat, nat)>, n: nat)
    requires Ascending(text, start, all) && n <= |all|
    ensures |PiecesBetween(text, start, all)| == |all| + 1
    ensures PieceIs(text, start, all, n, PiecesBetween(text, start, all)[n])
    decreases |all|
  {
    if all != [] {
      PieceBetween(text, all[0].1, all[1..], if n == 0 then 0 else n - 1);
    } else {
      assert text[start..|text|] == text[start..];
    }
  }

  lemma FoundAll(text: bytes, start: nat, all: seq<(nat, nat)>)
    requires start <= |text| && all == FindAll(text, start)
    ensures all == [] <==> NextMatch(text, start) == |text|
    ensures all != [] ==>
              var e := SpaceRun(text, NextMatch(text, start) + 1);
              all[0].1 == e && all[1..] == FindAll(text, e)
  {
  }

  lemma {:induction false} PiecesAreBetween(text: bytes, start: nat, all: seq<(nat, nat)>)
    requires start <= |text| && all == FindAll(text, start)
    ensures Ascending(text, start, all) && Pieces(text, start) == PiecesBetween(text, start, all)
    decreases |text| - start
  {
    FoundAll(text, start, all);
    if all == [] {
      LastPiece(text, start);
    } else {
      PiecesStep(text, start);
      PiecesAreBetween(text, all[0].1, all[1..]);
    }
  }

  lemma PieceAt(text: bytes, n: nat)
    requires n <= |FindAll(text, 0)|
    ensures |Pieces(text, 0)| == |FindAll(text, 0)| + 1
    ensures PieceIs(text, 0, FindAll(text, 0), n, Pieces(text, 0)[n])
  {
    PiecesAreBetween(text, 0, FindAll(text, 0));
    PieceBetween(text, 0, FindAll(text, 0), n);
  }

  lemma {:induction false} TrimPiecesCount(ps: seq<bytes>)
    requires ps != []
    ensures |TrimPieces(ps)| == if TrimSpace(ps[|ps| - 1]) == [] then |ps| - 1 else |ps|
  {
    if |ps| > 1 {
      TrimPiecesCount(ps[1..]);
    }
  }

  /** The sentences of a text with an end of sentence are the stretches between its cuts, trimmed; all of
      them, save a last one that is blank. */
  lemma SentenceAt(text: bytes, n: nat)
    requires FindAll(text, 0) != [] && n <= |FindAll(text, 0)|
    ensures CutBefore(text, n) <= CutBehind(text, n) <= |text|
    ensures var s := TrimSpace(text[CutBefore(text, n)..CutBehind(text, n)]);
      if n == |FindAll(text, 0)| && s == [] then |SentencesOf(text)| == n
      else n < |SentencesOf(text)| <= |FindAll(text, 0)| + 1 && SentencesOf(text)[n] == s
  {
    PieceAt(text, n);
    PieceAt(text, |FindAll(text, 0)|);
    TrimPiecesCount(Pieces(text, 0));
    if n < |SentencesOf(text)| {
      TrimPiecesAt(Pieces(text, 0), n);
    }
  }
}

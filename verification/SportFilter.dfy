/** internal/pipeline/sportfilter.go: the whole-word scan that keeps other sports out. */
module SportFilter {
  import opened Seqs
  import opened Utf8

  predicate IsLetter(b: byte) {
    'a' as int <= b <= 'z' as int || 'A' as int <= b <= 'Z' as int
  }

  predicate OccursAt(s: bytes, w: bytes, p: nat) {
    p + |w| <= |s| && forall i :: 0 <= i < |w| ==> s[p + i] == w[i]
  }

  /** First occurrence at or after `from`; |s| + 1 when there is none. */
  function FirstFrom(s: bytes, w: bytes, from: nat): (p: nat)
    ensures p <= |s| ==> from <= p && p + |w| <= |s|
    ensures p > |s| ==> p == |s| + 1
    decreases |s| + 1 - from
  {
    if from + |w| > |s| then |s| + 1
    else if OccursAt(s, w, from) then from
    else FirstFrom(s, w, from + 1)
  }

  lemma {:induction false} FirstFromIsFirst(s: bytes, w: bytes, from: nat, q: nat)
    ensures FirstFrom(s, w, from) <= |s| ==> OccursAt(s, w, FirstFrom(s, w, from))
    ensures from <= q && OccursAt(s, w, q) ==> FirstFrom(s, w, from) <= q
    decreases |s| + 1 - from
  {
    if from + |w| <= |s| && !OccursAt(s, w, from) {
      FirstFromIsFirst(s, w, from + 1, q);
    }
  }

  /** strings.Index. */
  function Index(s: bytes, w: bytes): int {
    if FirstFrom(s, w, 0) > |s| then -1 else FirstFrom(s, w, 0)
  }

  /** No letter follows position `e`. */
  predicate EndsAt(s: bytes, e: nat)
    requires e <= |s|
  {
    e == |s| || !IsLetter(s[e])
  }

  predicate StartsAt(s: bytes, p: nat)
    requires p <= |s|
  {
    p == 0 || !IsLetter(s[p - 1])
  }

  /** The stretch s[p..e] passes the tests of a loop that has cut the text at `off`. */
  predicate Passes(s: bytes, off: nat, p: nat, e: nat)
    requires p <= e <= |s|
  {
    (p == off || StartsAt(s, p)) && EndsAt(s, e)
  }

  /** The scan over s[off..], which no longer sees the byte before `off`. */
  predicate Scan(s: bytes, w: bytes, off: nat)
    requires w != [] && off <= |s|
    decreases |s| - off
  {
    var p := FirstFrom(s, w, off);
    p <= |s| && (Passes(s, off, p, p + |w|) || Scan(s, w, p + |w|))
  }

  lemma OccursInSuffix(s: bytes, w: bytes, off: nat, q: nat)
    requires off <= |s|
    ensures OccursAt(s[off..], w, q) <==> OccursAt(s, w, off + q)
  {
  }

  lemma {:induction false} FirstInSuffix(s: bytes, w: bytes, off: nat, from: nat)
    requires off <= |s|
    ensures FirstFrom(s, w, off + from) == off + FirstFrom(s[off..], w, from)
    decreases |s| + 1 - from
  {
    OccursInSuffix(s, w, off, from);
    if off + from + |w| <= |s| && !OccursAt(s, w, off + from) {
      FirstInSuffix(s, w, off, from + 1);
    }
  }

  lemma PassesInSuffix(text: bytes, off: nat, p: nat, e: nat)
    requires off <= |text| && p <= e <= |text| - off
    ensures Passes(text[off..], 0, p, e) == Passes(text, off, off + p, off + e)
  {
  }

  /** One round of the loop on the suffix s[off..], seen on the whole text. */
  lemma ScanStep(text: bytes, w: bytes, off: nat, s: bytes)
    requires w != [] && off <= |text| && s == text[off..]
    ensures Index(s, w) < 0 ==> !Scan(text, w, off)
    ensures var p := FirstFrom(s, w, 0);
      p <= |s| ==>
        Scan(text, w, off) == (Passes(s, 0, p, p + |w|) || Scan(text, w, off + (p + |w|)))
  {
    FirstInSuffix(text, w, off, 0);
    var p := FirstFrom(s, w, 0);
    if p <= |s| {
      PassesInSuffix(text, off, p, p + |w|);
    }
  }

  /** One round: where the word is first, and whether it passes there. */
  method Round(s: bytes, word: bytes) returns (idx: int, passes: bool)
    requires word != []
    ensures idx == Index(s, word)
    ensures idx >= 0 ==> idx + |word| <= |s| && passes == Passes(s, 0, idx, idx + |word|)
  {
    idx := Index(s, word);
    if idx < 0 {
      return idx, false;
    }
    var startOk := idx == 0 || !IsLetter(s[idx - 1]);
    var endIdx := idx + |word|;
    var endOk := endIdx == |s| || !IsLetter(s[endIdx]);
    return idx, startOk && endOk;
  }

  /** `word` is lower case already; the empty word is excluded because the loop may not end on it. */
  method ContainsWord(text: bytes, word: bytes) returns (found: bool)
    requires word != []
    ensures found == Scan(text, word, 0)
  {
    var s := text;
    ghost var off: nat := 0;
    while true
      invariant off <= |text| && s == text[off..]
      invariant Scan(text, word, 0) == Scan(text, word, off)
      decreases |s|
    {
      var idx, passes := Round(s, word);
      RoundDecides(text, word, off, s, idx, passes);
      if idx < 0 {
        return false;
      }
      if passes {
        return true;
      }
      DropDrop(text, off, idx + |word|);
      s := s[idx + |word|..];
      off := off + (idx + |word|);
    }
  }

  /** What a round says about the whole text. */
  lemma RoundDecides(text: bytes, w: bytes, off: nat, s: bytes, idx: int, passes: bool)
    requires w != [] && off <= |text| && s == text[off..] && idx == Index(s, w)
    requires idx >= 0 ==> idx + |w| <= |s| && passes == Passes(s, 0, idx, idx + |w|)
    ensures idx < 0 ==> !Scan(text, w, off)
    ensures idx >= 0 ==> Scan(text, w, off) == (passes || Scan(text, w, off + (idx + |w|)))
  {
    ScanStep(text, w, off, s);
    if idx >= 0 {
      var p: nat := idx;
      assert p == FirstFrom(s, w, 0);
    }
  }

  // ---------- What the scan accepts ----------

  /** A whole word: a boundary on both sides. */
  ghost predicate WholeWordAt(s: bytes, w: bytes, p: nat) {
    OccursAt(s, w, p) && StartsAt(s, p) && EndsAt(s, p + |w|)
  }

  /** A word directly behind another copy of itself, at the end of a run of letters. */
  ghost predicate RepeatAt(s: bytes, w: bytes, p: nat) {
    p >= |w| && OccursAt(s, w, p - |w|) && OccursAt(s, w, p) && EndsAt(s, p + |w|)
  }

  ghost predicate HasWholeWord(s: bytes, w: bytes) {
    exists p: nat :: WholeWordAt(s, w, p)
  }

  ghost predicate HasRepeat(s: bytes, w: bytes) {
    exists p: nat :: RepeatAt(s, w, p)
  }

  /** Only those two are ever accepted, whatever the word. */
  lemma {:induction false} ScanSound(s: bytes, w: bytes, off: nat)
    requires w != [] && off <= |s| && Scan(s, w, off)
    requires off == 0 || (off >= |w| && OccursAt(s, w, off - |w|))
    ensures HasWholeWord(s, w) || HasRepeat(s, w)
    decreases |s| - off
  {
    var p := FirstFrom(s, w, off);
    FirstFromIsFirst(s, w, off, p);
    if Passes(s, off, p, p + |w|) {
      assert WholeWordAt(s, w, p) || RepeatAt(s, w, p);
    } else {
      ScanSound(s, w, p + |w|);
    }
  }

  predicate AllLetters(w: bytes) {
    forall i :: 0 <= i < |w| ==> IsLetter(w[i])
  }

  lemma LetterInside(s: bytes, w: bytes, q: nat, i: nat)
    requires AllLetters(w) && OccursAt(s, w, q) && q <= i < q + |w|
    ensures IsLetter(s[i])
  {
    assert s[q + (i - q)] == w[i - q];
  }

  /** A whole-word occurrence of a word made of letters is never missed. */
  lemma {:induction false} NeverMissed(s: bytes, w: bytes, off: nat, p: nat)
    requires w != [] && AllLetters(w) && off <= p && WholeWordAt(s, w, p)
    ensures Scan(s, w, off)
    decreases p - off
  {
    var q := FirstFrom(s, w, off);
    FirstFromIsFirst(s, w, off, p);
    if q < p {
      if p < q + |w| {
        LetterInside(s, w, q, p - 1);
      }
      NeverMissed(s, w, q + |w|, p);
    }
  }

  /** No proper suffix of `w` is a prefix of it, so occurrences cannot overlap. */
  ghost predicate Borderless(w: bytes) {
    forall k :: 0 < k < |w| ==> w[k..] != w[..|w| - k]
  }

  lemma OverlapIsBorder(s: bytes, w: bytes, q: nat, p: nat)
    requires OccursAt(s, w, q) && OccursAt(s, w, p) && q < p
    ensures p < q + |w| ==> w[p - q..] == w[..|w| - (p - q)]
  {
  }

  lemma NoOverlap(s: bytes, w: bytes, q: nat, p: nat)
    requires Borderless(w) && OccursAt(s, w, q) && OccursAt(s, w, p) && q < p
    ensures q + |w| <= p
  {
    OverlapIsBorder(s, w, q, p);
  }

  /** For such words a repeat is always accepted too. */
  lemma {:induction false} RepeatAccepted(s: bytes, w: bytes, off: nat, p: nat)
    requires w != [] && Borderless(w) && RepeatAt(s, w, p) && off + |w| <= p
    ensures Scan(s, w, off)
    decreases p - off
  {
    var q := FirstFrom(s, w, off);
    FirstFromIsFirst(s, w, off, p - |w|);
    if q < p - |w| {
      NoOverlap(s, w, q, p - |w|);
      RepeatAccepted(s, w, q + |w|, p);
    } else {
      FirstFromIsFirst(s, w, p, p);
    }
  }

  /** Exactly what containsWord answers for a non-empty borderless word of letters. */
  lemma ContainsWordIff(s: bytes, w: bytes)
    requires w != [] && AllLetters(w) && Borderless(w)
    ensures Scan(s, w, 0) <==> HasWholeWord(s, w) || HasRepeat(s, w)
  {
    if Scan(s, w, 0) {
      ScanSound(s, w, 0);
    }
    if HasWholeWord(s, w) {
      var p: nat :| WholeWordAt(s, w, p);
      NeverMissed(s, w, 0, p);
    }
    if HasRepeat(s, w) {
      var p: nat :| RepeatAt(s, w, p);
      RepeatAccepted(s, w, 0, p);
    }
  }

  /** So the scan is a whole-word search exactly on the texts where no repeated keyword ends a run
      of letters, or where the whole word occurs anyway. */
  lemma WholeWordSearchIff(s: bytes, w: bytes)
    requires w != [] && AllLetters(w) && Borderless(w)
    ensures (Scan(s, w, 0) <==> HasWholeWord(s, w)) <==> (HasRepeat(s, w) ==> HasWholeWord(s, w))
  {
    ContainsWordIff(s, w);
  }

  /** A text on which it is not: "mlbmlb" is one word, yet "mlb" is reported. */
  lemma RepeatedKeywordReported()
    ensures var mlb := Ascii("mlb");
      Scan(mlb + mlb, mlb, 0) && !HasWholeWord(mlb + mlb, mlb)
  {
  }

  // ---------- The keyword filter ----------

  /** The bytes of an ASCII literal. */
  function Ascii(s: string): (b: bytes)
    requires forall i :: 0 <= i < |s| ==> s[i] < 128 as char
    ensures |b| == |s| && forall i :: 0 <= i < |s| ==> b[i] == s[i] as int
  {
    seq(|s|, i requires 0 <= i < |s| => s[i] as int)
  }

  const KEYWORDS: seq<string> := ["baseball", "basketball", "hockey", "soccer", "mlb", "nba"]

  predicate Keyword(k: string) {
    k in KEYWORDS
  }

  /** The scan for one keyword answers yes. */
  predicate Mentions(haystack: bytes, k: string) {
    && k != [] && (forall i :: 0 <= i < |k| ==> k[i] < 128 as char)
    && Scan(haystack, Ascii(k), 0)
  }

  lemma BorderlessByLast(w: bytes)
    requires forall k :: 0 < k < |w| ==> w[k] != w[0] || w[|w| - 1] != w[|w| - 1 - k]
    ensures Borderless(w)
  {
    forall k | 0 < k < |w|
      ensures w[k..] != w[..|w| - k]
    {
      var tail, head := w[k..], w[..|w| - k];
      assert tail[0] == w[k] && head[0] == w[0];
      assert tail[|w| - 1 - k] == w[|w| - 1] && head[|w| - 1 - k] == w[|w| - 1 - k];
    }
  }

  /** Every keyword is a non-empty borderless word of letters. */
  lemma KeywordShape(k: string)
    requires Keyword(k)
    ensures k != [] && forall i :: 0 <= i < |k| ==> k[i] < 128 as char
    ensures AllLetters(Ascii(k)) && Borderless(Ascii(k))
  {
    BorderlessByLast(Ascii(k));
  }

  /** An item is dropped exactly when some keyword stands in it as a whole word, or ends a run of
      letters right behind another copy of itself. */
  lemma FilterIff(haystack: bytes, k: string)
    requires Keyword(k)
    ensures k != [] && (forall i :: 0 <= i < |k| ==> k[i] < 128 as char)
    ensures Mentions(haystack, k) <==> HasWholeWord(haystack, Ascii(k)) || HasRepeat(haystack, Ascii(k))
  {
    KeywordShape(k);
    ContainsWordIff(haystack, Ascii(k));
  }

  // ---------- The answer in plain terms ----------

  ghost predicate LetterByte(b: int) {
    65 <= b <= 90 || 97 <= b <= 122
  }

  ghost predicate StandsAt(text: bytes, k: string, p: int) {
    0 <= p && p + |k| <= |text| && forall i :: 0 <= i < |k| ==> text[p + i] == k[i] as int
  }

  /** The keyword stands at `p`, no letter follows it, and in front of it there is no letter either, or another
      copy of it. */
  ghost predicate Reported(text: bytes, k: string, p: nat) {
    && StandsAt(text, k, p)
    && (p + |k| == |text| || !LetterByte(text[p + |k|]))
    && (p == 0 || !LetterByte(text[p - 1]) || StandsAt(text, k, p - |k|))
  }

  lemma ReportedIff(text: bytes, k: string)
    requires Keyword(k)
    ensures Mentions(text, k) <==> exists p: nat :: Reported(text, k, p)
  {
    FilterIff(text, k);
    KeywordShape(k);
    var w := Ascii(k);
    forall p: nat
      ensures Reported(text, k, p) <==> WholeWordAt(text, w, p) || RepeatAt(text, w, p)
    {
      assert OccursAt(text, w, p) <==> StandsAt(text, k, p);
      if p >= |w| {
        assert OccursAt(text, w, p - |w|) <==> StandsAt(text, k, p - |k|);
      }
    }
  }

  lemma AllReported(text: bytes)
    ensures (exists k :: Keyword(k) && Mentions(text, k)) <==>
            exists k, p: nat ::
              k in ["baseball", "basketball", "hockey", "soccer", "mlb", "nba"] && Reported(text, k, p)
  {
    if k :| Keyword(k) && Mentions(text, k) {
      ReportedIff(text, k);
      var p: nat :| Reported(text, k, p);
      assert k in KEYWORDS;
    }
    if k, p: nat :| k in KEYWORDS && Reported(text, k, p) {
      assert Keyword(k);
      ReportedIff(text, k);
    }
  }

  /** `lower` stands for strings.ToLower, which leaves the keywords as they are. */
  method IsNonFootballSport(lower: bytes -> bytes, title: bytes, content: bytes) returns (r: bool)
    ensures r <==> exists k :: Keyword(k) && Mentions(lower(title + [32] + content), k)
    ensures r <==> exists k, p: nat ::
              k in ["baseball", "basketball", "hockey", "soccer", "mlb", "nba"]
              && Reported(lower(title + [32] + content), k, p)
  {
    AllReported(lower(title + [32] + content));
    var haystack := lower(title + [32] + content);
    for i := 0 to |KEYWORDS|
      invariant forall j :: 0 <= j < i ==> !Mentions(haystack, KEYWORDS[j])
    {
      KeywordShape(KEYWORDS[i]);
      var found := ContainsWord(haystack, Ascii(KEYWORDS[i]));
      if found {
        assert Keyword(KEYWORDS[i]) && Mentions(haystack, KEYWORDS[i]);
        return true;
      }
    }
    return false;
  }
}

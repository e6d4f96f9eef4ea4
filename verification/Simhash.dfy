/** internal/pipeline/simhash.go: the 64-bit SimHash of a token list and the Hamming distance of two
    fingerprints. The token hash (the first eight bytes of an MD5) is an arbitrary function. */
module Simhash {
  import opened Seqs

  const HASH_BITS: nat := 64

  function Pow2(k: nat): (p: nat)
    ensures p >= 1
  {
    if k == 0 then 1 else 2 * Pow2(k - 1)
  }

  /** Go's int64 and its uint64 view. */
  type int64 = x: int | 0 - Pow2(63) <= x < Pow2(63)
  type uint64 = x: int | 0 <= x < Pow2(64)

  function Unsigned(a: int64): uint64 {
    if a < 0 then a + Pow2(64) else a
  }

  function Signed(u: uint64): int64 {
    if u < Pow2(63) then u else u - Pow2(64)
  }

  // ---------- Bitwise operators on unsigned words ----------

  predicate Bit(x: nat, i: nat) {
    if i == 0 then x % 2 == 1 else Bit(x / 2, i - 1)
  }

  function And(x: nat, y: nat): (r: nat)
    ensures r <= x
  {
    if x == 0 then 0 else (x % 2) * (y % 2) + 2 * And(x / 2, y / 2)
  }

  function Or(x: nat, y: nat): nat {
    if x == 0 then y else (if x % 2 + y % 2 > 0 then 1 else 0) + 2 * Or(x / 2, y / 2)
  }

  function Xor(x: nat, y: nat): nat
    decreases x + y
  {
    if x == 0 && y == 0 then 0 else (x % 2 + y % 2) % 2 + 2 * Xor(x / 2, y / 2)
  }

  lemma {:induction false} XorBits(x: nat, y: nat, i: nat)
    ensures Bit(Xor(x, y), i) <==> Bit(x, i) != Bit(y, i)
    decreases i
  {
    assert Xor(x, y) % 2 == (x % 2 + y % 2) % 2 && Xor(x, y) / 2 == Xor(x / 2, y / 2);
    if i > 0 {
      XorBits(x / 2, y / 2, i - 1);
    }
  }

  lemma {:induction false} XorBound(x: nat, y: nat, n: nat)
    requires x < Pow2(n) && y < Pow2(n)
    ensures Xor(x, y) < Pow2(n)
    decreases n
  {
    if n > 0 {
      XorBound(x / 2, y / 2, n - 1);
    }
  }

  /** Testing a word against 1 << i tests its bit i. */
  lemma {:induction false} AndPow2(x: nat, i: nat)
    ensures And(x, Pow2(i)) != 0 <==> Bit(x, i)
    decreases i
  {
    if i > 0 {
      AndPow2(x / 2, i - 1);
    } else {
      AndZero(x / 2);
      assert Pow2(0) / 2 == 0;
    }
  }

  lemma {:induction false} AndZero(x: nat)
    ensures And(x, 0) == 0
  {
    if x > 0 {
      AndZero(x / 2);
    }
  }

  /** Setting a bit above all others adds its weight. */
  lemma {:induction false} OrTop(x: nat, n: nat)
    requires x < Pow2(n)
    ensures Or(x, Pow2(n)) == x + Pow2(n) < Pow2(n + 1)
    decreases n
  {
    if n > 0 {
      OrTop(x / 2, n - 1);
      HalfTop(x, n);
    }
  }

  lemma HalfTop(x: nat, n: nat)
    requires n > 0
    ensures (x + Pow2(n)) / 2 == x / 2 + Pow2(n - 1) && (x + Pow2(n)) % 2 == x % 2
  {
  }

  /** And leaves the lower bits. */
  lemma {:induction false} BitTop(x: nat, n: nat, i: nat)
    requires x < Pow2(n)
    ensures Bit(x + Pow2(n), i) <==> i == n || Bit(x, i)
    decreases n, i
  {
    if n > 0 {
      HalfTop(x, n);
      if i > 0 {
        BitTop(x / 2, n - 1, i - 1);
      }
    } else if i > 0 {
      ZeroBits(0, i - 1);
    }
  }

  lemma {:induction false} ZeroBits(x: nat, i: nat)
    requires x < Pow2(i)
    ensures !Bit(x, i)
    decreases i
  {
    if i > 0 {
      ZeroBits(x / 2, i - 1);
    }
  }

  // ---------- Fingerprints ----------

  /** One token's vote on bit `i`. */
  function Vote(h: int64, i: nat): int {
    if Bit(Unsigned(h), i) then 1 else -1
  }

  /** The counter of bit `i` over all tokens. */
  function Votes(hash: string -> int64, tokens: seq<string>, i: nat): int {
    if tokens == [] then 0 else Vote(hash(tokens[0]), i) + Votes(hash, tokens[1..], i)
  }

  /** The majority bits below `n`. */
  function Majority(hash: string -> int64, tokens: seq<string>, n: nat): (u: nat)
    ensures u < Pow2(n)
  {
    if n == 0 then 0 else
    Majority(hash, tokens, n - 1) + if Votes(hash, tokens, n - 1) > 0 then Pow2(n - 1) else 0
  }

  function Fingerprint(hash: string -> int64, tokens: seq<string>): int64 {
    Signed(Majority(hash, tokens, HASH_BITS))
  }

  /** The final "mask to signed" step, in wrapping uint64 arithmetic. */
  function Masked(fingerprint: int64): int64 {
    var u := Unsigned(fingerprint);
    if u >= Pow2(63) then Signed((u - Pow2(63) - Pow2(63)) % Pow2(64)) else fingerprint
  }

  lemma SignedUnsigned(a: int64, u: uint64)
    ensures Signed(Unsigned(a)) == a && Unsigned(Signed(u)) == u
  {
  }

  /** The mask is the identity on every fingerprint. */
  lemma MaskIsIdentity(f: int64)
    ensures Masked(f) == f
  {
    var u := Unsigned(f);
    SignedUnsigned(f, u);
    if u >= Pow2(63) {
      assert (u - Pow2(63) - Pow2(63)) % Pow2(64) == u by {
        assert u - Pow2(63) - Pow2(63) == u - Pow2(64);
        WrapOnce(u, Pow2(64));
      }
    }
  }

  lemma WrapOnce(u: nat, m: nat)
    requires u < m
    ensures (u - m) % m == u
  {
  }

  lemma {:induction false} MajorityBits(hash: string -> int64, tokens: seq<string>, n: nat, i: nat)
    ensures Bit(Majority(hash, tokens, n), i) <==> i < n && Votes(hash, tokens, i) > 0
    decreases n
  {
    if n == 0 {
      ZeroIsZero(i);
    } else {
      MajorityBits(hash, tokens, n - 1, i);
      BitTop(Majority(hash, tokens, n - 1), n - 1, i);
    }
  }

  lemma {:induction false} ZeroIsZero(i: nat)
    ensures !Bit(0, i)
    decreases i
  {
    if i > 0 {
      ZeroIsZero(i - 1);
    }
  }

  /** Bit `i` of the fingerprint is the strict majority of the tokens' bits. */
  lemma FingerprintBits(hash: string -> int64, tokens: seq<string>, i: nat)
    requires i < HASH_BITS
    ensures Bit(Unsigned(Fingerprint(hash, tokens)), i) <==> Votes(hash, tokens, i) > 0
  {
    SignedUnsigned(0, Majority(hash, tokens, HASH_BITS));
    MajorityBits(hash, tokens, HASH_BITS, i);
  }

  // ---------- The meaning of a fingerprint ----------

  /** The positions of the tokens whose hash has bit `i`. */
  ghost function Having(hash: string -> int64, tokens: seq<string>, i: nat): (ns: set<nat>)
    ensures forall n :: n in ns <==> 0 <= n < |tokens| && Bit(Unsigned(hash(tokens[n])), i)
  {
    set n | 0 <= n < |tokens| && Bit(Unsigned(hash(tokens[n])), i)
  }

  /** The bits below `n`, each with its weight. */
  function Weighed(x: nat, n: nat): nat {
    if n == 0 then 0 else Weighed(x, n - 1) + if Bit(x, n - 1) then Pow2(n - 1) else 0
  }

  lemma {:induction false} WeighedLow(x: nat, n: nat)
    ensures Weighed(x, n + 1) == x % 2 + 2 * Weighed(x / 2, n)
  {
    if n > 0 {
      WeighedLow(x, n - 1);
    } else {
      assert Weighed(x, 0) == 0;
    }
  }

  /** A word is the sum of its bits. */
  lemma {:induction false} BitsMakeWord(x: nat, n: nat)
    requires x < Pow2(n)
    ensures x == Weighed(x, n)
    decreases n
  {
    if n > 0 {
      BitsMakeWord(x / 2, n - 1);
      WeighedLow(x, n - 1);
    }
  }

  lemma {:induction false} VotesAreHaving(hash: string -> int64, tokens: seq<string>, i: nat)
    ensures Votes(hash, tokens, i) == 2 * |Having(hash, tokens, i)| - |tokens|
  {
    if tokens != [] {
      var rest := tokens[..|tokens| - 1];
      var last := |tokens| - 1;
      VotesNext(hash, tokens, last, i);
      assert tokens[..last + 1] == tokens;
      VotesAreHaving(hash, rest, i);
      HavingNext(hash, tokens, i);
    }
  }

  lemma HavingNext(hash: string -> int64, tokens: seq<string>, i: nat)
    requires tokens != []
    ensures var last := |tokens| - 1;
      |Having(hash, tokens, i)| ==
      |Having(hash, tokens[..last], i)| + if Bit(Unsigned(hash(tokens[last])), i) then 1 else 0
  {
    var last := |tokens| - 1;
    var rest := Having(hash, tokens[..last], i);
    assert last !in rest;
    if Bit(Unsigned(hash(tokens[last])), i) {
      assert Having(hash, tokens, i) == rest + {last};
    } else {
      assert Having(hash, tokens, i) == rest;
    }
  }

  /** A bit is set exactly when more than half of the tokens have it. */
  lemma MajorityHasBit(hash: string -> int64, tokens: seq<string>, i: nat)
    requires i < HASH_BITS
    ensures Bit(Unsigned(Fingerprint(hash, tokens)), i) <==> 2 * |Having(hash, tokens, i)| > |tokens|
  {
    FingerprintBits(hash, tokens, i);
    VotesAreHaving(hash, tokens, i);
  }

  lemma {:induction false} BitsDetermine(x: nat, y: nat, n: nat)
    requires x < Pow2(n) && y < Pow2(n) && forall i: nat :: i < n ==> Bit(x, i) == Bit(y, i)
    ensures x == y
    decreases n
  {
    if n > 0 {
      forall i: nat | i < n - 1
        ensures Bit(x / 2, i) == Bit(y / 2, i)
      {
        assert Bit(x, i + 1) == Bit(y, i + 1);
      }
      BitsDetermine(x / 2, y / 2, n - 1);
      assert Bit(x, 0) == Bit(y, 0);
    }
  }

  /** The fingerprint of one token is its hash. */
  lemma SingleToken(hash: string -> int64, token: string)
    ensures Fingerprint(hash, [token]) == hash(token)
  {
    var f, h := Fingerprint(hash, [token]), hash(token);
    forall i: nat | i < 64
      ensures Bit(Unsigned(f), i) == Bit(Unsigned(h), i)
    {
      MajorityHasBit(hash, [token], i);
      assert Having(hash, [token], i) == if Bit(Unsigned(h), i) then {0} else {};
    }
    BitsDetermine(Unsigned(f), Unsigned(h), 64);
    SignedUnsigned(f, 0);
    SignedUnsigned(h, 0);
  }

  lemma {:induction false} VotesConcat(hash: string -> int64, s: seq<string>, t: seq<string>, i: nat)
    ensures Votes(hash, s + t, i) == Votes(hash, s, i) + Votes(hash, t, i)
  {
    if s == [] {
      NilUnits(t);
    } else {
      ConcatTail(s, t);
      VotesConcat(hash, s[1..], t, i);
    }
  }

  lemma VotesNext(hash: string -> int64, tokens: seq<string>, n: nat, i: nat)
    requires n < |tokens|
    ensures Votes(hash, tokens[..n + 1], i) == Votes(hash, tokens[..n], i) + Vote(hash(tokens[n]), i)
  {
    assert tokens[..n + 1] == tokens[..n] + [tokens[n]];
    VotesConcat(hash, tokens[..n], [tokens[n]], i);
    assert Votes(hash, [tokens[n]], i) == Vote(hash(tokens[n]), i) + Votes(hash, [], i);
  }

  /** The inner loop: one token votes on every counter. */
  method AddVotes(v: array<int>, h: int64)
    requires v.Length == HASH_BITS
    modifies v
    ensures forall i :: 0 <= i < HASH_BITS ==> v[i] == old(v[i]) + Vote(h, i)
    ensures forall i :: 0 <= i < HASH_BITS ==>
              v[i] == if Bit(Unsigned(h), i) then old(v[i]) + 1 else old(v[i]) - 1
  {
    for i := 0 to HASH_BITS
      invariant forall j :: 0 <= j < i ==> v[j] == old(v[j]) + Vote(h, j)
      invariant forall j :: i <= j < HASH_BITS ==> v[j] == old(v[j])
    {
      AndPow2(Unsigned(h), i);
      if And(Unsigned(h), Pow2(i)) != 0 {
        v[i] := v[i] + 1;
      } else {
        v[i] := v[i] - 1;
      }
    }
  }

  /** The counters, token by token. */
  method CountVotes(hash: string -> int64, tokens: seq<string>) returns (v: array<int>)
    ensures fresh(v) && v.Length == HASH_BITS
    ensures forall i :: 0 <= i < HASH_BITS ==> v[i] == Votes(hash, tokens, i)
  {
    v := new int[HASH_BITS](_ => 0);
    for n := 0 to |tokens|
      invariant forall i :: 0 <= i < HASH_BITS ==> v[i] == Votes(hash, tokens[..n], i)
    {
      AddVotes(v, hash(tokens[n]));
      forall i: nat | i < HASH_BITS
        ensures Votes(hash, tokens[..n + 1], i) == Votes(hash, tokens[..n], i) + Vote(hash(tokens[n]), i)
      {
        VotesNext(hash, tokens, n, i);
      }
    }
    assert tokens[..|tokens|] == tokens;
  }

  lemma Meaning(hash: string -> int64, tokens: seq<string>)
    ensures |tokens| == 1 ==> Fingerprint(hash, tokens) == hash(tokens[0])
    ensures forall i: nat :: i < 64 ==>
              (Bit(Unsigned(Fingerprint(hash, tokens)), i) <==> 2 * |Having(hash, tokens, i)| > |tokens|)
  {
    if |tokens| == 1 {
      SingleToken(hash, tokens[0]);
      assert tokens == [tokens[0]];
    }
    forall i: nat | i < 64
      ensures Bit(Unsigned(Fingerprint(hash, tokens)), i) <==> 2 * |Having(hash, tokens, i)| > |tokens|
    {
      MajorityHasBit(hash, tokens, i);
    }
  }

  method SimhashCompute(hash: string -> int64, tokens: seq<string>) returns (fingerprint: int64)
    ensures fingerprint == Fingerprint(hash, tokens)
    ensures |tokens| == 1 ==> fingerprint == hash(tokens[0])
    ensures forall i: nat :: i < 64 ==>
              (Bit(Unsigned(fingerprint), i) <==> 2 * |Having(hash, tokens, i)| > |tokens|)
  {
    Meaning(hash, tokens);
    NoVotes(hash, HASH_BITS);
    if |tokens| == 0 {
      return 0;
    }
    var v := CountVotes(hash, tokens);
    var bits: nat := 0;
    for i := 0 to HASH_BITS
      invariant bits == Majority(hash, tokens, i)
      invariant forall j :: 0 <= j < HASH_BITS ==> v[j] == Votes(hash, tokens, j)
    {
      OrTop(bits, i);
      if v[i] > 0 {
        bits := Or(bits, Pow2(i));
      }
    }
    fingerprint := MaskToSigned(Signed(bits));
  }

  /** The mask to the signed range, in wrapping uint64 arithmetic. */
  method MaskToSigned(f: int64) returns (fingerprint: int64)
    ensures fingerprint == f
  {
    MaskIsIdentity(f);
    fingerprint := f;
    var u: int := Unsigned(f);
    if u >= Pow2(63) {
      u := (u - Pow2(63) - Pow2(63)) % Pow2(64);
      fingerprint := Signed(u);
    }
  }

  lemma {:induction false} NoVotes(hash: string -> int64, n: nat)
    ensures Majority(hash, [], n) == 0
    decreases n
  {
    if n > 0 {
      NoVotes(hash, n - 1);
    }
  }

  // ---------- Hamming distance ----------

  function Ones(x: nat): nat {
    if x == 0 then 0 else x % 2 + Ones(x / 2)
  }

  /** How many of the bit positions below `n` differ. */
  function CountDiff(x: nat, y: nat, n: nat): (c: nat)
    ensures c <= n
  {
    if n == 0 then 0 else CountDiff(x, y, n - 1) + if Bit(x, n - 1) != Bit(y, n - 1) then 1 else 0
  }

  function Distance(a: int64, b: int64): nat {
    CountDiff(Unsigned(a), Unsigned(b), HASH_BITS)
  }

  lemma {:induction false} AndSelf(x: nat)
    ensures And(x, x) == x
  {
    if x > 0 {
      AndSelf(x / 2);
    }
  }

  lemma OnesDouble(x: nat)
    ensures Ones(2 * x) == Ones(x) && Ones(2 * x + 1) == Ones(x) + 1
  {
  }

  lemma AndDouble(x: nat, y: nat)
    ensures And(2 * x + 1, 2 * y) == 2 * And(x, y)
    ensures And(2 * x, 2 * y + 1) == 2 * And(x, y)
  {
  }

  /** x & (x - 1) clears exactly one set bit. */
  lemma {:induction false} ClearLowest(x: nat)
    requires x > 0
    ensures And(x, x - 1) < x && Ones(And(x, x - 1)) == Ones(x) - 1
  {
    var h := x / 2;
    OnesDouble(h);
    if x % 2 == 1 {
      AndSelf(h);
      AndDouble(h, h);
      assert x == 2 * h + 1;
    } else {
      ClearLowest(h);
      AndDouble(h, h - 1);
      OnesDouble(And(h, h - 1));
      assert x == 2 * h;
    }
  }

  lemma {:induction false} CountDiffLow(x: nat, y: nat, n: nat)
    ensures CountDiff(x, y, n + 1) == (if x % 2 != y % 2 then 1 else 0) + CountDiff(x / 2, y / 2, n)
    decreases n
  {
    if n > 0 {
      CountDiffLow(x, y, n - 1);
    } else {
      assert CountDiff(x, y, 0) == 0;
    }
  }

  lemma {:induction false} OnesOfXor(x: nat, y: nat, n: nat)
    requires x < Pow2(n) && y < Pow2(n)
    ensures Ones(Xor(x, y)) == CountDiff(x, y, n)
    decreases n
  {
    if n > 0 {
      OnesOfXor(x / 2, y / 2, n - 1);
      CountDiffLow(x, y, n - 1);
      assert Xor(x, y) % 2 == (x % 2 + y % 2) % 2 && Xor(x, y) / 2 == Xor(x / 2, y / 2);
      OnesHalves(Xor(x, y));
    }
  }

  lemma OnesHalves(x: nat)
    ensures Ones(x) == x % 2 + Ones(x / 2)
  {
  }

  ghost function DifferingBits(x: nat, y: nat, n: nat): set<nat> {
    set i: nat | i < n && Bit(x, i) != Bit(y, i)
  }

  lemma {:induction false} CountIsSize(x: nat, y: nat, n: nat)
    ensures CountDiff(x, y, n) == |DifferingBits(x, y, n)|
    decreases n
  {
    if n > 0 {
      CountIsSize(x, y, n - 1);
      var last: set<nat> := if Bit(x, n - 1) != Bit(y, n - 1) then {n - 1} else {};
      assert DifferingBits(x, y, n) == DifferingBits(x, y, n - 1) + last;
    }
  }

  /** The loop runs once per differing bit, the sign bit included. */
  method HammingDistance(a: int64, b: int64) returns (count: nat)
    ensures count == Distance(a, b)
    ensures count == |DifferingBits(Unsigned(a), Unsigned(b), 64)|
  {
    CountIsSize(Unsigned(a), Unsigned(b), 64);
    var x := Xor(Unsigned(a), Unsigned(b));
    OnesOfXor(Unsigned(a), Unsigned(b), HASH_BITS);
    count := 0;
    while x > 0
      invariant count + Ones(x) == Distance(a, b)
    {
      ClearLowest(x);
      count := count + 1;
      x := And(x, x - 1);
    }
  }

  lemma {:induction false} SameBits(x: nat, y: nat, n: nat)
    requires x < Pow2(n) && y < Pow2(n)
    ensures CountDiff(x, y, n) == 0 <==> x == y
    decreases n
  {
    if n > 0 {
      SameBits(x / 2, y / 2, n - 1);
      CountDiffLow(x, y, n - 1);
    }
  }

  lemma {:induction false} CountDiffMetric(x: nat, y: nat, z: nat, n: nat)
    ensures CountDiff(x, y, n) == CountDiff(y, x, n)
    ensures CountDiff(x, z, n) <= CountDiff(x, y, n) + CountDiff(y, z, n)
    decreases n
  {
    if n > 0 {
      CountDiffMetric(x, y, z, n - 1);
    }
  }

  /** The distance is a metric on fingerprints, at most 64. */
  lemma DistanceIsMetric(a: int64, b: int64, c: int64)
    ensures Distance(a, b) == 0 <==> a == b
    ensures Distance(a, b) == Distance(b, a) <= HASH_BITS
    ensures Distance(a, c) <= Distance(a, b) + Distance(b, c)
  {
    SameBits(Unsigned(a), Unsigned(b), HASH_BITS);
    SignedUnsigned(a, 0);
    SignedUnsigned(b, 0);
    CountDiffMetric(Unsigned(a), Unsigned(b), Unsigned(c), HASH_BITS);
  }

  // ---------- Locality ----------

  /** How many token occurrences are in one list but not the other. */
  function Edits(s: seq<string>, t: seq<string>): nat {
    |multiset(s) - multiset(t)| + |multiset(t) - multiset(s)|
  }

  lemma {:induction false} VotesBounded(hash: string -> int64, tokens: seq<string>, i: nat)
    ensures 0 - |tokens| <= Votes(hash, tokens, i) <= |tokens|
  {
    if tokens != [] {
      VotesBounded(hash, tokens[1..], i);
    }
  }

  lemma RemoveToken(hash: string -> int64, t: seq<string>, j: nat, i: nat)
    requires j < |t|
    ensures Votes(hash, t, i) == Vote(hash(t[j]), i) + Votes(hash, t[..j] + t[j + 1..], i)
    ensures multiset(t[..j] + t[j + 1..]) == multiset(t) - multiset{t[j]}
  {
    assert t == t[..j] + ([t[j]] + t[j + 1..]);
    VotesConcat(hash, t[..j], [t[j]] + t[j + 1..], i);
    VotesConcat(hash, t[..j], t[j + 1..], i);
    Cons(t[j], t[j + 1..]);
  }

  lemma FirstToken(s: seq<string>)
    requires s != []
    ensures multiset(s[1..]) == multiset(s) - multiset{s[0]} && s[0] in multiset(s)
  {
    assert s == [s[0]] + s[1..];
  }

  lemma SharedToken(S: multiset<string>, T: multiset<string>, x: string)
    requires x in S && x in T
    ensures (S - multiset{x}) - (T - multiset{x}) == S - T
  {
  }

  lemma LoneToken(S: multiset<string>, T: multiset<string>, x: string)
    requires x in S && x !in T
    ensures |(S - multiset{x}) - T| + 1 == |S - T|
    ensures T - (S - multiset{x}) == T - S
  {
    assert (S - multiset{x}) - T == (S - T) - multiset{x};
  }

  /** A counter moves by at most the number of edits. */
  lemma {:induction false} VotesMove(hash: string -> int64, s: seq<string>, t: seq<string>, i: nat)
    ensures 0 - Edits(s, t) <= Votes(hash, s, i) - Votes(hash, t, i) <= Edits(s, t)
    decreases |s|
  {
    if s == [] {
      VotesBounded(hash, t, i);
      assert multiset(t) - multiset(s) == multiset(t);
    } else {
      var x, rest := s[0], s[1..];
      FirstToken(s);
      if x in t {
        var j :| 0 <= j < |t| && t[j] == x;
        RemoveToken(hash, t, j, i);
        SharedToken(multiset(s), multiset(t), x);
        SharedToken(multiset(t), multiset(s), x);
        VotesMove(hash, rest, t[..j] + t[j + 1..], i);
      } else {
        LoneToken(multiset(s), multiset(t), x);
        VotesMove(hash, rest, t, i);
      }
    }
  }

  /** How many of the counters below `n` lie within `margin` of changing sides. */
  function LowMargin(hash: string -> int64, tokens: seq<string>, margin: nat, n: nat): (c: nat)
    ensures c <= n
  {
    if n == 0 then 0 else
    LowMargin(hash, tokens, margin, n - 1) + if 0 - margin < Votes(hash, tokens, n - 1) <= margin then 1 else 0
  }

  /** A single bit flips only if its counter was within `Edits` of changing sides. */
  lemma FlipNeedsLowMargin(hash: string -> int64, s: seq<string>, t: seq<string>, i: nat)
    requires i < HASH_BITS
    ensures Bit(Unsigned(Fingerprint(hash, s)), i) != Bit(Unsigned(Fingerprint(hash, t)), i)
        ==> 0 - Edits(s, t) < Votes(hash, s, i) <= Edits(s, t)
  {
    FingerprintBits(hash, s, i);
    FingerprintBits(hash, t, i);
    VotesMove(hash, s, t, i);
  }

  lemma {:induction false} FlipsAreLowMargin(hash: string -> int64, s: seq<string>, t: seq<string>, n: nat)
    requires n <= HASH_BITS
    ensures CountDiff(Unsigned(Fingerprint(hash, s)), Unsigned(Fingerprint(hash, t)), n)
         <= LowMargin(hash, s, Edits(s, t), n)
    decreases n
  {
    if n > 0 {
      FlipsAreLowMargin(hash, s, t, n - 1);
      FlipNeedsLowMargin(hash, s, t, n - 1);
    }
  }

  /** Locality: a bit flips only where its counter was within `Edits` of zero, so the fingerprints
      of similar token lists differ in at most that many bits. */
  lemma SimhashIsLocal(hash: string -> int64, s: seq<string>, t: seq<string>)
    ensures Distance(Fingerprint(hash, s), Fingerprint(hash, t)) <= LowMargin(hash, s, Edits(s, t), HASH_BITS)
  {
    FlipsAreLowMargin(hash, s, t, HASH_BITS);
  }

  lemma TokensSplit(s: seq<string>)
    requires s != []
    ensures multiset(s) == multiset(s[1..]) + multiset{s[0]}
  {
    assert s == [s[0]] + s[1..];
  }

  /** Replacing k tokens in place is at most 2k edits. */
  lemma {:induction false} ReplacingIsTwoEdits(s: seq<string>, t: seq<string>)
    requires |s| == |t|
    ensures Edits(s, t) <= 2 * Replaced(s, t)
  {
    if s != [] {
      ReplacingIsTwoEdits(s[1..], t[1..]);
      TokensSplit(s);
      TokensSplit(t);
      OneMore(multiset(s[1..]), multiset(t[1..]), s[0], t[0]);
      OneMore(multiset(t[1..]), multiset(s[1..]), t[0], s[0]);
    }
  }

  lemma OneMore(S: multiset<string>, T: multiset<string>, x: string, y: string)
    ensures |(S + multiset{x}) - (T + multiset{y})| <= |S - T| + if x == y then 0 else 1
  {
    var D := (S + multiset{x}) - (T + multiset{y});
    if x == y {
      assert D == S - T;
    } else {
      assert D <= (S - T) + multiset{x};
      assert |(S - T) + multiset{x}| == |S - T| + 1;
      SubMultiset(D, (S - T) + multiset{x});
    }
  }

  lemma SubMultiset(A: multiset<string>, B: multiset<string>)
    requires A <= B
    ensures |A| <= |B|
  {
    assert B == A + (B - A);
  }

  lemma {:induction false} LowMarginMonotone(hash: string -> int64, tokens: seq<string>, a: nat, b: nat, n: nat)
    requires a <= b
    ensures LowMargin(hash, tokens, a, n) <= LowMargin(hash, tokens, b, n)
    decreases n
  {
    if n > 0 {
      LowMarginMonotone(hash, tokens, a, b, n - 1);
    }
  }

  /** Replacing k tokens in place flips at most the bits whose counter is within 2k of zero. */
  lemma ReplacementIsLocal(hash: string -> int64, s: seq<string>, t: seq<string>)
    requires |s| == |t|
    ensures Distance(Fingerprint(hash, s), Fingerprint(hash, t)) <= LowMargin(hash, s, 2 * Replaced(s, t), HASH_BITS)
  {
    SimhashIsLocal(hash, s, t);
    ReplacingIsTwoEdits(s, t);
    LowMarginMonotone(hash, s, Edits(s, t), 2 * Replaced(s, t), HASH_BITS);
  }

  /** The number of positions at which two lists of equal length differ. */
  function Replaced(s: seq<string>, t: seq<string>): nat
    requires |s| == |t|
  {
    if s == [] then 0 else (if s[0] == t[0] then 0 else 1) + Replaced(s[1..], t[1..])
  }

  /** Counters of the same sign give the same majority. */
  lemma {:induction false} SameSignsSameMajority(hash: string -> int64, s: seq<string>, t: seq<string>, n: nat)
    requires forall i: nat :: i < n ==> (Votes(hash, s, i) > 0 <==> Votes(hash, t, i) > 0)
    ensures Majority(hash, s, n) == Majority(hash, t, n)
    decreases n
  {
    if n > 0 {
      SameSignsSameMajority(hash, s, t, n - 1);
    }
  }

  /** Token order does not matter. */
  lemma OrderIrrelevant(hash: string -> int64, s: seq<string>, t: seq<string>)
    requires multiset(s) == multiset(t)
    ensures Fingerprint(hash, s) == Fingerprint(hash, t)
  {
    forall i: nat
      ensures Votes(hash, s, i) == Votes(hash, t, i)
    {
      VotesMove(hash, s, t, i);
    }
    SameSignsSameMajority(hash, s, t, HASH_BITS);
  }

  function Repeat(tokens: seq<string>, k: nat): seq<string> {
    if k == 0 then [] else tokens + Repeat(tokens, k - 1)
  }

  lemma {:induction false} VotesOfRepeat(hash: string -> int64, tokens: seq<string>, k: nat, i: nat)
    ensures Votes(hash, tokens, i) > 0 ==> Votes(hash, Repeat(tokens, k), i) >= k
    ensures Votes(hash, tokens, i) <= 0 ==> Votes(hash, Repeat(tokens, k), i) <= 0
    decreases k
  {
    if k > 0 {
      VotesConcat(hash, tokens, Repeat(tokens, k - 1), i);
      VotesOfRepeat(hash, tokens, k - 1, i);
    }
  }

  /** Nor does repeating the whole list. */
  lemma RepetitionIrrelevant(hash: string -> int64, tokens: seq<string>, k: nat)
    requires k >= 1
    ensures Fingerprint(hash, Repeat(tokens, k)) == Fingerprint(hash, tokens)
  {
    forall i: nat
      ensures Votes(hash, Repeat(tokens, k), i) > 0 <==> Votes(hash, tokens, i) > 0
    {
      VotesOfRepeat(hash, tokens, k, i);
    }
    SameSignsSameMajority(hash, Repeat(tokens, k), tokens, HASH_BITS);
  }
}

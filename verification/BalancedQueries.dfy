/** The round-robin choice of benchmark queries from category buckets. */
module BalancedQueries {
  import opened Numbers

  function Sum(s: seq<nat>): nat {
    if s == [] then 0 else Sum(s[..|s| - 1]) + s[|s| - 1]
  }

  function Total<Q>(buckets: seq<seq<Q>>): nat {
    if buckets == [] then 0 else Total(buckets[..|buckets| - 1]) + |buckets[|buckets| - 1]|
  }

  /** The buckets that hold queries, in their order. */
  function NonEmpty<Q>(buckets: seq<seq<Q>>): seq<seq<Q>> {
    if buckets == [] then []
    else NonEmpty(buckets[..|buckets| - 1]) +
         (if |buckets[|buckets| - 1]| > 0 then [buckets[|buckets| - 1]] else [])
  }

  /** What was selected from bucket `b`; `picks` names the bucket of each selection. */
  function Given<Q>(selected: seq<Q>, picks: seq<nat>, b: nat): seq<Q>
    requires |selected| == |picks|
  {
    if picks == [] then []
    else Given(selected[..|picks| - 1], picks[..|picks| - 1], b) +
         (if picks[|picks| - 1] == b then [selected[|picks| - 1]] else [])
  }

  /** Which of its bucket's selections the `i`-th one is, counted from 0. */
  function Turn(picks: seq<nat>, i: nat): nat
    requires i < |picks|
  {
    Times(picks[..i], picks[i])
  }

  function Times(picks: seq<nat>, b: nat): nat {
    if picks == [] then 0 else Times(picks[..|picks| - 1], b) + (if picks[|picks| - 1] == b then 1 else 0)
  }

  /** Round after round, and within a round in the order of the buckets. */
  ghost predicate RoundRobin(picks: seq<nat>) {
    forall i, j :: 0 <= i < j < |picks| ==> Comes(picks, i, Turn(picks, j), picks[j])
  }

  /** The `i`-th selection comes before bucket `b` of round `r`. */
  predicate Comes(picks: seq<nat>, i: nat, r: nat, b: nat)
    requires i < |picks|
  {
    Turn(picks, i) < r || (Turn(picks, i) == r && picks[i] < b)
  }

  /** No selection so far belongs behind bucket `j` of round `r`. */
  ghost predicate Before(picks: seq<nat>, r: nat, j: nat) {
    RoundRobin(picks) && forall i :: 0 <= i < |picks| ==> Comes(picks, i, r, j)
  }

  lemma TurnsStay(picks: seq<nat>, b: nat)
    ensures forall i :: 0 <= i < |picks| ==> Turn(picks + [b], i) == Turn(picks, i)
    ensures Turn(picks + [b], |picks|) == Times(picks, b)
  {
    forall i | 0 <= i < |picks| ensures Turn(picks + [b], i) == Turn(picks, i) {
      assert (picks + [b])[..i] == picks[..i];
    }
    assert (picks + [b])[..|picks|] == picks;
  }

  lemma BeforeSnoc(picks: seq<nat>, r: nat, b: nat)
    requires Before(picks, r, b) && Times(picks, b) == r
    ensures Before(picks + [b], r, b + 1)
  {
    TurnsStay(picks, b);
    var longer := picks + [b];
    forall i, j | 0 <= i < j < |longer| ensures Comes(longer, i, Turn(longer, j), longer[j]) {
      if j < |picks| {
        assert Comes(picks, i, Turn(picks, j), picks[j]);
      } else {
        assert Comes(picks, i, r, b);
      }
    }
    var next := b + 1;
    forall i | 0 <= i < |longer| ensures Comes(longer, i, r, next) {
      if i < |picks| { assert Comes(picks, i, r, b); }
    }
  }

  /** What comes before a bucket of a round comes before every later one. */
  lemma BeforeLater(picks: seq<nat>, r: nat, j: nat, later: nat, b: nat)
    requires Before(picks, r, j) && (r < later || (r == later && j <= b))
    ensures Before(picks, later, b)
  {
    forall i | 0 <= i < |picks| ensures Comes(picks, i, later, b) { assert Comes(picks, i, r, j); }
  }

  lemma {:induction false} GivenTimes<Q>(selected: seq<Q>, picks: seq<nat>, b: nat)
    requires |selected| == |picks|
    ensures |Given(selected, picks, b)| == Times(picks, b)
    decreases |picks|
  {
    if picks != [] { GivenTimes(selected[..|picks| - 1], picks[..|picks| - 1], b); }
  }

  /** Every selection came from its bucket, in the bucket's order and without gaps. */
  ghost predicate Prefixes<Q>(buckets: seq<seq<Q>>, selected: seq<Q>, picks: seq<nat>, offsets: seq<nat>) {
    && |selected| == |picks| && |offsets| == |buckets| && |selected| == Sum(offsets)
    && (forall i :: 0 <= i < |picks| ==> picks[i] < |buckets|)
    && (forall b :: 0 <= b < |buckets| ==>
          offsets[b] <= |buckets[b]| && Given(selected, picks, b) == buckets[b][..offsets[b]])
  }

  /** Round `r` is complete for the first `j` buckets: they have given one more query
      than the others, as far as they had it. */
  predicate InRound<Q>(buckets: seq<seq<Q>>, offsets: seq<nat>, r: nat, j: nat) {
    |offsets| == |buckets| &&
    forall b :: 0 <= b < |buckets| ==> offsets[b] == Min(if b < j then r + 1 else r, |buckets[b]|)
  }

  lemma {:induction false} SumOneMore(s: seq<nat>, b: nat)
    requires b < |s|
    ensures Sum(s[b := s[b] + 1]) == Sum(s) + 1
    decreases |s|
  {
    var n := |s| - 1;
    var t := s[b := s[b] + 1];
    if b == n {
      assert t[..n] == s[..n];
    } else {
      assert t[..n] == s[..n][b := s[..n][b] + 1];
      SumOneMore(s[..n], b);
    }
  }

  lemma GivenSnoc<Q>(selected: seq<Q>, picks: seq<nat>, q: Q, b: nat, c: nat)
    requires |selected| == |picks|
    ensures Given(selected + [q], picks + [b], c) == Given(selected, picks, c) + (if b == c then [q] else [])
  {
    assert (selected + [q])[..|picks|] == selected && (picks + [b])[..|picks|] == picks;
  }

  /** Selecting the next query of a bucket. */
  lemma PrefixesStep<Q>(buckets: seq<seq<Q>>, selected: seq<Q>, picks: seq<nat>, offsets: seq<nat>, b: nat)
    requires Prefixes(buckets, selected, picks, offsets) && b < |buckets| && offsets[b] < |buckets[b]|
    ensures Prefixes(buckets, selected + [buckets[b][offsets[b]]], picks + [b], offsets[b := offsets[b] + 1])
  {
    var q := buckets[b][offsets[b]];
    SumOneMore(offsets, b);
    forall c | 0 <= c < |buckets|
      ensures Given(selected + [q], picks + [b], c) == buckets[c][..offsets[b := offsets[b] + 1][c]]
    {
      GivenSnoc(selected, picks, q, b, c);
      if c == b { assert buckets[b][..offsets[b] + 1] == buckets[b][..offsets[b]] + [q]; }
    }
  }

  lemma {:induction false} SumOfZeros(n: nat)
    ensures Sum(seq(n, i => 0)) == 0
    decreases n
  {
    if n > 0 {
      assert seq(n, i => 0)[..n - 1] == seq(n - 1, i => 0);
      SumOfZeros(n - 1);
    }
  }

  /** The offsets never sum to more than there is, and to all of it only at the end. */
  lemma {:induction false} SumBounded<Q>(buckets: seq<seq<Q>>, offsets: seq<nat>)
    requires |offsets| == |buckets| && forall b :: 0 <= b < |buckets| ==> offsets[b] <= |buckets[b]|
    ensures Sum(offsets) <= Total(buckets)
    ensures Sum(offsets) == Total(buckets) <==> forall b :: 0 <= b < |buckets| ==> offsets[b] == |buckets[b]|
    decreases |buckets|
  {
    if buckets != [] { SumBounded(buckets[..|buckets| - 1], offsets[..|offsets| - 1]); }
  }

  lemma {:induction false} TotalOfNonEmpty<Q>(buckets: seq<seq<Q>>)
    ensures Total(NonEmpty(buckets)) == Total(buckets)
    ensures forall b :: 0 <= b < |NonEmpty(buckets)| ==> NonEmpty(buckets)[b] != []
    decreases |buckets|
  {
    if buckets != [] {
      TotalOfNonEmpty(buckets[..|buckets| - 1]);
      var full, before := NonEmpty(buckets), NonEmpty(buckets[..|buckets| - 1]);
      if |buckets[|buckets| - 1]| > 0 {
        assert full[..|full| - 1] == before;
      } else {
        assert full == before;
      }
    }
  }

  /** The buckets with queries keep their order, and only empty ones go. */
  lemma {:induction false} NonEmptyMeans<Q>(a: seq<seq<Q>>, b: seq<seq<Q>>, bucket: seq<Q>)
    ensures NonEmpty(a + b) == NonEmpty(a) + NonEmpty(b)
    ensures NonEmpty([bucket]) == if |bucket| > 0 then [bucket] else []
    decreases |b|
  {
    assert [bucket][..0] == [];
    if b == [] {
      assert a + b == a;
    } else {
      var n := |b| - 1;
      assert (a + b)[..|a + b| - 1] == a + b[..n];
      NonEmptyMeans(a, b[..n], bucket);
    }
  }

  /** A fair state of the selection: a bucket that still has queries has given at most
      one query less than any other. */
  ghost predicate Fair<Q>(buckets: seq<seq<Q>>, selected: seq<Q>, picks: seq<nat>)
    requires |selected| == |picks|
  {
    forall a, b :: 0 <= a < |buckets| && 0 <= b < |buckets| && |Given(selected, picks, a)| < |buckets[a]| ==>
      |Given(selected, picks, b)| <= |Given(selected, picks, a)| + 1
  }

  lemma RoundsAreFair<Q>(buckets: seq<seq<Q>>, selected: seq<Q>, picks: seq<nat>, offsets: seq<nat>, r: nat, j: nat)
    requires Prefixes(buckets, selected, picks, offsets) && InRound(buckets, offsets, r, j)
    ensures Fair(buckets, selected, picks)
  {
    forall b | 0 <= b < |buckets| ensures |Given(selected, picks, b)| == offsets[b] {
      assert Given(selected, picks, b) == buckets[b][..offsets[b]];
    }
  }

  predicate Exhausted<Q>(buckets: seq<seq<Q>>, offsets: seq<nat>, j: nat) {
    j <= |buckets| == |offsets| && forall b :: 0 <= b < j ==> offsets[b] == |buckets[b]|
  }

  /** The next bucket gives its next query, if it has one. */
  lemma NextBucket<Q>(buckets: seq<seq<Q>>, offsets: seq<nat>, r: nat, i: nat)
    requires InRound(buckets, offsets, r, i) && i < |buckets|
    ensures if offsets[i] < |buckets[i]| then InRound(buckets, offsets[i := offsets[i] + 1], r, i + 1)
            else InRound(buckets, offsets, r, i + 1) && offsets[i] == |buckets[i]|
  {
  }

  /** The state of a pass that has visited the first `i` buckets. */
  ghost predicate InPass<Q>(buckets: seq<seq<Q>>, selected: seq<Q>, picks: seq<nat>, offsets: seq<nat>, r: nat, i: nat,
                            progressed: bool) {
    && Prefixes(buckets, selected, picks, offsets) && InRound(buckets, offsets, r, i) && Before(picks, r, i)
    && (!progressed ==> Exhausted(buckets, offsets, i))
  }

  /** The next query of bucket `i` is selected, if there is one. */
  method Take<Q>(buckets: seq<seq<Q>>, selected0: seq<Q>, offsets0: seq<nat>, i: nat, ghost picks0: seq<nat>,
                 ghost r: nat, ghost progressed: bool)
    returns (selected: seq<Q>, offsets: seq<nat>, taken: bool, ghost picks: seq<nat>)
    requires i < |buckets| && InPass(buckets, selected0, picks0, offsets0, r, i, progressed)
    ensures InPass(buckets, selected, picks, offsets, r, i + 1, progressed || taken)
    ensures |selected| == |selected0| + (if taken then 1 else 0)
  {
    NextBucket(buckets, offsets0, r, i);
    var offset := offsets0[i];
    if offset >= |buckets[i]| {
      BeforeLater(picks0, r, i, r, i + 1);
      return selected0, offsets0, false, picks0;
    }
    PrefixesStep(buckets, selected0, picks0, offsets0, i);
    GivenTimes(selected0, picks0, i);
    BeforeSnoc(picks0, r, i);
    selected, picks := selected0 + [buckets[i][offset]], picks0 + [i];
    offsets, taken := offsets0[i := offset + 1], true;
  }

  /** One pass of the inner loop; it stops when the target is reached. */
  method Pass<Q>(buckets: seq<seq<Q>>, selected0: seq<Q>, offsets0: seq<nat>, target: nat, ghost picks0: seq<nat>,
                 ghost r: nat)
    returns (selected: seq<Q>, offsets: seq<nat>, progressed: bool, ghost picks: seq<nat>, ghost j: nat)
    requires Prefixes(buckets, selected0, picks0, offsets0) && InRound(buckets, offsets0, r, 0) && Before(picks0, r, 0)
    requires |selected0| < target
    ensures Prefixes(buckets, selected, picks, offsets) && InRound(buckets, offsets, r, j) && Before(picks, r, j)
    ensures |selected| <= target && (|selected| < target ==> j == |buckets|)
    ensures progressed <==> |selected| > |selected0|
    ensures !progressed ==> Exhausted(buckets, offsets, |buckets|)
    ensures |selected| >= |selected0|
  {
    selected, offsets, progressed, picks, j := selected0, offsets0, false, picks0, 0;
    for i := 0 to |buckets|
      invariant j == i && InPass(buckets, selected, picks, offsets, r, i, progressed)
      invariant |selected| < target && |selected| >= |selected0|
      invariant progressed <==> |selected| > |selected0|
    {
      var taken;
      selected, offsets, taken, picks := Take(buckets, selected, offsets, i, picks, r, progressed);
      j, progressed := i + 1, progressed || taken;
      if |selected| >= target { break; }
    }
  }

  /** `_balanced_queries`, with the bucket of every selected query named. */
  method Select<Q>(buckets: seq<seq<Q>>, target: int) returns (selected: seq<Q>, ghost picks: seq<nat>)
    ensures |selected| == |picks| && |selected| == Min(Max(target, 0), Total(buckets))
    ensures forall i :: 0 <= i < |picks| ==> picks[i] < |NonEmpty(buckets)|
    ensures forall b :: 0 <= b < |NonEmpty(buckets)| ==> Given(selected, picks, b) <= NonEmpty(buckets)[b]
    ensures Fair(NonEmpty(buckets), selected, picks) && RoundRobin(picks)
  {
    var full := NonEmpty(buckets);
    TotalOfNonEmpty(buckets);
    selected, picks := [], [];
    if target <= 0 || full == [] { return; }
    var offsets: seq<nat>;
    ghost var r, j;
    selected, offsets, picks, r, j := Rounds(full, target);
    SumBounded(full, offsets);
    RoundsAreFair(full, selected, picks, offsets, r, j);
    assert forall b :: 0 <= b < |full| ==> Given(selected, picks, b) == full[b][..offsets[b]];
  }

  /** The outer loop: passes until the target is reached or nothing is left. */
  method Rounds<Q>(full: seq<seq<Q>>, target: nat)
    returns (selected: seq<Q>, offsets: seq<nat>, ghost picks: seq<nat>, ghost r: nat, ghost j: nat)
    requires target > 0
    ensures Prefixes(full, selected, picks, offsets) && InRound(full, offsets, r, j) && RoundRobin(picks)
    ensures |selected| == target || (|selected| < target && Exhausted(full, offsets, |full|))
  {
    selected, picks, offsets := [], [], seq(|full|, i => 0);
    r, j := 0, 0;
    SumOfZeros(|full|);
    while |selected| < target
      invariant Prefixes(full, selected, picks, offsets) && InRound(full, offsets, r, j) && Before(picks, r, j)
      invariant |selected| < target ==> j == 0
      invariant |selected| <= target
      decreases target - |selected|
    {
      var progressed;
      selected, offsets, progressed, picks, j := Pass(full, selected, offsets, target, picks, r);
      if |selected| < target {
        RoundDone(full, offsets, r);
        BeforeLater(picks, r, j, r + 1, 0);
        r, j := r + 1, 0;
      }
      if !progressed { break; }
    }
  }

  lemma RoundDone<Q>(buckets: seq<seq<Q>>, offsets: seq<nat>, r: nat)
    requires InRound(buckets, offsets, r, |buckets|)
    ensures InRound(buckets, offsets, r + 1, 0)
  {
  }
}

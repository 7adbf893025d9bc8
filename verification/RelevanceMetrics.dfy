/** Ranking metrics of the relevance benchmark: precision, recall, reciprocal rank
    and NDCG, over exact arithmetic and any positive, strictly falling discount. */
module RelevanceMetrics {
  import opened Numbers
  import opened Options

  /** Positive and strictly falling, as `1 / log2(i + 2)` is. */
  ghost predicate IsDiscount(d: nat -> real) {
    (forall i: nat :: d(i) > 0.0) && (forall i: nat, j: nat :: i < j ==> d(i) > d(j))
  }

  /** `retrieved[:k]`; a negative `k` drops that many from the end. */
  function Top<T>(retrieved: seq<T>, k: int): seq<T> {
    if k >= |retrieved| then retrieved
    else if k >= 0 then retrieved[..k]
    else retrieved[..Max(|retrieved| + k, 0)]
  }

  /** Which of the results are relevant. */
  function Flags(top: seq<string>, relevant: set<string>): seq<bool> {
    seq(|top|, i requires 0 <= i < |top| => top[i] in relevant)
  }

  function Count(flags: seq<bool>): nat {
    if flags == [] then 0 else Count(flags[..|flags| - 1]) + (if flags[|flags| - 1] then 1 else 0)
  }

  function Hits(retrieved: seq<string>, relevant: set<string>, k: int): nat {
    Count(Flags(Top(retrieved, k), relevant))
  }

  /** `precision_at_k`. */
  function Precision(retrieved: seq<string>, relevant: set<string>, k: int): real {
    if k == 0 then 0.0 else Hits(retrieved, relevant, k) as real / k as real
  }

  /** `recall_at_k`; None is the ZeroDivisionError. */
  function Recall(retrieved: seq<string>, relevant: set<string>, k: int): Option<real> {
    if relevant == {} then Some(1.0)
    else if Min(|relevant|, k) == 0 then None
    else Some(Hits(retrieved, relevant, k) as real / Min(|relevant|, k) as real)
  }

  /** The summed discounts of the hits, and of the best possible ranking. */
  function Gain(flags: seq<bool>, d: nat -> real): real {
    if flags == [] then 0.0
    else Gain(flags[..|flags| - 1], d) + (if flags[|flags| - 1] then d(|flags| - 1) else 0.0)
  }

  function Ideal(n: nat, d: nat -> real): real {
    if n == 0 then 0.0 else Ideal(n - 1, d) + d(n - 1)
  }

  /** How many hits the best ranking has. */
  function Best(relevant: set<string>, k: int): nat {
    Max(Min(|relevant|, k), 0)
  }

  function Ndcg(retrieved: seq<string>, relevant: set<string>, k: int, d: nat -> real): real {
    var idcg := Ideal(Best(relevant, k), d);
    if idcg == 0.0 then 0.0 else Gain(Flags(Top(retrieved, k), relevant), d) / idcg
  }

  /** `ndcg_at_k`. */
  method NdcgAtK(retrieved: seq<string>, relevant: set<string>, k: int, d: nat -> real) returns (ndcg: real)
    ensures ndcg == Ndcg(retrieved, relevant, k, d)
  {
    var top := Top(retrieved, k);
    ghost var flags := Flags(top, relevant);
    var dcg := 0.0;
    for i := 0 to |top|
      invariant dcg == Gain(flags[..i], d)
    {
      assert flags[..i + 1][..i] == flags[..i];
      if top[i] in relevant { dcg := dcg + d(i); }
    }
    assert flags[..|top|] == flags;
    var idcg := 0.0;
    for i := 0 to Best(relevant, k)
      invariant idcg == Ideal(i, d)
    {
      idcg := idcg + d(i);
    }
    if idcg == 0.0 { return 0.0; }
    return dcg / idcg;
  }

  predicate FirstHit(retrieved: seq<string>, relevant: set<string>, i: nat)
    requires i < |retrieved|
  {
    retrieved[i] in relevant && forall j :: 0 <= j < i ==> retrieved[j] !in relevant
  }

  /** `reciprocal_rank`: the inverse rank of the first relevant result. */
  method ReciprocalRank(retrieved: seq<string>, relevant: set<string>) returns (rr: real)
    ensures rr == 0.0 <==> forall i :: 0 <= i < |retrieved| ==> retrieved[i] !in relevant
    ensures forall i :: 0 <= i < |retrieved| && FirstHit(retrieved, relevant, i) ==> rr == 1.0 / (i + 1) as real
  {
    for i := 0 to |retrieved|
      invariant forall j :: 0 <= j < i ==> retrieved[j] !in relevant
    {
      if retrieved[i] in relevant { return 1.0 / (i + 1) as real; }
    }
    return 0.0;
  }

  // ----- counting hits

  predicate Distinct<T(==)>(s: seq<T>) {
    forall i, j :: 0 <= i < j < |s| ==> s[i] != s[j]
  }

  lemma {:induction false} CountBounded(flags: seq<bool>)
    ensures Count(flags) <= |flags|
    decreases |flags|
  {
    if flags != [] { CountBounded(flags[..|flags| - 1]); }
  }

  /** The first `m` positions exist and are hits. */
  predicate AllHit(flags: seq<bool>, m: nat) {
    m <= |flags| && forall i :: 0 <= i < m ==> flags[i]
  }

  lemma {:induction false} CountAtLeast(flags: seq<bool>, m: nat)
    requires AllHit(flags, m)
    ensures Count(flags) >= m
    decreases |flags|
  {
    if m == |flags| && m > 0 {
      CountAtLeast(flags[..m - 1], m - 1);
    } else if flags != [] {
      CountAtLeast(flags[..|flags| - 1], m);
    }
  }

  /** The relevant results found, as a set. */
  function Found(top: seq<string>, relevant: set<string>): set<string> {
    set x | x in top && x in relevant
  }

  lemma FlagsSnoc(top: seq<string>, relevant: set<string>)
    requires top != []
    ensures var n := |top| - 1;
      Flags(top, relevant)[..n] == Flags(top[..n], relevant) && Flags(top, relevant)[n] == (top[n] in relevant)
  {
  }

  /** Without repeated results the hits are different relevant items. */
  lemma {:induction false} CountIsFound(top: seq<string>, relevant: set<string>)
    requires Distinct(top)
    ensures Count(Flags(top, relevant)) == |Found(top, relevant)|
    decreases |top|
  {
    if top == [] {
      assert Found(top, relevant) == {};
    } else {
      var n := |top| - 1;
      var before, x := top[..n], top[n];
      FlagsSnoc(top, relevant);
      CountIsFound(before, relevant);
      assert x !in before;
      FoundSnoc(before, x, relevant);
      assert top == before + [x];
    }
  }

  lemma FoundSnoc(before: seq<string>, x: string, relevant: set<string>)
    requires x !in before
    ensures |Found(before + [x], relevant)| == |Found(before, relevant)| + (if x in relevant then 1 else 0)
  {
    assert Found(before + [x], relevant) == Found(before, relevant) + (if x in relevant then {x} else {});
  }

  lemma {:induction false} SubsetSize(a: set<string>, b: set<string>)
    requires a <= b
    ensures |a| <= |b|
    decreases b
  {
    assert b == a + (b - a);
  }

  /** Without repeated results there are at most as many hits as relevant items. */
  lemma HitsBounded(retrieved: seq<string>, relevant: set<string>, k: int)
    requires Distinct(Top(retrieved, k))
    ensures k >= 0 ==> Hits(retrieved, relevant, k) <= Min(|relevant|, k)
  {
    var top := Top(retrieved, k);
    CountIsFound(top, relevant);
    SubsetSize(Found(top, relevant), relevant);
    CountBounded(Flags(top, relevant));
  }

  // ----- precision and recall

  lemma Ratio(a: nat, b: nat)
    requires a <= b && b > 0
    ensures 0.0 <= a as real / b as real <= 1.0 && (a as real / b as real) * b as real == a as real
  {
  }

  lemma NegativeRatio(a: nat, b: int)
    requires b < 0
    ensures a as real / b as real <= 0.0 && (a as real / b as real) * b as real == a as real
  {
    var r := a as real / b as real;
    assert r * b as real == a as real;
  }

  /** Both are fractions, recall raises exactly for k = 0 with something to find, and
      they count the same hits. For a negative k neither is positive. */
  lemma PrecisionAndRecall(retrieved: seq<string>, relevant: set<string>, k: int)
    requires Distinct(Top(retrieved, k))
    ensures if k >= 0 then 0.0 <= Precision(retrieved, relevant, k) <= 1.0
            else Precision(retrieved, relevant, k) <= 0.0
    ensures Recall(retrieved, relevant, k).None? <==> k == 0 && relevant != {}
    ensures var recall := Recall(retrieved, relevant, k);
      recall.Some? ==> if k >= 0 || relevant == {} then 0.0 <= recall.value <= 1.0 else recall.value <= 0.0
    ensures k != 0 && relevant != {} ==>
      Precision(retrieved, relevant, k) * k as real == Recall(retrieved, relevant, k).value * Min(|relevant|, k) as real
  {
    var hits := Hits(retrieved, relevant, k);
    HitsBounded(retrieved, relevant, k);
    if k > 0 {
      Ratio(hits, k);
      if relevant != {} { Ratio(hits, Min(|relevant|, k)); }
    } else if k < 0 {
      NegativeRatio(hits, k);
    }
  }

  /** The relevant items among the first `k` results. */
  ghost function FoundWithin(retrieved: seq<string>, relevant: set<string>, k: nat): set<string> {
    set x | x in relevant && FoundAt(retrieved, k, x)
  }

  ghost predicate FoundAt(retrieved: seq<string>, k: nat, x: string) {
    exists i :: 0 <= i < |retrieved| && i < k && retrieved[i] == x
  }

  /** Precision is the share of relevant items among the first `k` places, recall the share
      of those found of all that could be; with nothing to find recall is 1. */
  lemma HitRatios(retrieved: seq<string>, relevant: set<string>, k: nat)
    requires k > 0 && Distinct(Top(retrieved, k))
    ensures var found := |FoundWithin(retrieved, relevant, k)| as real;
      && Precision(retrieved, relevant, k) * k as real == found
      && (if relevant == {} then Recall(retrieved, relevant, k) == Some(1.0)
          else Recall(retrieved, relevant, k).Some? &&
               Recall(retrieved, relevant, k).value * (if |relevant| < k then |relevant| else k) as real == found)
    ensures Precision(retrieved, relevant, 0) == 0.0
  {
    HitsAre(retrieved, relevant, k);
    HitsBounded(retrieved, relevant, k);
    Ratio(Hits(retrieved, relevant, k), k);
    if relevant != {} { Ratio(Hits(retrieved, relevant, k), Min(|relevant|, k)); }
  }

  lemma TopHolds(retrieved: seq<string>, k: nat, x: string)
    ensures x in Top(retrieved, k) <==> FoundAt(retrieved, k, x)
  {
    var top := Top(retrieved, k);
    if x in top {
      var i :| 0 <= i < |top| && top[i] == x;
      assert retrieved[i] == x;
    }
    if i :| 0 <= i < |retrieved| && i < k && retrieved[i] == x { assert top[i] == x; }
  }

  lemma HitsAre(retrieved: seq<string>, relevant: set<string>, k: nat)
    requires Distinct(Top(retrieved, k))
    ensures Hits(retrieved, relevant, k) == |FoundWithin(retrieved, relevant, k)|
  {
    CountIsFound(Top(retrieved, k), relevant);
    forall x ensures x in Top(retrieved, k) <==> FoundAt(retrieved, k, x) { TopHolds(retrieved, k, x); }
    assert Found(Top(retrieved, k), relevant) == FoundWithin(retrieved, relevant, k);
  }

  // ----- NDCG

  /** Every hit gains the discount of its place, whatever else is hit. */
  lemma {:induction false} GainMeans(flags: seq<bool>, d: nat -> real, i: nat)
    requires i < |flags|
    ensures Gain(flags[i := true], d) == Gain(flags[i := false], d) + d(i)
    decreases |flags|
  {
    var n := |flags| - 1;
    if i == n {
      assert flags[i := true][..n] == flags[..n] == flags[i := false][..n];
    } else {
      GainMeans(flags[..n], d, i);
      assert flags[i := true][..n] == flags[..n][i := true] && flags[i := false][..n] == flags[..n][i := false];
    }
  }

  /** No hits gain nothing, and the best gain is that of nothing but hits. */
  lemma {:induction false} IdealMeans(n: nat, d: nat -> real)
    ensures Gain(seq(n, i => false), d) == 0.0 && Gain(seq(n, i => true), d) == Ideal(n, d)
    decreases n
  {
    if n > 0 {
      IdealMeans(n - 1, d);
      assert seq(n, i => false)[..n - 1] == seq(n - 1, i => false);
      assert seq(n, i => true)[..n - 1] == seq(n - 1, i => true);
    }
  }

  lemma {:induction false} IdealGrows(m: nat, n: nat, d: nat -> real)
    requires IsDiscount(d) && m <= n
    ensures Ideal(m, d) <= Ideal(n, d) && (m < n ==> Ideal(m, d) < Ideal(n, d))
    decreases n
  {
    if m < n { IdealGrows(m, n - 1, d); }
  }

  /** The rearrangement argument: hits gain at most what as many hits in front would. */
  lemma {:induction false} GainAtMost(flags: seq<bool>, d: nat -> real)
    requires IsDiscount(d)
    ensures Count(flags) <= |flags| && Gain(flags, d) <= Ideal(Count(flags), d)
    decreases |flags|
  {
    if flags != [] {
      var n := |flags| - 1;
      var c := Count(flags[..n]);
      GainAtMost(flags[..n], d);
      assert Ideal(c + 1, d) == Ideal(c, d) + d(c);
      assert c < n ==> d(n) < d(c);
    }
  }

  /** Where the hits are in front up to the last position, they are all in front. */
  lemma FrontSnoc(flags: seq<bool>, m: nat)
    requires flags != []
    requires var n := |flags| - 1; AllHit(flags[..n], m) && (flags[n] ==> m == n)
    ensures AllHit(flags, if flags[|flags| - 1] then m + 1 else m)
  {
    assert forall i :: 0 <= i < |flags| - 1 ==> flags[i] == flags[..|flags| - 1][i];
  }

  /** They gain strictly less unless they are in front. */
  lemma {:induction false} GainLess(flags: seq<bool>, d: nat -> real)
    requires IsDiscount(d) && !AllHit(flags, Count(flags))
    ensures Gain(flags, d) < Ideal(Count(flags), d)
    decreases |flags|
  {
    CountBounded(flags);
    var n := |flags| - 1;
    var before := flags[..n];
    var c := Count(before);
    GainAtMost(before, d);
    assert Ideal(c + 1, d) == Ideal(c, d) + d(c);
    assert c < n ==> d(n) < d(c);
    if AllHit(before, c) {
      if !flags[n] || c == n { FrontSnoc(flags, c); }
    } else {
      GainLess(before, d);
    }
  }

  lemma {:induction false} FrontGains(flags: seq<bool>, d: nat -> real, m: nat)
    requires IsDiscount(d) && AllHit(flags, m)
    ensures Gain(flags, d) >= Ideal(m, d)
    decreases |flags|
  {
    if m == |flags| && m > 0 {
      FrontGains(flags[..m - 1], d, m - 1);
    } else if flags != [] {
      FrontGains(flags[..|flags| - 1], d, m);
    }
  }

  /** Hits gain at most what as many hits in front would gain, and exactly that if and
      only if they are in front. */
  lemma Rearrangement(flags: seq<bool>, d: nat -> real)
    requires IsDiscount(d)
    ensures Count(flags) <= |flags| && Gain(flags, d) <= Ideal(Count(flags), d)
    ensures Gain(flags, d) == Ideal(Count(flags), d) <==> AllHit(flags, Count(flags))
  {
    GainAtMost(flags, d);
    if AllHit(flags, Count(flags)) { FrontGains(flags, d, Count(flags)); } else { GainLess(flags, d); }
  }

  lemma IdealPositive(n: nat, d: nat -> real)
    requires IsDiscount(d)
    ensures Ideal(n, d) >= 0.0 && (Ideal(n, d) == 0.0 <==> n == 0)
  {
    IdealGrows(0, n, d);
  }

  lemma {:induction false} GainNotNegative(flags: seq<bool>, d: nat -> real)
    requires IsDiscount(d)
    ensures Gain(flags, d) >= 0.0
    decreases |flags|
  {
    if flags != [] { GainNotNegative(flags[..|flags| - 1], d); }
  }

  lemma Fraction(a: real, b: real)
    requires 0.0 <= a <= b && b > 0.0
    ensures 0.0 <= a / b <= 1.0 && (a / b == 1.0 <==> a == b)
  {
  }

  /** Without repeated results NDCG is a fraction, and it is 1 exactly when all the
      first positions that could be hits are. */
  lemma NdcgBounds(retrieved: seq<string>, relevant: set<string>, k: int, d: nat -> real)
    requires IsDiscount(d) && Distinct(Top(retrieved, k))
    ensures 0.0 <= Ndcg(retrieved, relevant, k, d) <= 1.0
    ensures k > 0 && relevant != {} ==>
      (Ndcg(retrieved, relevant, k, d) == 1.0 <==>
        Min(|relevant|, k) <= |retrieved| && forall i :: 0 <= i < Min(|relevant|, k) ==> retrieved[i] in relevant)
    ensures k <= 0 || relevant == {} ==> Ndcg(retrieved, relevant, k, d) == 0.0
  {
    var m := Best(relevant, k);
    var flags := Flags(Top(retrieved, k), relevant);
    HitsBounded(retrieved, relevant, k);
    IdealPositive(m, d);
    if m > 0 {
      BestExactly(flags, m, d);
      assert m <= |flags| <==> m <= |retrieved|;
      if m <= |flags| { assert forall i :: 0 <= i < m ==> (flags[i] <==> retrieved[i] in relevant); }
      GainNotNegative(flags, d);
      Fraction(Gain(flags, d), Ideal(m, d));
    }
  }

  lemma BestExactly(flags: seq<bool>, m: nat, d: nat -> real)
    requires IsDiscount(d) && Count(flags) <= m
    ensures Gain(flags, d) <= Ideal(m, d)
    ensures Gain(flags, d) == Ideal(m, d) <==> AllHit(flags, m)
  {
    Rearrangement(flags, d);
    IdealGrows(Count(flags), m, d);
    if AllHit(flags, m) { CountAtLeast(flags, m); }
  }

  function Elements(s: seq<string>): set<string> {
    set x | x in s
  }

  lemma {:induction false} MembersBounded(s: seq<string>)
    ensures |Elements(s)| <= |s|
    decreases |s|
  {
    if s == [] {
      assert Elements(s) == {};
    } else {
      var before, last := s[..|s| - 1], s[|s| - 1];
      MembersBounded(before);
      assert s == before + [last];
      assert Elements(s) == Elements(before) + {last};
    }
  }

  /** A result that repeats an earlier one lifts NDCG above 1 for some relevant set:
      all results up to the repetition. */
  lemma RepetitionExceedsOne(retrieved: seq<string>, k: int, d: nat -> real, i: nat, j: nat)
    requires IsDiscount(d) && k > 0 && i < j < |Top(retrieved, k)| && Top(retrieved, k)[i] == Top(retrieved, k)[j]
    ensures Ndcg(retrieved, Elements(Top(retrieved, k)[..j + 1]), k, d) > 1.0
  {
    var top := Top(retrieved, k);
    var relevant := Elements(top[..j + 1]);
    MembersBounded(top[..j]);
    assert relevant == Elements(top[..j]) by {
      assert top[j] == top[..j][i];
      assert top[..j + 1] == top[..j] + [top[j]];
    }
    var flags := Flags(top, relevant);
    assert forall p :: 0 <= p < j + 1 ==> top[p] == top[..j + 1][p];
    FrontGains(flags, d, j + 1);
    var m := Best(relevant, k);
    assert top[0] == top[..j + 1][0];
    assert relevant != {} by { assert top[0] in relevant; }
    IdealGrows(m, j, d);
    IdealGrows(j, j + 1, d);
    IdealPositive(m, d);
    Above(Gain(flags, d), Ideal(m, d));
  }

  lemma Above(a: real, b: real)
    requires a > b > 0.0
    ensures a / b > 1.0
  {
  }

  /** NDCG never exceeds 1, whatever is relevant, if and only if the first k results
      hold no repetition, or k is negative. */
  lemma NeverAboveOne(retrieved: seq<string>, k: int, d: nat -> real)
    requires IsDiscount(d)
    ensures (forall relevant: set<string> :: Ndcg(retrieved, relevant, k, d) <= 1.0) <==>
            k < 0 || Distinct(Top(retrieved, k))
  {
    var top := Top(retrieved, k);
    if k <= 0 {
      forall relevant: set<string> ensures Ndcg(retrieved, relevant, k, d) <= 1.0 { }
    } else if Distinct(top) {
      forall relevant: set<string> ensures Ndcg(retrieved, relevant, k, d) <= 1.0 {
        NdcgBounds(retrieved, relevant, k, d);
      }
    } else {
      var i, j :| 0 <= i < j < |top| && top[i] == top[j];
      RepetitionExceedsOne(retrieved, k, d, i, j);
    }
  }
}

/**
 The sampler over real arithmetic, with the exponential as an abstract positive function
 and the random draw as a parameter: top-k thresholding, the nucleus (top-p) cutoff and
 the inverse-transform draw.
 */
module Sampling {
  /** A logit; masked ones are minus infinity. */
  datatype Logit = NegInf | Fin(r: real)

  type Exp = real -> real

  ghost predicate Positive(f: real -> real) {
    forall x :: f(x) > 0.0
  }

  // ---------- sums ----------

  function SumTo(p: seq<real>, n: nat): (s: real)
    requires n <= |p|
  {
    if n == 0 then 0.0 else SumTo(p, n - 1) + p[n - 1]
  }

  ghost predicate Distribution(p: seq<real>) {
    p != [] && SumTo(p, |p|) == 1.0 && forall i :: 0 <= i < |p| ==> p[i] >= 0.0
  }

  lemma {:induction false} SumToMonotone(p: seq<real>, m: nat, n: nat)
    requires m <= n <= |p| && forall i :: 0 <= i < |p| ==> p[i] >= 0.0
    ensures SumTo(p, m) <= SumTo(p, n)
  {
    if m < n {
      SumToMonotone(p, m, n - 1);
    }
  }

  /** Sum of the entries of `p` below `n` whose index lies in `s`. */
  ghost function SumIn(p: seq<real>, s: set<nat>, n: nat): (r: real)
    requires n <= |p|
  {
    if n == 0 then 0.0 else SumIn(p, s, n - 1) + (if n - 1 in s then p[n - 1] else 0.0)
  }

  /** `t` for every index below `n` in `s`. */
  ghost function Flat(t: real, s: set<nat>, n: nat): (r: real) {
    if n == 0 then 0.0 else Flat(t, s, n - 1) + (if n - 1 in s then t else 0.0)
  }

  ghost predicate Below(s: set<nat>, n: nat) {
    forall i :: i in s ==> i < n
  }

  lemma {:induction false} FlatIsCount(t: real, s: set<nat>, n: nat)
    requires Below(s, n)
    ensures Flat(t, s, n) == t * (|s| as real)
  {
    if n == 0 {
      assert s == {};
    } else if n - 1 in s {
      var rest := s - {n - 1};
      FlatIsCount(t, rest, n - 1);
      FlatIgnores(t, s, rest, n - 1);
      assert |s| == |rest| + 1;
      assert t * (|rest| as real) + t == t * (|s| as real);
    } else {
      FlatIsCount(t, s, n - 1);
    }
  }

  lemma {:induction false} FlatIgnores(t: real, s: set<nat>, s': set<nat>, n: nat)
    requires forall i :: i < n ==> (i in s <==> i in s')
    ensures Flat(t, s, n) == Flat(t, s', n)
  {
    if n > 0 {
      FlatIgnores(t, s, s', n - 1);
    }
  }

  /**
   The exchange argument: when every kept entry is at least `t` and every other entry at
   most `t`, replacing the kept set by another one gains at most `t` per extra index.
   */
  lemma {:induction false} Exchange(p: seq<real>, s: set<nat>, kept: set<nat>, t: real, n: nat)
    requires n <= |p|
    requires forall i :: 0 <= i < n ==> if i in kept then p[i] >= t else p[i] <= t
    ensures SumIn(p, s, n) - SumIn(p, kept, n) <= Flat(t, s, n) - Flat(t, kept, n)
  {
    if n > 0 {
      Exchange(p, s, kept, t, n - 1);
    }
  }

  // ---------- orders ----------

  /** `order` lists every index of `p` once. */
  ghost predicate Permutes(p: seq<real>, order: seq<nat>) {
    && |order| == |p|
    && (forall i :: 0 <= i < |order| ==> order[i] < |p|)
    && (forall i, j :: 0 <= i < j < |order| ==> order[i] != order[j])
  }

  /** The first `k` listed are the largest, in descending order; the others come in any order. */
  ghost predicate LargestFirst(p: seq<real>, order: seq<nat>, k: nat) {
    && Permutes(p, order) && k <= |p|
    && forall i, j :: 0 <= i < k && i < j < |order| ==> p[order[i]] >= p[order[j]]
  }

  ghost function Listed(order: seq<nat>, k: nat): (s: set<nat>)
    requires k <= |order|
  {
    set i | 0 <= i < k :: order[i]
  }

  lemma {:induction false} ListedCount(p: seq<real>, order: seq<nat>, k: nat)
    requires Permutes(p, order) && k <= |order|
    ensures |Listed(order, k)| == k && Below(Listed(order, k), |p|)
  {
    if k > 0 {
      ListedCount(p, order, k - 1);
      assert Listed(order, k) == Listed(order, k - 1) + {order[k - 1]};
      assert order[k - 1] !in Listed(order, k - 1);
    }
  }

  ghost function Range(n: nat): (s: set<nat>)
    ensures |s| == n && forall i: nat :: i in s <==> i < n
  {
    if n == 0 then {} else Range(n - 1) + {n - 1}
  }

  /** Every index is listed somewhere. */
  lemma ListedAll(p: seq<real>, order: seq<nat>)
    requires Permutes(p, order)
    ensures forall i :: 0 <= i < |p| ==> i in Listed(order, |order|)
  {
    ListedCount(p, order, |order|);
    SubsetOfEqualSize(Listed(order, |order|), Range(|p|));
  }

  lemma PositionOf(p: seq<real>, order: seq<nat>, i: nat) returns (j: nat)
    requires Permutes(p, order) && i < |p|
    ensures j < |order| && order[j] == i
  {
    ListedAll(p, order);
    assert i in Listed(order, |order|);
    j :| j < |order| && order[j] == i;
  }

  lemma SubsetSize(a: set<nat>, b: set<nat>)
    requires a <= b
    ensures |a| <= |b|
  {
    assert b == a + (b - a);
  }

  lemma SubsetOfEqualSize(a: set<nat>, b: set<nat>)
    requires a <= b && |a| == |b|
    ensures a == b
  {
    assert b == a + (b - a);
    assert |b| == |a| + |b - a|;
  }

  /** Sum of the first `k` listed entries. */
  function ListedSum(p: seq<real>, order: seq<nat>, k: nat): (s: real)
    requires k <= |order| && forall i :: 0 <= i < |order| ==> order[i] < |p|
  {
    if k == 0 then 0.0 else ListedSum(p, order, k - 1) + p[order[k - 1]]
  }

  lemma {:induction false} SumInAdd(p: seq<real>, s: set<nat>, i: nat, n: nat)
    requires n <= |p| && i !in s
    ensures SumIn(p, s + {i}, n) == SumIn(p, s, n) + (if i < n then p[i] else 0.0)
  {
    if n > 0 {
      SumInAdd(p, s, i, n - 1);
    }
  }

  lemma {:induction false} SumInEmpty(p: seq<real>, n: nat)
    requires n <= |p|
    ensures SumIn(p, {}, n) == 0.0
  {
    if n > 0 {
      SumInEmpty(p, n - 1);
    }
  }

  lemma {:induction false} ListedSumIsSumIn(p: seq<real>, order: seq<nat>, k: nat)
    requires Permutes(p, order) && k <= |order|
    ensures ListedSum(p, order, k) == SumIn(p, Listed(order, k), |p|)
  {
    if k == 0 {
      assert Listed(order, 0) == {};
      SumInEmpty(p, |p|);
    } else {
      ListedSumIsSumIn(p, order, k - 1);
      assert Listed(order, k) == Listed(order, k - 1) + {order[k - 1]};
      assert order[k - 1] !in Listed(order, k - 1);
      SumInAdd(p, Listed(order, k - 1), order[k - 1], |p|);
    }
  }

  lemma {:induction false} SumInAll(p: seq<real>, s: set<nat>, n: nat)
    requires n <= |p| && forall i :: 0 <= i < n ==> i in s
    ensures SumIn(p, s, n) == SumTo(p, n)
  {
    if n > 0 {
      SumInAll(p, s, n - 1);
    }
  }

  // ---------- the nucleus ----------

  /** The cutoff the loop finds: the shortest prefix that reaches `topP`, else everything. */
  ghost predicate IsCutoff(p: seq<real>, order: seq<nat>, topP: real, c: nat)
    requires Permutes(p, order)
  {
    && 1 <= c <= |p|
    && (forall k :: 1 <= k < c ==> ListedSum(p, order, k) < topP)
    && (c < |p| ==> ListedSum(p, order, c) >= topP)
  }

  lemma KeptAreLarger(p: seq<real>, order: seq<nat>, m: nat, i: nat)
    requires LargestFirst(p, order, m) && 1 <= m && i < |p|
    ensures if i in Listed(order, m) then p[i] >= p[order[m - 1]] else p[i] <= p[order[m - 1]]
  {
    if i in Listed(order, m) {
      var j :| 0 <= j < m && order[j] == i;
      assert j < m - 1 ==> p[order[j]] >= p[order[m - 1]];
    } else {
      var j := PositionOf(p, order, i);
      assert p[order[m - 1]] >= p[order[j]];
    }
  }

  /** No set of at most `m` indices weighs more than the `m` largest entries. */
  lemma LargestAreHeaviest(p: seq<real>, order: seq<nat>, m: nat, s: set<nat>)
    requires LargestFirst(p, order, |p|) && m <= |p| && |s| <= m && Below(s, |p|)
    requires forall i :: 0 <= i < |p| ==> p[i] >= 0.0
    ensures SumIn(p, s, |p|) <= ListedSum(p, order, m)
  {
    var kept := Listed(order, m);
    ListedSumIsSumIn(p, order, m);
    ListedCount(p, order, m);
    if m == 0 {
      assert s == {} && kept == {};
    } else {
      var t := p[order[m - 1]];
      forall i | 0 <= i < |p|
        ensures if i in kept then p[i] >= t else p[i] <= t
      {
        KeptAreLarger(p, order, m, i);
      }
      Exchange(p, s, kept, t, |p|);
      FlatMonotone(t, s, kept, |p|);
    }
  }

  lemma FlatMonotone(t: real, a: set<nat>, b: set<nat>, n: nat)
    requires t >= 0.0 && |a| <= |b| && Below(a, n) && Below(b, n)
    ensures Flat(t, a, n) <= Flat(t, b, n)
  {
    FlatIsCount(t, a, n);
    FlatIsCount(t, b, n);
    var x, y := |a| as real, |b| as real;
    MulNonNegative(t, y - x);
    assert t * (y - x) == t * y - t * x;
  }

  lemma MulNonNegative(x: real, y: real)
    requires x >= 0.0 && y >= 0.0
    ensures x * y >= 0.0
  {
  }

  /**
   The kept prefix is the smallest possible nucleus: any set with fewer indices weighs
   less than `topP`, and the prefix itself reaches `topP` whenever the whole mass does.
   */
  lemma NucleusOptimal(p: seq<real>, order: seq<nat>, topP: real, c: nat)
    requires Distribution(p) && LargestFirst(p, order, |p|) && topP > 0.0 && IsCutoff(p, order, topP, c)
    ensures forall s: set<nat> :: Below(s, |p|) && |s| < c ==> SumIn(p, s, |p|) < topP
    ensures topP <= 1.0 ==> SumIn(p, Listed(order, c), |p|) >= topP
    ensures |Listed(order, c)| == c
  {
    forall s: set<nat> | Below(s, |p|) && |s| < c
      ensures SumIn(p, s, |p|) < topP
    {
      LargestAreHeaviest(p, order, c - 1, s);
    }
    ListedCount(p, order, c);
    ListedSumIsSumIn(p, order, c);
    if c == |p| {
      ListedAll(p, order);
      SumInAll(p, Listed(order, c), |p|);
    }
  }

  // ---------- top-k ----------

  ghost function Above(p: seq<real>, t: real): (s: set<nat>) {
    set i: nat | i < |p| && p[i] > t
  }

  /**
   Keeping the logits that reach the k-th largest one keeps exactly those with fewer than
   k logits strictly above them, ties included.
   */
  lemma ThresholdExact(p: seq<real>, order: seq<nat>, k: nat, i: nat)
    requires LargestFirst(p, order, k) && 1 <= k && i < |p|
    ensures p[i] >= p[order[k - 1]] <==> |Above(p, p[i])| < k
  {
    var t := p[order[k - 1]];
    if p[i] >= t {
      forall j | j in Above(p, p[i])
        ensures j in Listed(order, k - 1)
      {
        KeptAreLarger(p, order, k, j);
        assert Listed(order, k) == Listed(order, k - 1) + {order[k - 1]};
      }
      ListedCount(p, order, k - 1);
      SubsetSize(Above(p, p[i]), Listed(order, k - 1));
    } else {
      assert forall m :: 0 <= m < k - 1 ==> p[order[m]] >= p[order[k - 1]];
      assert Listed(order, k) <= Above(p, p[i]);
      ListedCount(p, order, k);
      SubsetSize(Listed(order, k), Above(p, p[i]));
    }
  }

  /** Dividing by a positive temperature changes no comparison. */
  lemma ScalingKeepsAbove(p: seq<real>, q: seq<real>, temp: real, i: nat)
    requires temp > 0.0 && |q| == |p| && i < |p| && forall j :: 0 <= j < |p| ==> q[j] == p[j] / temp
    ensures Above(q, q[i]) == Above(p, p[i])
  {
    forall j: nat | j < |p|
      ensures q[j] > q[i] <==> p[j] > p[i]
    {
      DivideOrder(p[j], p[i], temp);
    }
  }

  lemma DivideOrder(x: real, y: real, t: real)
    requires t > 0.0
    ensures x / t > y / t <==> x > y
  {
    assert x == (x / t) * t && y == (y / t) * t;
  }

  // ---------- softmax ----------

  function Weight(exp: Exp, l: Logit, m: real): (w: real) {
    match l
    case NegInf => 0.0
    case Fin(r) => exp(r - m)
  }

  function Weights(exp: Exp, logits: seq<Logit>, m: real): (ws: seq<real>)
    ensures |ws| == |logits|
  {
    seq(|logits|, i requires 0 <= i < |logits| => Weight(exp, logits[i], m))
  }

  function Divided(p: seq<real>, d: real): (q: seq<real>)
    requires d != 0.0
    ensures |q| == |p| && forall i :: 0 <= i < |p| ==> q[i] == p[i] / d
  {
    seq(|p|, i requires 0 <= i < |p| => p[i] / d)
  }

  lemma {:induction false} SumDivided(p: seq<real>, d: real, n: nat)
    requires n <= |p| && d > 0.0
    ensures SumTo(Divided(p, d), n) == SumTo(p, n) / d
  {
    if n > 0 {
      SumDivided(p, d, n - 1);
    }
  }

  lemma {:induction false} SumPositive(p: seq<real>, i: nat, n: nat)
    requires i < n <= |p| && p[i] > 0.0 && forall j :: 0 <= j < |p| ==> p[j] >= 0.0
    ensures SumTo(p, n) > 0.0
  {
    SumToMonotone(p, 0, i);
    SumToMonotone(p, i + 1, n);
  }

  /** Greater in the order of floats, where minus infinity is least. */
  predicate Exceeds(a: Logit, b: Logit) {
    a.Fin? && (b.NegInf? || a.r > b.r)
  }

  /** The first largest logit, as `std::max_element` finds it. */
  method MaxElement(logits: seq<Logit>) returns (best: nat)
    requires logits != []
    ensures best < |logits|
    ensures forall j :: 0 <= j < |logits| ==> !Exceeds(logits[j], logits[best])
    ensures forall j :: 0 <= j < best ==> Exceeds(logits[best], logits[j])
  {
    best := 0;
    for i := 1 to |logits|
      invariant 0 <= best < i
      invariant forall j :: 0 <= j < i ==> !Exceeds(logits[j], logits[best])
      invariant forall j :: 0 <= j < best ==> Exceeds(logits[best], logits[j])
    {
      if Exceeds(logits[i], logits[best]) {
        best := i;
      }
    }
  }

  ghost predicate Maximal(logits: seq<Logit>, b: int) {
    0 <= b < |logits| && logits[b].Fin? && forall j :: 0 <= j < |logits| ==> !Exceeds(logits[j], logits[b])
  }

  /** The weights divided by their sum. */
  function Normalized(w: seq<real>): (p: seq<real>)
    requires SumTo(w, |w|) != 0.0
  {
    Divided(w, SumTo(w, |w|))
  }

  lemma WeightsPositive(exp: Exp, logits: seq<Logit>, b: int)
    requires Positive(exp) && Maximal(logits, b)
    ensures var w := Weights(exp, logits, logits[b].r);
            SumTo(w, |w|) > 0.0 && forall i :: 0 <= i < |w| ==> w[i] >= 0.0 && (w[i] > 0.0 <==> logits[i].Fin?)
  {
    var w := Weights(exp, logits, logits[b].r);
    assert w[b] == exp(logits[b].r - logits[b].r) > 0.0;
    forall i | 0 <= i < |w|
      ensures w[i] >= 0.0 && (w[i] > 0.0 <==> logits[i].Fin?)
    {
      assert logits[i].Fin? ==> w[i] == exp(logits[i].r - logits[b].r) > 0.0;
    }
    SumPositive(w, b, |w|);
  }

  /** Normalizing keeps which entries are positive and makes the sum one. */
  lemma NormalizedIsDistribution(w: seq<real>)
    requires w != [] && SumTo(w, |w|) > 0.0 && forall i :: 0 <= i < |w| ==> w[i] >= 0.0
    ensures Distribution(Normalized(w))
    ensures forall i :: 0 <= i < |w| ==> (Normalized(w)[i] > 0.0 <==> w[i] > 0.0)
  {
    var s := SumTo(w, |w|);
    SumDivided(w, s, |w|);
    forall i | 0 <= i < |w|
      ensures Normalized(w)[i] >= 0.0 && (Normalized(w)[i] > 0.0 <==> w[i] > 0.0)
    {
      DividePositive(w[i], s);
    }
    assert SumTo(Divided(w, s), |w|) == s / s == 1.0;
  }

  lemma DividePositive(x: real, s: real)
    requires x >= 0.0 && s > 0.0
    ensures x / s >= 0.0 && (x / s > 0.0 <==> x > 0.0)
  {
    assert x == (x / s) * s;
  }

  ghost predicate HasFinite(logits: seq<Logit>) {
    exists i :: 0 <= i < |logits| && logits[i].Fin?
  }

  lemma {:induction false} MaximalExists(logits: seq<Logit>)
    requires HasFinite(logits)
    ensures exists b :: Maximal(logits, b)
  {
    var n := |logits| - 1;
    if HasFinite(logits[..n]) {
      MaximalExists(logits[..n]);
      var b :| Maximal(logits[..n], b);
      assert Maximal(logits, if Exceeds(logits[n], logits[b]) then n else b);
    } else {
      assert forall i :: 0 <= i < n ==> logits[..n][i] == logits[i];
      assert Maximal(logits, n);
    }
  }

  /** The largest of the logits. */
  ghost function Peak(logits: seq<Logit>): (m: real)
    requires HasFinite(logits)
  {
    MaximalExists(logits);
    var b :| Maximal(logits, b);
    logits[b].r
  }

  lemma PeakIsLargest(logits: seq<Logit>, b: int)
    requires HasFinite(logits) && Maximal(logits, b)
    ensures Peak(logits) == logits[b].r
  {
  }

  lemma PeakWeighs(exp: Exp, logits: seq<Logit>)
    requires Positive(exp) && HasFinite(logits)
    ensures var w := Weights(exp, logits, Peak(logits));
            && SumTo(w, |w|) > 0.0
            && forall i :: 0 <= i < |w| ==> w[i] >= 0.0 && (w[i] > 0.0 <==> logits[i].Fin?)
  {
    MaximalExists(logits);
    var b :| Maximal(logits, b);
    PeakIsLargest(logits, b);
    WeightsPositive(exp, logits, b);
  }

  /** Probabilities in proportion to the exponentials of the logits, less the largest one. */
  ghost function SoftMaxOf(exp: Exp, logits: seq<Logit>): (p: seq<real>)
    requires Positive(exp) && HasFinite(logits)
    ensures |p| == |logits|
  {
    PeakWeighs(exp, logits);
    Normalized(Weights(exp, logits, Peak(logits)))
  }

  /** A distribution that is positive exactly on the finite logits. */
  lemma SoftMaxIsDistribution(exp: Exp, logits: seq<Logit>)
    requires Positive(exp) && HasFinite(logits)
    ensures Distribution(SoftMaxOf(exp, logits))
    ensures forall i :: 0 <= i < |logits| ==> (SoftMaxOf(exp, logits)[i] > 0.0 <==> logits[i].Fin?)
  {
    PeakWeighs(exp, logits);
    NormalizedIsDistribution(Weights(exp, logits, Peak(logits)));
  }

  predicate MultipliesAt(exp: Exp, x: real, y: real) {
    exp(x + y) == exp(x) * exp(y)
  }

  /** The exponential turns sums into products. */
  ghost predicate Multiplicative(exp: Exp) {
    forall x, y :: MultipliesAt(exp, x, y)
  }

  lemma ShiftedWeight(exp: Exp, l: Logit, m: real)
    requires Multiplicative(exp)
    ensures Weight(exp, l, 0.0) == Weight(exp, l, m) * exp(m)
  {
    if l.Fin? {
      assert MultipliesAt(exp, l.r - m, m);
      assert (l.r - m) + m == l.r - 0.0;
    }
  }

  lemma ShiftedWeights(exp: Exp, logits: seq<Logit>, m: real)
    requires Multiplicative(exp)
    ensures Multiplied(Weights(exp, logits, m), Weights(exp, logits, 0.0), exp(m))
  {
    forall i | 0 <= i < |logits|
      ensures Weights(exp, logits, 0.0)[i] == Weights(exp, logits, m)[i] * exp(m)
    {
      ShiftedWeight(exp, logits[i], m);
    }
  }

  lemma CancelFactor(x: real, y: real, s: real, t: real, f: real)
    requires s > 0.0 && f > 0.0 && y == x * f && t == s * f
    ensures t > 0.0 && y / t == x / s
  {
    var q := x / s;
    assert x == q * s;
    assert y == q * t;
  }

  ghost predicate Multiplied(w: seq<real>, v: seq<real>, f: real) {
    |w| == |v| && forall i :: 0 <= i < |w| ==> v[i] == w[i] * f
  }

  lemma {:induction false} SumMultiplied(w: seq<real>, v: seq<real>, f: real, n: nat)
    requires Multiplied(w, v, f) && n <= |w|
    ensures SumTo(v, n) == SumTo(w, n) * f
  {
    if n > 0 {
      SumMultiplied(w, v, f, n - 1);
      var a, b := SumTo(w, n - 1), w[n - 1];
      assert (a + b) * f == a * f + b * f;
    }
  }

  /** A common positive factor is lost in normalizing. */
  lemma NormalizedScaled(w: seq<real>, v: seq<real>, f: real)
    requires Multiplied(w, v, f) && f > 0.0 && SumTo(w, |w|) > 0.0
    ensures SumTo(v, |v|) > 0.0 && Normalized(v) == Normalized(w)
  {
    var s, t := SumTo(w, |w|), SumTo(v, |v|);
    SumMultiplied(w, v, f, |w|);
    CancelFactor(0.0, 0.0, s, t, f);
    forall i | 0 <= i < |w|
      ensures v[i] / t == w[i] / s
    {
      CancelFactor(w[i], v[i], s, t, f);
    }
  }

  /** Subtracting the largest logit first changes no probability when `exp` turns sums into products. */
  lemma SoftMaxShift(exp: Exp, logits: seq<Logit>)
    requires Positive(exp) && HasFinite(logits) && Multiplicative(exp)
    ensures SumTo(Weights(exp, logits, 0.0), |logits|) > 0.0
    ensures SoftMaxOf(exp, logits) == Normalized(Weights(exp, logits, 0.0))
  {
    var m := Peak(logits);
    PeakWeighs(exp, logits);
    ShiftedWeights(exp, logits, m);
    assert exp(m) > 0.0;
    NormalizedScaled(Weights(exp, logits, m), Weights(exp, logits, 0.0), exp(m));
  }

  lemma ScaledQuotient(x: real, y: real, s: real, f: real)
    requires s > 0.0 && x == y * f
    ensures x / s == (y / s) * f
  {
    var q := y / s;
    assert y == q * s;
    assert x == (q * f) * s;
  }

  /** A finite logit's probability, before the sum is divided out. */
  lemma SoftMaxAt(exp: Exp, logits: seq<Logit>, i: nat)
    requires Positive(exp) && HasFinite(logits) && i < |logits| && logits[i].Fin?
    ensures var m := Peak(logits);
            var s := SumTo(Weights(exp, logits, m), |logits|);
            s > 0.0 && SoftMaxOf(exp, logits)[i] == exp(logits[i].r - m) / s
  {
    PeakWeighs(exp, logits);
  }

  /**
   Two probabilities stand in the ratio of the exponential of the difference of their
   logits, when the exponential turns sums into products.
   */
  lemma SoftMaxRatio(exp: Exp, logits: seq<Logit>, i: nat, j: nat)
    requires Positive(exp) && HasFinite(logits) && Multiplicative(exp)
    requires i < |logits| && j < |logits| && logits[i].Fin? && logits[j].Fin?
    ensures SoftMaxOf(exp, logits)[i] == SoftMaxOf(exp, logits)[j] * exp(logits[i].r - logits[j].r)
  {
    var m, x, y := Peak(logits), logits[i].r, logits[j].r;
    SoftMaxAt(exp, logits, i);
    SoftMaxAt(exp, logits, j);
    assert exp(x - m) == exp(y - m) * exp(x - y) by {
      assert MultipliesAt(exp, y - m, x - y);
      assert (y - m) + (x - y) == x - m;
    }
    ScaledQuotient(exp(x - m), exp(y - m), SumTo(Weights(exp, logits, m), |logits|), exp(x - y));
  }

  predicate LessAt(exp: Exp, x: real, y: real) {
    exp(x) < exp(y)
  }

  ghost predicate Increasing(exp: Exp) {
    forall x, y :: x < y ==> LessAt(exp, x, y)
  }

  /** The larger logit has the larger probability, when the exponential increases. */
  lemma SoftMaxOrder(exp: Exp, logits: seq<Logit>, i: nat, j: nat)
    requires Positive(exp) && HasFinite(logits) && Increasing(exp)
    requires i < |logits| && j < |logits| && logits[i].Fin? && logits[j].Fin?
    ensures SoftMaxOf(exp, logits)[i] > SoftMaxOf(exp, logits)[j] <==> logits[i].r > logits[j].r
  {
    var m, x, y := Peak(logits), logits[i].r, logits[j].r;
    SoftMaxAt(exp, logits, i);
    SoftMaxAt(exp, logits, j);
    assert x < y ==> LessAt(exp, x - m, y - m);
    assert y < x ==> LessAt(exp, y - m, x - m);
    DivideOrder(exp(x - m), exp(y - m), SumTo(Weights(exp, logits, m), |logits|));
  }

  /** Normalizing divides every entry by the sum. */
  lemma NormalizedShare(w: seq<real>, i: nat)
    requires SumTo(w, |w|) != 0.0 && i < |w|
    ensures Normalized(w)[i] * SumTo(w, |w|) == w[i]
  {
  }

  /** The exponentials and their sum. */
  method Exponentials(exp: Exp, logits: seq<Logit>, m: real) returns (p: seq<real>, sum: real)
    ensures p == Weights(exp, logits, m) && sum == SumTo(p, |p|)
  {
    ghost var w := Weights(exp, logits, m);
    p := [];
    sum := 0.0;
    for i := 0 to |logits|
      invariant p == w[..i] && sum == SumTo(w, i)
    {
      p := p + [Weight(exp, logits[i], m)];
      sum := sum + p[i];
    }
    assert p == w;
  }

  method SoftMax(exp: Exp, logits: seq<Logit>) returns (p: seq<real>)
    requires Positive(exp) && HasFinite(logits)
    ensures p == SoftMaxOf(exp, logits)
  {
    MaximalExists(logits);
    var best := MaxElement(logits);
    PeakIsLargest(logits, best);
    PeakWeighs(exp, logits);
    var sum;
    p, sum := Exponentials(exp, logits, logits[best].r);
    p := DivideAll(p, sum);
  }

  method DivideAll(w: seq<real>, d: real) returns (p: seq<real>)
    requires d != 0.0
    ensures p == Divided(w, d)
  {
    p := w;
    for i := 0 to |w|
      invariant |p| == |w|
      invariant forall j :: 0 <= j < |p| ==> p[j] == if j < i then w[j] / d else w[j]
    {
      p := p[i := p[i] / d];
    }
  }

  /** Keeps the logits that have fewer than k strictly above them. */
  ghost function TopK(logits: seq<real>, k: nat): (kept: seq<Logit>)
    ensures |kept| == |logits|
  {
    seq(|logits|, i requires 0 <= i < |logits| =>
      if |Above(logits, logits[i])| < k then Fin(logits[i]) else NegInf)
  }

  lemma {:induction false} LargestIndex(logits: seq<real>) returns (i: nat)
    requires logits != []
    ensures i < |logits| && forall j :: 0 <= j < |logits| ==> logits[j] <= logits[i]
  {
    var n := |logits| - 1;
    i := n;
    if n > 0 {
      var m := LargestIndex(logits[..n]);
      if logits[m] > logits[n] {
        i := m;
      }
    }
  }

  lemma TopKIsFinite(logits: seq<real>, k: nat)
    requires logits != [] && k > 0
    ensures HasFinite(TopK(logits, k))
  {
    var i := LargestIndex(logits);
    assert Above(logits, logits[i]) == {};
    assert TopK(logits, k)[i].Fin?;
  }

  /** The softmax of the logits that top-k keeps. */
  ghost function TopKProbs(exp: Exp, logits: seq<real>, k: nat): (p: seq<real>)
    requires Positive(exp) && logits != [] && k > 0
    ensures |p| == |logits|
  {
    TopKIsFinite(logits, k);
    SoftMaxOf(exp, TopK(logits, k))
  }

  /** The probabilities are positive exactly on the logits with fewer than k above them. */
  lemma TopKPositive(exp: Exp, logits: seq<real>, k: nat, i: nat)
    requires Positive(exp) && logits != [] && k > 0 && i < |logits|
    ensures Distribution(TopKProbs(exp, logits, k))
    ensures TopKProbs(exp, logits, k)[i] > 0.0 <==> |Above(logits, logits[i])| < k
  {
    TopKIsFinite(logits, k);
    SoftMaxIsDistribution(exp, TopK(logits, k));
  }

  /** Among kept logits, probabilities stand in the ratio of the exponential of the difference. */
  lemma TopKRatio(exp: Exp, logits: seq<real>, k: nat, i: nat, j: nat)
    requires Positive(exp) && Multiplicative(exp) && k > 0 && i < |logits| && j < |logits|
    requires |Above(logits, logits[i])| < k && |Above(logits, logits[j])| < k
    ensures TopKProbs(exp, logits, k)[i] == TopKProbs(exp, logits, k)[j] * exp(logits[i] - logits[j])
  {
    TopKIsFinite(logits, k);
    SoftMaxRatio(exp, TopK(logits, k), i, j);
  }

  /** Unmasked, that holds for all of them. */
  lemma UnmaskedRatio(exp: Exp, logits: seq<real>, i: nat, j: nat)
    requires Positive(exp) && Multiplicative(exp) && i < |logits| && j < |logits|
    ensures SoftMaxOf(exp, Unmasked(logits))[i] == SoftMaxOf(exp, Unmasked(logits))[j] * exp(logits[i] - logits[j])
  {
    SoftMaxRatio(exp, Unmasked(logits), i, j);
  }

  /** No logit masked. */
  function Unmasked(logits: seq<real>): (all: seq<Logit>)
    ensures |all| == |logits|
    ensures logits != [] ==> HasFinite(all)
  {
    var all := seq(|logits|, i requires 0 <= i < |logits| => Fin(logits[i]));
    assert logits != [] ==> all[0].Fin?;
    all
  }

  // ---------- drawing ----------

  /** `i` is the first index with positive probability whose running sum reaches the draw. */
  ghost predicate Drawn(p: seq<real>, draw: real, i: int) {
    && 0 <= i < |p| && p[i] > 0.0 && SumTo(p, i + 1) >= draw
    && forall j :: 0 <= j < i && p[j] > 0.0 ==> SumTo(p, j + 1) < draw
  }

  /** The cumulative loop; `inside` tells whether it returned before its end. */
  method Draw(p: seq<real>, draw: real) returns (i: nat, inside: bool)
    requires p != [] && forall j :: 0 <= j < |p| ==> p[j] >= 0.0
    ensures inside ==> Drawn(p, draw, i)
    ensures !inside ==> i == |p| - 1 && forall j :: 0 <= j < |p| && p[j] > 0.0 ==> SumTo(p, j + 1) < draw
  {
    var cum := 0.0;
    for k := 0 to |p|
      invariant cum == SumTo(p, k)
      invariant forall j :: 0 <= j < k && p[j] > 0.0 ==> SumTo(p, j + 1) < draw
    {
      if p[k] <= 0.0 {
        continue;
      }
      cum := cum + p[k];
      if cum >= draw {
        return k, true;
      }
    }
    return |p| - 1, false;
  }

  /** The running sum at the last positive entry is the whole sum. */
  lemma {:induction false} LastPositive(p: seq<real>, n: nat) returns (i: nat)
    requires n <= |p| && SumTo(p, n) > 0.0 && forall j :: 0 <= j < |p| ==> p[j] >= 0.0
    ensures i < n && p[i] > 0.0 && SumTo(p, i + 1) == SumTo(p, n)
  {
    if p[n - 1] > 0.0 {
      i := n - 1;
    } else {
      i := LastPositive(p, n - 1);
    }
  }

  /** Index i is drawn exactly for the draws in an interval of length p[i]. */
  lemma DrawnInterval(p: seq<real>, draw: real, i: nat)
    requires Distribution(p) && i < |p| && p[i] > 0.0 && draw > 0.0
    ensures Drawn(p, draw, i) <==> SumTo(p, i) < draw <= SumTo(p, i) + p[i]
  {
    if Drawn(p, draw, i) {
      SumToMonotone(p, 0, i);
      if SumTo(p, i) > 0.0 {
        var j := LastPositive(p, i);
      }
    }
    if SumTo(p, i) < draw <= SumTo(p, i) + p[i] {
      forall j | 0 <= j < i && p[j] > 0.0
        ensures SumTo(p, j + 1) < draw
      {
        SumToMonotone(p, j + 1, i);
      }
    }
  }
}

/** The sampler object and its three strategies. */
module Sampler {
  import opened Sampling

  datatype Token = Token(index: nat, score: real)

  class Sampler {
    const temp: real
    const topK: nat
    const exp: Exp

    constructor (temperature: real, topK: nat, exp: Exp)
      ensures temp == temperature && this.topK == topK && this.exp == exp
    {
      temp, this.topK, this.exp := temperature, topK, exp;
    }

    /** The first largest logit. */
    method Greedy(logits: seq<real>) returns (t: Token)
      requires logits != []
      ensures t.index < |logits| && t.score == logits[t.index]
      ensures forall j :: 0 <= j < |logits| ==> logits[j] <= t.score
      ensures forall j :: 0 <= j < t.index ==> logits[j] < t.score
    {
      ghost var all := Unmasked(logits);
      var best := MaxElement(Unmasked(logits));
      forall j | 0 <= j < |logits|
        ensures logits[j] <= logits[best] && (j < best ==> logits[j] < logits[best])
      {
        assert !Exceeds(all[j], all[best]) && (j < best ==> Exceeds(all[best], all[j]));
      }
      t := Token(best, logits[best]);
    }

    /** Puts the `k` largest values first, in descending order, by `k` rounds of selection. */
    static method SortLargest(p: seq<real>, k: nat) returns (order: seq<nat>)
      requires k <= |p|
      ensures LargestFirst(p, order, k)
    {
      order := seq(|p|, i => i);
      for r := 0 to k
        invariant LargestFirst(p, order, r)
      {
        var m := r;
        for j := r + 1 to |p|
          invariant r <= m < |p|
          invariant forall i :: r <= i < j ==> p[order[i]] <= p[order[m]]
        {
          if p[order[j]] > p[order[m]] {
            m := j;
          }
        }
        order := Swapped(p, order, r, m);
      }
    }

    /** Moving the largest remaining value to position `r` extends the sorted part. */
    static function Swapped(p: seq<real>, order: seq<nat>, r: nat, m: nat): (o: seq<nat>)
      requires LargestFirst(p, order, r) && r <= m < |p|
      requires forall i :: r <= i < |p| ==> p[order[i]] <= p[order[m]]
      ensures LargestFirst(p, o, r + 1)
    {
      order[r := order[m]][m := order[r]]
    }

    /** Masks every logit below the threshold, in place. */
    static method Mask(logits: seq<real>, threshold: real) returns (masked: seq<Logit>)
      ensures |masked| == |logits|
      ensures forall i :: 0 <= i < |logits| ==>
                masked[i] == if logits[i] < threshold then NegInf else Fin(logits[i])
    {
      masked := seq(|logits|, i requires 0 <= i < |logits| => Fin(logits[i]));
      for i := 0 to |logits|
        invariant |masked| == |logits|
        invariant forall j :: 0 <= j < |logits| ==>
                    masked[j] == if j < i && logits[j] < threshold then NegInf else Fin(logits[j])
      {
        if logits[i] < threshold {
          masked := masked[i := NegInf];
        }
      }
    }

    /**
     Top-k sampling. For every draw in [0, 1) the loop returns before its end, with the index
     drawn from the softmax of the logits that have fewer than k strictly above them.
     */
    method TopKSample(logits: seq<real>, draw: real) returns (t: Token, inside: bool)
      requires logits != [] && topK > 0 && Positive(exp) && 0.0 <= draw < 1.0
      ensures var k := if topK < |logits| then topK else |logits|;
              var probs := TopKProbs(exp, logits, k);
              && inside && Drawn(probs, draw, t.index) && t.score == probs[t.index]
              && |Above(logits, logits[t.index])| < k
    {
      var k := if topK < |logits| then topK else |logits|;
      var order := SortLargest(logits, k);
      var masked := Mask(logits, logits[order[k - 1]]);
      MaskedIsTopK(logits, order, k, masked);
      TopKIsFinite(logits, k);
      SoftMaxIsDistribution(exp, masked);
      var probs := SoftMax(exp, masked);
      var i;
      i, inside := Draw(probs, draw);
      var last := LastPositive(probs, |probs|);
      t := Token(i, probs[i]);
    }

    static lemma MaskedIsTopK(logits: seq<real>, order: seq<nat>, k: nat, masked: seq<Logit>)
      requires LargestFirst(logits, order, k) && 1 <= k && |masked| == |logits|
      requires forall i :: 0 <= i < |logits| ==>
                 masked[i] == if logits[i] < logits[order[k - 1]] then NegInf else Fin(logits[i])
      ensures masked == TopK(logits, k)
    {
      forall i | 0 <= i < |logits|
        ensures masked[i] == TopK(logits, k)[i]
      {
        ThresholdExact(logits, order, k, i);
      }
    }

    /**
     Nucleus sampling: the index returned is drawn from the kept ones in proportion to their
     softmax probabilities, and those are the fewest indices that can reach `topP`.
     */
    method TopPSample(logits: seq<real>, topP: real, draw: real)
      returns (t: Token, order: seq<nat>, cutoff: nat, place: nat)
      requires logits != [] && Positive(exp) && topP > 0.0 && 0.0 <= draw < 1.0
      ensures var probs := SoftMaxOf(exp, Unmasked(logits));
              && LargestFirst(probs, order, |probs|) && 1 <= cutoff <= |probs|
              && (topP <= 1.0 ==> SumIn(probs, Listed(order, cutoff), |probs|) >= topP)
              && (forall s: set<nat> :: Below(s, |probs|) && |s| < cutoff ==> SumIn(probs, s, |probs|) < topP)
              && place < cutoff && t == Token(order[place], probs[order[place]])
              && SumTo(Prefix(probs, order, cutoff), cutoff) > 0.0
              && Drawn(Normalized(Prefix(probs, order, cutoff)), draw, place)
    {
      SoftMaxIsDistribution(exp, Unmasked(logits));
      var probs := SoftMax(exp, Unmasked(logits));
      order := SortLargest(probs, |probs|);
      var cum;
      cutoff, cum := Cutoff(probs, order, topP);
      NucleusOptimal(probs, order, topP, cutoff);
      place := DrawKept(probs, order, cutoff, cum, draw);
      t := Token(order[place], probs[order[place]]);
    }

    /** The probabilities of the kept entries, largest first. */
    static function Prefix(p: seq<real>, order: seq<nat>, cutoff: nat): (q: seq<real>)
      requires Permutes(p, order) && cutoff <= |p|
      ensures |q| == cutoff && forall j :: 0 <= j < cutoff ==> q[j] == p[order[j]]
    {
      seq(cutoff, j requires 0 <= j < cutoff => p[order[j]])
    }

    /** The running sum up to the first entry that reaches `topP`. */
    static method Cutoff(p: seq<real>, order: seq<nat>, topP: real) returns (cutoff: nat, cum: real)
      requires p != [] && Permutes(p, order)
      ensures IsCutoff(p, order, topP, cutoff) && cum == ListedSum(p, order, cutoff)
    {
      cum := 0.0;
      for i := 0 to |p|
        invariant cum == ListedSum(p, order, i)
        invariant forall k :: 1 <= k <= i ==> ListedSum(p, order, k) < topP
      {
        cum := cum + p[order[i]];
        if cum >= topP {
          return i + 1, cum;
        }
      }
      cutoff := |p|;
    }

    /** Draws among the kept entries with weights that sum to one. */
    static method DrawKept(p: seq<real>, order: seq<nat>, cutoff: nat, cum: real, draw: real) returns (i: nat)
      requires Distribution(p) && LargestFirst(p, order, |p|) && 1 <= cutoff <= |p|
      requires cum == ListedSum(p, order, cutoff) && draw < 1.0
      ensures SumTo(Prefix(p, order, cutoff), cutoff) > 0.0
      ensures i < cutoff && Drawn(Normalized(Prefix(p, order, cutoff)), draw, i)
    {
      var listed := Prefix(p, order, cutoff);
      ListedSumIsSumTo(p, order, cutoff, listed);
      LargestIsPositive(p, order);
      SumPositive(listed, 0, cutoff);
      NormalizedIsDistribution(listed);
      var weights := Sampling.DivideAll(listed, cum);
      assert weights == Normalized(listed);
      var inside;
      i, inside := Draw(weights, draw);
      var last := LastPositive(weights, |weights|);
    }

    static lemma {:induction false} ListedSumIsSumTo(p: seq<real>, order: seq<nat>, n: nat, listed: seq<real>)
      requires Permutes(p, order) && n <= |listed| <= |order|
      requires forall j :: 0 <= j < |listed| ==> listed[j] == p[order[j]]
      ensures ListedSum(p, order, n) == SumTo(listed, n)
    {
      if n > 0 {
        ListedSumIsSumTo(p, order, n - 1, listed);
      }
    }

    /** The largest probability is positive. */
    static lemma LargestIsPositive(p: seq<real>, order: seq<nat>)
      requires Distribution(p) && LargestFirst(p, order, |p|)
      ensures p[order[0]] > 0.0
    {
      var i := LastPositive(p, |p|);
      var j := PositionOf(p, order, i);
    }

    /**
     Dispatch: nothing to choose from; top-k, drawn from the softmax of the kept logits after
     scaling; or the first largest logit. Which logits are kept or largest does not depend
     on the temperature.
     */
    method Sample(logits: seq<real>, draw: real) returns (t: Token)
      requires Positive(exp) && 0.0 <= draw < 1.0
      ensures logits == [] ==> t == Token(0, 0.0)
      ensures logits != [] ==> t.index < |logits|
      ensures logits != [] && topK > 0 ==>
                var k := if topK < |logits| then topK else |logits|;
                var probs := TopKProbs(exp, Scaled(logits, temp), k);
                && Drawn(probs, draw, t.index) && t.score == probs[t.index]
                && |Above(logits, logits[t.index])| < k
      ensures logits != [] && topK == 0 ==>
                && t.score == Scaled(logits, temp)[t.index]
                && Above(logits, logits[t.index]) == {}
                && forall j :: 0 <= j < t.index ==> logits[j] < logits[t.index]
    {
      if |logits| == 0 {
        return Token(0, 0.0);
      }
      var scaled := Scale(logits);
      if topK > 0 {
        var inside;
        t, inside := TopKSample(scaled, draw);
        ScaledAbove(logits, temp, t.index);
      } else {
        t := Greedy(scaled);
        ScaledAbove(logits, temp, t.index);
        ScaledFirst(logits, temp, t.index);
      }
    }

    /** Divides by the temperature when it is positive. */
    method Scale(logits: seq<real>) returns (scaled: seq<real>)
      ensures scaled == Scaled(logits, temp)
    {
      scaled := logits;
      if temp > 0.0 {
        for i := 0 to |logits|
          invariant |scaled| == |logits|
          invariant forall j :: 0 <= j < |logits| ==> scaled[j] == if j < i then logits[j] / temp else logits[j]
        {
          scaled := scaled[i := scaled[i] / temp];
        }
      }
      assert scaled == Scaled(logits, temp);
    }
  }

  function Scaled(logits: seq<real>, temp: real): (scaled: seq<real>)
    ensures |scaled| == |logits|
  {
    if temp > 0.0 then Divided(logits, temp) else logits
  }

  lemma ScaledAbove(logits: seq<real>, temp: real, i: nat)
    requires i < |logits|
    ensures Above(Scaled(logits, temp), Scaled(logits, temp)[i]) == Above(logits, logits[i])
  {
    if temp > 0.0 {
      ScalingKeepsAbove(logits, Scaled(logits, temp), temp, i);
    }
  }

  /** A first largest logit after scaling is one before. */
  lemma ScaledFirst(logits: seq<real>, temp: real, i: nat)
    requires i < |logits|
    requires forall j :: 0 <= j < i ==> Scaled(logits, temp)[j] < Scaled(logits, temp)[i]
    ensures forall j :: 0 <= j < i ==> logits[j] < logits[i]
  {
    forall j | 0 <= j < i
      ensures logits[j] < logits[i]
    {
      assert Scaled(logits, temp)[j] < Scaled(logits, temp)[i];
      if temp > 0.0 {
        DivideOrder(logits[i], logits[j], temp);
      }
    }
  }

  /**
   What the temperature does: the probabilities that `Sample` draws from stand in the ratio of
   the exponential of the difference of the logits divided by a positive temperature, and
   of the difference itself at any other temperature.
   */
  lemma TemperatureRatio(exp: Exp, logits: seq<real>, temp: real, k: nat, i: nat, j: nat)
    requires Positive(exp) && Multiplicative(exp) && k > 0 && i < |logits| && j < |logits|
    requires |Above(logits, logits[i])| < k && |Above(logits, logits[j])| < k
    ensures var probs := TopKProbs(exp, Scaled(logits, temp), k);
            var d := logits[i] - logits[j];
            probs[i] == probs[j] * exp(if temp > 0.0 then d / temp else d)
  {
    ScaledAbove(logits, temp, i);
    ScaledAbove(logits, temp, j);
    TopKRatio(exp, Scaled(logits, temp), k, i, j);
    if temp > 0.0 {
      DivideDifference(logits[i], logits[j], temp);
    }
  }

  lemma DivideDifference(x: real, y: real, t: real)
    requires t != 0.0
    ensures x / t - y / t == (x - y) / t
  {
    var p, q := x / t, y / t;
    assert x == p * t && y == q * t;
    assert x - y == (p - q) * t;
  }
}

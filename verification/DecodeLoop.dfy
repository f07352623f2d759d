/**
 The decode loop as a specification: which tokens a run feeds at which positions under which
 mask, what it samples, and the events it sends.
 */
module DecodeLoop {
  import opened Bytes
  import E = Events

  // ---------- positions and masks ----------

  /** `n` consecutive positions from `past` on. */
  function Iota(past: nat, n: nat): (ps: seq<int>)
    ensures |ps| == n && forall q :: 0 <= q < n ==> ps[q] == past + q
  {
    seq(n, q => past + q)
  }

  /** The mask row of one position: it sees the keys up to itself. */
  function CausalRow(pos: int, maxLen: nat): (row: seq<bool>)
    ensures |row| == maxLen && forall k :: 0 <= k < maxLen ==> (row[k] <==> k <= pos)
  {
    seq(maxLen, k => k <= pos)
  }

  /** The mask of `n` positions from `past` on, row after row. */
  function CausalMask(past: nat, n: nat, maxLen: nat): (mask: seq<bool>) {
    if n == 0 then [] else CausalMask(past, n - 1, maxLen) + CausalRow(past + n - 1, maxLen)
  }

  lemma {:induction false} CausalMaskAt(past: nat, n: nat, maxLen: nat, q: nat, k: nat)
    requires q < n && k < maxLen
    ensures |CausalMask(past, n, maxLen)| == n * maxLen
    ensures q * maxLen + k < n * maxLen
    ensures CausalMask(past, n, maxLen)[q * maxLen + k] <==> k <= past + q
  {
    MaskLength(past, n, maxLen);
    MaskLength(past, n - 1, maxLen);
    assert n * maxLen == (n - 1) * maxLen + maxLen;
    if q < n - 1 {
      CausalMaskAt(past, n - 1, maxLen, q, k);
    }
  }

  lemma {:induction false} MaskLength(past: nat, n: nat, maxLen: nat)
    ensures |CausalMask(past, n, maxLen)| == n * maxLen
  {
    if n > 0 {
      MaskLength(past, n - 1, maxLen);
      assert n * maxLen == (n - 1) * maxLen + maxLen;
    }
  }

  lemma IotaJoins(past: nat, a: nat, b: nat)
    ensures Iota(past, a) + Iota(past + a, b) == Iota(past, a + b)
  {
  }

  /** Two masks of adjacent ranges are the mask of the whole range. */
  lemma {:induction false} MaskJoins(past: nat, a: nat, b: nat, maxLen: nat)
    ensures CausalMask(past, a, maxLen) + CausalMask(past + a, b, maxLen) == CausalMask(past, a + b, maxLen)
  {
    if b == 0 {
      assert CausalMask(past, a, maxLen) + [] == CausalMask(past, a, maxLen);
    } else {
      MaskJoins(past, a, b - 1, maxLen);
      Assoc(CausalMask(past, a, maxLen), CausalMask(past + a, b - 1, maxLen), CausalRow(past + a + b - 1, maxLen));
    }
  }

  // ---------- the rounds of a run ----------

  /** The tensors a successful compute ran on, and the token count its graph was built for. */
  datatype Inputs = Inputs(tokens: seq<nat>, positions: seq<int>, mask: seq<bool>, graphTokens: nat)

  /** One `predict` call; None when the graph could not be prepared. */
  datatype Feed = Feed(tokens: seq<nat>, past: nat, computed: Option<Inputs>)

  /**
   What surrounds a run: the network with the sampler, which draw a token in a round from
   the inputs computed on, and whether the scheduler can prepare a graph in a round.
   */
  datatype Network = Network(draw: (nat, Inputs) -> nat, reserve: nat -> bool)

  /** A run's prompt, the cache length, and the token count of a graph that was ready before. */
  datatype Setting = Setting(prompt: seq<nat>, maxLen: nat, ready: Option<nat>, net: Network)

  /** What a compute must have been given. */
  function InputsFor(tokens: seq<nat>, past: nat, maxLen: nat): (i: Inputs) {
    Inputs(tokens, Iota(past, |tokens|), CausalMask(past, |tokens|, maxLen), |tokens|)
  }

  /** The tokens fed after these samples: the prompt first, then the token sampled last. */
  function FedTokens(prompt: seq<nat>, sampled: seq<nat>): (tokens: seq<nat>) {
    if sampled == [] then prompt else [sampled[|sampled| - 1]]
  }

  /** How many tokens earlier rounds have fed. */
  function PastTokens(prompt: seq<nat>, rounds: nat): (past: nat) {
    if rounds == 0 then 0 else |prompt| + (rounds - 1)
  }

  /** The token count of the graph that is ready after these rounds, if one is. */
  function ReadyAfter(st: Setting, feeds: seq<Feed>): (ready: Option<nat>) {
    if feeds == [] then st.ready
    else
      var last := feeds[|feeds| - 1];
      if last.computed.Some? then Some(|last.tokens|) else None
  }

  /** A call computes if a graph of the right size is ready or one can be prepared. */
  function Computed(ready: Option<nat>, reserveOk: bool, tokens: seq<nat>, past: nat, maxLen: nat)
    : (c: Option<Inputs>)
  {
    if ready == Some(|tokens|) || reserveOk then Some(InputsFor(tokens, past, maxLen)) else None
  }

  /** What `predict` does with these tokens after these rounds. */
  function FeedOf(st: Setting, feeds: seq<Feed>, tokens: seq<nat>, past: nat): (f: Feed) {
    Feed(tokens, past, Computed(ReadyAfter(st, feeds), st.net.reserve(|feeds|), tokens, past, st.maxLen))
  }

  /** The token drawn from the inputs of a round; a round without logits samples token 0. */
  function SampledFrom(net: Network, round: nat, f: Feed): (token: nat) {
    if f.computed.Some? then net.draw(round, f.computed.value) else 0
  }

  /** These are the rounds of a run and the tokens sampled in them. */
  ghost predicate Follows(st: Setting, sampled: seq<nat>, feeds: seq<Feed>) {
    && |sampled| == |feeds|
    && (feeds != [] ==>
          var n := |feeds| - 1;
          && Follows(st, sampled[..n], feeds[..n])
          && feeds[n] == FeedOf(st, feeds[..n], FedTokens(st.prompt, sampled[..n]), PastTokens(st.prompt, n))
          && sampled[n] == SampledFrom(st.net, n, feeds[n]))
  }

  /** The token of round `j` is the one drawn in it from the inputs computed on; 0 where nothing was. */
  ghost predicate TokenIsDrawn(net: Network, sampled: seq<nat>, feeds: seq<Feed>, j: nat) {
    j < |feeds| && j < |sampled| ==>
      sampled[j] == match feeds[j].computed case Some(inputs) => net.draw(j, inputs) case None => 0
  }

  ghost predicate TokensAreDrawn(net: Network, sampled: seq<nat>, feeds: seq<Feed>) {
    |sampled| == |feeds| && forall j: nat :: TokenIsDrawn(net, sampled, feeds, j)
  }

  lemma {:induction false} SampledExactly(st: Setting, sampled: seq<nat>, feeds: seq<Feed>)
    requires Follows(st, sampled, feeds)
    ensures TokensAreDrawn(st.net, sampled, feeds)
  {
    if feeds != [] {
      var n := |feeds| - 1;
      SampledExactly(st, sampled[..n], feeds[..n]);
      forall j: nat | j < n
        ensures TokenIsDrawn(st.net, sampled, feeds, j)
      {
        assert TokenIsDrawn(st.net, sampled[..n], feeds[..n], j);
      }
    }
  }

  /**
   A round computes if and only if the scheduler can prepare a graph or the graph of the
   round before has the right size; the first round may find one from before the run.
   */
  lemma GraphReuse(st: Setting, sampled: seq<nat>, feeds: seq<Feed>, j: nat)
    requires Follows(st, sampled, feeds) && j < |feeds|
    ensures feeds[j].computed.Some? <==>
              || st.net.reserve(j)
              || (j == 0 && st.ready == Some(|feeds[0].tokens|))
              || (j > 0 && feeds[j - 1].computed.Some? && |feeds[j - 1].tokens| == |feeds[j].tokens|)
  {
    FollowsPrefix(st, sampled, feeds, j + 1);
    assert feeds[..j + 1][..j] == feeds[..j] && feeds[..j + 1][j] == feeds[j];
    if j > 0 {
      assert feeds[..j][j - 1] == feeds[j - 1];
    }
  }

  /** The loop's variables after these rounds: what to feed next, and how much was fed before. */
  ghost predicate Fits(st: Setting, sampled: seq<nat>, feeds: seq<Feed>, tokens: seq<nat>, past: nat) {
    Follows(st, sampled, feeds) && tokens == FedTokens(st.prompt, sampled) && past == PastTokens(st.prompt, |sampled|)
  }

  lemma FitsNext(st: Setting, sampled: seq<nat>, feeds: seq<Feed>, tokens: seq<nat>, past: nat)
    requires Fits(st, sampled, feeds, tokens, past)
    ensures var f := FeedOf(st, feeds, tokens, past);
            var token := SampledFrom(st.net, |feeds|, f);
            Fits(st, sampled + [token], feeds + [f], [token], past + |tokens|)
  {
    var f := FeedOf(st, feeds, tokens, past);
    assert (sampled + [SampledFrom(st.net, |feeds|, f)])[..|sampled|] == sampled;
    assert (feeds + [f])[..|feeds|] == feeds;
  }

  function AllTokens(feeds: seq<Feed>): (tokens: seq<nat>) {
    if feeds == [] then [] else AllTokens(feeds[..|feeds| - 1]) + feeds[|feeds| - 1].tokens
  }

  function AllPositions(feeds: seq<Feed>): (ps: seq<int>)
    requires AllComputed(feeds)
  {
    if feeds == [] then [] else AllPositions(feeds[..|feeds| - 1]) + feeds[|feeds| - 1].computed.value.positions
  }

  function AllMasks(feeds: seq<Feed>): (mask: seq<bool>)
    requires AllComputed(feeds)
  {
    if feeds == [] then [] else AllMasks(feeds[..|feeds| - 1]) + feeds[|feeds| - 1].computed.value.mask
  }

  predicate AllComputed(feeds: seq<Feed>) {
    feeds != [] ==> AllComputed(feeds[..|feeds| - 1]) && feeds[|feeds| - 1].computed.Some?
  }

  /** Each round starts where the ones before it ended. */
  lemma {:induction false} FedInOrder(st: Setting, sampled: seq<nat>, feeds: seq<Feed>)
    requires Follows(st, sampled, feeds)
    ensures feeds != [] ==> AllTokens(feeds) == st.prompt + sampled[..|feeds| - 1]
    ensures |AllTokens(feeds)| == PastTokens(st.prompt, |feeds|)
  {
    if feeds != [] {
      var n := |feeds| - 1;
      FedInOrder(st, sampled[..n], feeds[..n]);
      if n == 0 {
        assert AllTokens(feeds[..0]) == [] && st.prompt + sampled[..0] == st.prompt;
      } else {
        assert sampled[..n] == sampled[..n - 1] + [sampled[n - 1]];
        assert sampled[..n][..n - 1] == sampled[..n - 1];
        Assoc(st.prompt, sampled[..n - 1], [sampled[n - 1]]);
      }
    }
  }

  lemma {:induction false} PositionsJoin(st: Setting, sampled: seq<nat>, feeds: seq<Feed>)
    requires Follows(st, sampled, feeds) && AllComputed(feeds)
    ensures AllPositions(feeds) == Iota(0, |AllTokens(feeds)|)
  {
    if feeds != [] {
      var n := |feeds| - 1;
      var a, b := feeds[n].past, |feeds[n].tokens|;
      FedInOrder(st, sampled[..n], feeds[..n]);
      calc {
        AllPositions(feeds);
        AllPositions(feeds[..n]) + Iota(a, b);
        { PositionsJoin(st, sampled[..n], feeds[..n]); }
        Iota(0, a) + Iota(a, b);
        { IotaJoins(0, a, b); }
        Iota(0, a + b);
      }
    }
  }

  lemma {:induction false} MasksJoin(st: Setting, sampled: seq<nat>, feeds: seq<Feed>)
    requires Follows(st, sampled, feeds) && AllComputed(feeds)
    ensures AllMasks(feeds) == CausalMask(0, |AllTokens(feeds)|, st.maxLen)
  {
    if feeds != [] {
      var n := |feeds| - 1;
      var a, b := feeds[n].past, |feeds[n].tokens|;
      FedInOrder(st, sampled[..n], feeds[..n]);
      calc {
        AllMasks(feeds);
        AllMasks(feeds[..n]) + CausalMask(a, b, st.maxLen);
        { MasksJoin(st, sampled[..n], feeds[..n]); }
        CausalMask(0, a, st.maxLen) + CausalMask(a, b, st.maxLen);
        { MaskJoins(0, a, b, st.maxLen); }
        CausalMask(0, a + b, st.maxLen);
      }
    }
  }

  /** Every stretch of rounds from the first on is a run of its own. */
  lemma {:induction false} FollowsPrefix(st: Setting, sampled: seq<nat>, feeds: seq<Feed>, j: nat)
    requires Follows(st, sampled, feeds) && j <= |feeds|
    ensures Follows(st, sampled[..j], feeds[..j])
  {
    var n := |feeds| - 1;
    if j <= n {
      FollowsPrefix(st, sampled[..n], feeds[..n], j);
      assert sampled[..n][..j] == sampled[..j] && feeds[..n][..j] == feeds[..j];
    } else {
      assert sampled[..j] == sampled && feeds[..j] == feeds;
    }
  }

  /** The tokens of a round stand right behind those of the rounds before it. */
  lemma {:induction false} TokensAt(feeds: seq<Feed>, j: nat)
    requires j < |feeds|
    ensures var past, n := |AllTokens(feeds[..j])|, |feeds[j].tokens|;
            past + n <= |AllTokens(feeds)| && AllTokens(feeds)[past..past + n] == feeds[j].tokens
  {
    var n := |feeds| - 1;
    if j < n {
      TokensAt(feeds[..n], j);
      assert feeds[..n][..j] == feeds[..j];
    }
  }

  lemma IotaSlice(past: nat, n: nat, all: nat)
    requires past + n <= all
    ensures Iota(0, all)[past..past + n] == Iota(past, n)
  {
  }

  /** Rows `past` to `past + n` of a full mask. */
  lemma MaskRows(past: nat, n: nat, all: nat, maxLen: nat)
    requires past + n <= all
    ensures past * maxLen <= (past + n) * maxLen <= all * maxLen == |CausalMask(0, all, maxLen)|
    ensures CausalMask(0, all, maxLen)[past * maxLen..(past + n) * maxLen] == CausalMask(past, n, maxLen)
  {
    var a, b := CausalMask(0, past, maxLen), CausalMask(past, n, maxLen);
    var c := CausalMask(past + n, all - past - n, maxLen);
    MaskJoins(0, past, n, maxLen);
    MaskJoins(0, past + n, all - past - n, maxLen);
    MaskLength(0, past, maxLen);
    MaskLength(past, n, maxLen);
    MaskLength(past + n, all - past - n, maxLen);
    MaskLength(0, all, maxLen);
    assert (past + n) * maxLen == past * maxLen + n * maxLen;
    assert (a + b + c)[|a|..|a| + |b|] == b;
  }

  /**
   Incremental decoding agrees with one pass over everything, in every run: the rounds feed
   the prompt and then each sampled token, and each round that computes does so on a graph
   of its own size, with the positions and the mask rows that its tokens have in the pass
   over all of them. A round whose graph could not be prepared leaves no gap.
   */
  lemma IncrementalIsOneShot(st: Setting, sampled: seq<nat>, feeds: seq<Feed>, j: nat)
    requires Follows(st, sampled, feeds) && j < |feeds| && feeds[j].computed.Some?
    ensures AllTokens(feeds) == st.prompt + sampled[..|feeds| - 1]
    ensures var inputs, past, n, all :=
              feeds[j].computed.value, |AllTokens(feeds[..j])|, |feeds[j].tokens|, |AllTokens(feeds)|;
            && past + n <= all && inputs.graphTokens == n
            && inputs.tokens == AllTokens(feeds)[past..past + n]
            && inputs.positions == Iota(0, all)[past..past + n]
            && past * st.maxLen <= (past + n) * st.maxLen <= |CausalMask(0, all, st.maxLen)|
            && inputs.mask == CausalMask(0, all, st.maxLen)[past * st.maxLen..(past + n) * st.maxLen]
  {
    FedInOrder(st, sampled, feeds);
    FedAt(st, sampled, feeds, j);
    TokensAt(feeds, j);
    IotaSlice(|AllTokens(feeds[..j])|, |feeds[j].tokens|, |AllTokens(feeds)|);
    MaskRows(|AllTokens(feeds[..j])|, |feeds[j].tokens|, |AllTokens(feeds)|, st.maxLen);
  }

  /** What a computing round ran on: its own tokens, at the positions after those fed before. */
  lemma FedAt(st: Setting, sampled: seq<nat>, feeds: seq<Feed>, j: nat)
    requires Follows(st, sampled, feeds) && j < |feeds| && feeds[j].computed.Some?
    ensures feeds[j].computed.value == InputsFor(feeds[j].tokens, |AllTokens(feeds[..j])|, st.maxLen)
  {
    FollowsPrefix(st, sampled, feeds, j + 1);
    assert feeds[..j + 1][..j] == feeds[..j] && sampled[..j + 1][..j] == sampled[..j];
    FedInOrder(st, sampled[..j], feeds[..j]);
  }

  /** A scheduler that can always prepare a graph lets every round compute. */
  lemma {:induction false} ReservedComputes(st: Setting, sampled: seq<nat>, feeds: seq<Feed>)
    requires Follows(st, sampled, feeds) && forall j :: 0 <= j < |feeds| ==> st.net.reserve(j)
    ensures AllComputed(feeds)
  {
    if feeds != [] {
      ReservedComputes(st, sampled[..|feeds| - 1], feeds[..|feeds| - 1]);
    }
  }

  /** Then all rounds together are the one pass: positions 0, 1, 2, ... and the full causal mask. */
  lemma ReservedIsOneShot(st: Setting, sampled: seq<nat>, feeds: seq<Feed>)
    requires feeds != [] && Follows(st, sampled, feeds) && forall j :: 0 <= j < |feeds| ==> st.net.reserve(j)
    ensures AllComputed(feeds)
    ensures var all := st.prompt + sampled[..|feeds| - 1];
            && AllTokens(feeds) == all && AllPositions(feeds) == Iota(0, |all|)
            && AllMasks(feeds) == CausalMask(0, |all|, st.maxLen)
  {
    ReservedComputes(st, sampled, feeds);
    FedInOrder(st, sampled, feeds);
    PositionsJoin(st, sampled, feeds);
    MasksJoin(st, sampled, feeds);
  }

  // ---------- the events of a run ----------

  /** What a run is given. */
  datatype Request = Request(length: nat, prompt: seq<nat>, maxTokens: nat, decode: nat -> Text, isStop: Text -> bool)

  function Texts(decode: nat -> Text, ids: seq<nat>): (texts: Text) {
    if ids == [] then [] else Texts(decode, ids[..|ids| - 1]) + decode(ids[|ids| - 1])
  }

  /** The tokens of these ids as events, numbered from 0. */
  function Generations(decode: nat -> Text, ids: seq<nat>): (es: seq<E.Event>) {
    if ids == [] then []
    else
      var n := |ids| - 1;
      Generations(decode, ids[..n]) + [E.Event.TokenGenerated(n, decode(ids[n]))]
  }

  function PrefillEvents(count: nat): (es: seq<E.Event>) {
    [E.Event.PrefillStarted(count), E.Event.PrefillCompleted(count)]
  }

  lemma PrefillJoins(trace: seq<E.Event>, count: nat)
    ensures trace + [E.Event.PrefillStarted(count)] + [E.Event.PrefillCompleted(count)] == trace + PrefillEvents(count)
    ensures trace + [] == trace
  {
  }

  /** The events before any token, once `rounds` rounds have begun. */
  function Opening(r: Request, rounds: nat): (es: seq<E.Event>) {
    var base := [E.Event.TokenizerStarted(r.length), E.Event.TokenizerCompleted(|r.prompt|)];
    if rounds > 0 then base + PrefillEvents(|r.prompt|) else base
  }

  predicate NoneStops(r: Request, ids: seq<nat>) {
    ids != [] ==> NoneStops(r, ids[..|ids| - 1]) && !r.isStop(r.decode(ids[|ids| - 1]))
  }

  /** The run has ended with a stop token, the last one sampled. */
  predicate EndsInStop(r: Request, sampled: seq<nat>) {
    sampled != [] && r.isStop(r.decode(sampled[|sampled| - 1]))
  }

  /** The sampled ids that become output. */
  function Kept(r: Request, sampled: seq<nat>): (ids: seq<nat>) {
    if EndsInStop(r, sampled) then sampled[..|sampled| - 1] else sampled
  }

  function Completion(r: Request, sampled: seq<nat>): (e: E.Event) {
    if EndsInStop(r, sampled) then E.Event.GenerationCompleted(E.Eos, Some(|sampled| - 1))
    else E.Event.GenerationCompleted(E.MaxTokens, None)
  }

  /**
   A completed run: only the last sampled id may be a stop token. The run ends there, or
   after `maxTokens` rounds; its events are the opening ones, one per token kept, and
   exactly one completion.
   */
  ghost predicate CompletedRun(r: Request, sampled: seq<nat>, output: Text, trace: seq<E.Event>) {
    && |sampled| <= r.maxTokens && (!EndsInStop(r, sampled) ==> |sampled| == r.maxTokens)
    && NoneStops(r, Kept(r, sampled))
    && output == Texts(r.decode, Kept(r, sampled))
    && trace == Opening(r, r.maxTokens) + Generations(r.decode, Kept(r, sampled)) + [Completion(r, sampled)]
  }

  lemma {:induction false} NoneStopsAt(r: Request, ids: seq<nat>)
    ensures NoneStops(r, ids) <==> forall j :: 0 <= j < |ids| ==> !r.isStop(r.decode(ids[j]))
  {
    if ids != [] {
      var n := |ids| - 1;
      NoneStopsAt(r, ids[..n]);
      assert forall j :: 0 <= j < n ==> ids[..n][j] == ids[j];
    }
  }

  lemma {:induction false} GenerationsAt(decode: nat -> Text, ids: seq<nat>)
    ensures |Generations(decode, ids)| == |ids|
    ensures forall j :: 0 <= j < |ids| ==> Generations(decode, ids)[j] == E.Event.TokenGenerated(j, decode(ids[j]))
  {
    if ids != [] {
      var n := |ids| - 1;
      GenerationsAt(decode, ids[..n]);
      assert forall j :: 0 <= j < n ==> ids[..n][j] == ids[j];
    }
  }

  lemma {:induction false} TextsFlatten(decode: nat -> Text, ids: seq<nat>)
    ensures Texts(decode, ids) == Flatten(seq(|ids|, j requires 0 <= j < |ids| => decode(ids[j])))
  {
    var all := seq(|ids|, j requires 0 <= j < |ids| => decode(ids[j]));
    if ids != [] {
      var n := |ids| - 1;
      TextsFlatten(decode, ids[..n]);
      assert all == seq(n, j requires 0 <= j < n => decode(ids[..n][j])) + [decode(ids[n])];
      FlattenSnoc(seq(n, j requires 0 <= j < n => decode(ids[..n][j])), decode(ids[n]));
    }
  }

  /** The first events are the tokenizer's start and end; a prefill pair follows if a token may be generated. */
  lemma OpeningExactly(r: Request)
    ensures |Opening(r, r.maxTokens)| == if r.maxTokens > 0 then 4 else 2
    ensures Opening(r, r.maxTokens)[0] == E.Event.TokenizerStarted(r.length)
    ensures Opening(r, r.maxTokens)[1] == E.Event.TokenizerCompleted(|r.prompt|)
    ensures r.maxTokens > 0 ==>
              && Opening(r, r.maxTokens)[2] == E.Event.PrefillStarted(|r.prompt|)
              && Opening(r, r.maxTokens)[3] == E.Event.PrefillCompleted(|r.prompt|)
  {
  }

  lemma TraceParts(opening: seq<E.Event>, tokens: seq<E.Event>, last: E.Event)
    ensures var trace := opening + tokens + [last];
            && (forall i :: 0 <= i < |opening| ==> trace[i] == opening[i])
            && (forall j :: 0 <= j < |tokens| ==> trace[|opening| + j] == tokens[j])
            && trace[|opening| + |tokens|] == last
  {
  }

  /** The tokens before a stop token, or all of them: how many there are, and how the run ended. */
  lemma RunEnds(r: Request, sampled: seq<nat>, output: Text, trace: seq<E.Event>) returns (m: nat)
    requires CompletedRun(r, sampled, output, trace)
    ensures m <= |sampled| <= r.maxTokens
    ensures forall j :: 0 <= j < m ==> !r.isStop(r.decode(sampled[j]))
    ensures m < |sampled| ==> m + 1 == |sampled| && r.isStop(r.decode(sampled[m]))
    ensures m == |sampled| ==> m == r.maxTokens
    ensures m == |Kept(r, sampled)| && Kept(r, sampled) == sampled[..m]
    ensures Completion(r, sampled) == if m < |sampled| then E.Event.GenerationCompleted(E.Eos, Some(m))
                                      else E.Event.GenerationCompleted(E.MaxTokens, None)
  {
    m := |Kept(r, sampled)|;
    assert Kept(r, sampled) == sampled[..m];
    NoneStopsAt(r, sampled[..m]);
    forall j | 0 <= j < m
      ensures !r.isStop(r.decode(sampled[j]))
    {
      assert sampled[..m][j] == sampled[j];
    }
  }

  /**
   A completed run, event by event: tokenizer start and end; one prefill pair if a token may
   be generated; then the `m` tokens before a stop token, numbered from 0; then exactly one
   completion, which says whether a stop token was sampled or the limit was reached. The
   output is those tokens' texts in order.
   */
  lemma CompletedRunExactly(r: Request, sampled: seq<nat>, output: Text, trace: seq<E.Event>)
    returns (m: nat, first: nat)
    requires CompletedRun(r, sampled, output, trace)
    ensures m <= |sampled| <= r.maxTokens && first == if r.maxTokens > 0 then 4 else 2
    ensures m < |sampled| ==> m + 1 == |sampled| && r.isStop(r.decode(sampled[m]))
    ensures m == |sampled| ==> m == r.maxTokens
    ensures |trace| == first + m + 1
    ensures trace[0] == E.Event.TokenizerStarted(r.length) && trace[1] == E.Event.TokenizerCompleted(|r.prompt|)
    ensures r.maxTokens > 0 ==>
              trace[2] == E.Event.PrefillStarted(|r.prompt|) && trace[3] == E.Event.PrefillCompleted(|r.prompt|)
    ensures forall j :: 0 <= j < m ==>
              && trace[first + j] == E.Event.TokenGenerated(j, r.decode(sampled[j]))
              && !r.isStop(r.decode(sampled[j]))
    ensures trace[first + m] == if m < |sampled| then E.Event.GenerationCompleted(E.Eos, Some(m))
                                else E.Event.GenerationCompleted(E.MaxTokens, None)
    ensures output == Flatten(seq(m, j requires 0 <= j < m => r.decode(sampled[j])))
  {
    m := RunEnds(r, sampled, output, trace);
    first := |Opening(r, r.maxTokens)|;
    OpeningExactly(r);
    TraceParts(Opening(r, r.maxTokens), Generations(r.decode, sampled[..m]), Completion(r, sampled));
    KeptExactly(r.decode, sampled, m);
  }

  /** The events and the texts of the first `m` ids. */
  lemma KeptExactly(decode: nat -> Text, sampled: seq<nat>, m: nat)
    requires m <= |sampled|
    ensures |Generations(decode, sampled[..m])| == m
    ensures forall j :: 0 <= j < m ==>
              Generations(decode, sampled[..m])[j] == E.Event.TokenGenerated(j, decode(sampled[j]))
    ensures Texts(decode, sampled[..m]) == Flatten(seq(m, j requires 0 <= j < m => decode(sampled[j])))
  {
    var kept := sampled[..m];
    GenerationsAt(decode, kept);
    TextsFlatten(decode, kept);
    assert seq(m, j requires 0 <= j < m => decode(kept[j])) == seq(m, j requires 0 <= j < m => decode(sampled[j]));
  }

  /** The state of the loop after `|sampled|` rounds without a stop token. */
  ghost predicate Running(r: Request, sampled: seq<nat>, output: Text, trace: seq<E.Event>) {
    && |sampled| <= r.maxTokens && NoneStops(r, sampled)
    && output == Texts(r.decode, sampled)
    && trace == Opening(r, |sampled|) + Generations(r.decode, sampled)
  }

  /** After a round's prefill events, the opening events are complete. */
  lemma RoundOpens(r: Request, sampled: seq<nat>, output: Text, trace: seq<E.Event>)
    requires Running(r, sampled, output, trace) && |sampled| < r.maxTokens
    ensures trace + (if sampled == [] then PrefillEvents(|r.prompt|) else [])
         == Opening(r, r.maxTokens) + Generations(r.decode, sampled)
  {
    var base := Opening(r, 0);
    if sampled == [] {
      NothingMore(base);
      NothingMore(base + PrefillEvents(|r.prompt|));
    } else {
      NothingMore(trace);
    }
  }

  lemma RoundContinues(r: Request, sampled: seq<nat>, output: Text, trace: seq<E.Event>,
                       begun: seq<E.Event>, token: nat)
    requires Running(r, sampled, output, trace) && |sampled| < r.maxTokens && !r.isStop(r.decode(token))
    requires begun == trace + if sampled == [] then PrefillEvents(|r.prompt|) else []
    ensures Running(r, sampled + [token], output + r.decode(token),
                    begun + [E.Event.TokenGenerated(|sampled|, r.decode(token))])
  {
    RoundOpens(r, sampled, output, trace);
    assert (sampled + [token])[..|sampled|] == sampled;
    Assoc(Opening(r, r.maxTokens), Generations(r.decode, sampled),
          [E.Event.TokenGenerated(|sampled|, r.decode(token))]);
  }

  lemma RoundStops(r: Request, sampled: seq<nat>, output: Text, trace: seq<E.Event>, begun: seq<E.Event>, token: nat)
    requires Running(r, sampled, output, trace) && |sampled| < r.maxTokens && r.isStop(r.decode(token))
    requires begun == trace + if sampled == [] then PrefillEvents(|r.prompt|) else []
    ensures CompletedRun(r, sampled + [token], output, begun + [E.Event.GenerationCompleted(E.Eos, Some(|sampled|))])
  {
    RoundOpens(r, sampled, output, trace);
    assert (sampled + [token])[..|sampled|] == sampled;
  }

  lemma RoundsExhausted(r: Request, sampled: seq<nat>, output: Text, trace: seq<E.Event>)
    requires Running(r, sampled, output, trace) && |sampled| == r.maxTokens
    ensures CompletedRun(r, sampled, output, trace + [E.Event.GenerationCompleted(E.MaxTokens, None)])
  {
  }

  /** The events sent so far, and the callback calls they led to. */
  datatype Log = Log(trace: seq<E.Event>, calls: seq<E.Call>)

  /** A group, what its callbacks do, and all the listeners when the run began. */
  datatype Audience = Audience(group: E.Group, effect: E.Effect, start: E.Listeners)

  /** The calls and the listeners are what dispatching the trace, event by event, makes of them. */
  ghost predicate Delivered(a: Audience, log: Log, now: E.Listeners) {
    && now == E.Replay(a.start, a.group, log.trace, a.effect)
    && log.calls == E.Calls(a.start, a.group, log.trace, a.effect)
  }

  lemma DeliveredSnoc(a: Audience, log: Log, now: E.Listeners, e: E.Event)
    requires Delivered(a, log, now)
    ensures Delivered(a, Log(log.trace + [e], log.calls + E.CallsOf(E.Snapshot(now, a.group, E.KindOf(e)), e)),
                      E.Dispatched(now, a.group, e, a.effect))
  {
    assert (log.trace + [e])[..|log.trace|] == log.trace;
  }
}

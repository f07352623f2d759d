/** The inference object: reuse of the compute graph, the input tensors, and the decode loop. */
module Inference {
  import opened Bytes
  import opened DecodeLoop
  import E = Events

  class Inference {
    const maxLen: nat
    const runId: E.Group
    var graphReady: bool
    var cachedNTokens: nat
    // Token count of the graph last built, and the input tensors last filled.
    var graphTokens: nat
    var input: seq<nat>
    var positions: seq<int>
    var mask: seq<bool>

    /** A ready graph is sized for the cached token count. */
    ghost predicate Valid()
      reads this
    {
      graphReady ==> graphTokens == cachedNTokens
    }

    /** The token count of the graph that is ready, if one is. */
    ghost function Ready(): (n: Option<nat>)
      reads this
    {
      if graphReady then Some(cachedNTokens) else None
    }

    constructor (maxLen: nat, runId: E.Group)
      ensures Valid() && Ready() == None && this.maxLen == maxLen && this.runId == runId
    {
      this.maxLen, this.runId := maxLen, runId;
      graphReady, cachedNTokens, graphTokens := false, 0, 0;
      input, positions, mask := [], [], [];
    }

    /** Fills the input tensors of the graph. */
    method SetInputs(tokens: seq<nat>, past: nat)
      modifies this`input, this`positions, this`mask
      ensures input == tokens && positions == Iota(past, |tokens|) && mask == CausalMask(past, |tokens|, maxLen)
    {
      input := tokens;
      var pos := [];
      for i := 0 to |tokens|
        invariant pos == Iota(past, i)
      {
        pos := pos + [past + i];
      }
      positions := pos;
      var data := [];
      for q := 0 to |tokens|
        invariant data == CausalMask(past, q, maxLen)
      {
        var row := [];
        for k := 0 to maxLen
          invariant row == CausalRow(past + q, maxLen)[..k]
        {
          row := row + [k <= past + q];
        }
        data := data + row;
      }
      mask := data;
    }

    /**
     Reuses the graph when it is ready and of the right size, else builds one; returns what
     it computed on, which is always a graph sized to its own tokens.
     */
    method Predict(tokens: seq<nat>, past: nat, reserveOk: bool) returns (computed: Option<Inputs>)
      requires Valid() && tokens != []
      modifies this
      ensures Valid() && Ready() == if computed.Some? then Some(|tokens|) else None
      ensures computed == Computed(old(Ready()), reserveOk, tokens, past, maxLen)
    {
      if !graphReady || |tokens| != cachedNTokens {
        graphReady := false;
        graphTokens := |tokens|;
        if !reserveOk {
          return None;
        }
        cachedNTokens := |tokens|;
        graphReady := true;
      }
      SetInputs(tokens, past);
      computed := Some(Inputs(input, positions, mask, graphTokens));
    }

    /** Sends one event to the listeners of this run. */
    method Emit(e: E.Event, log: Log, dispatcher: E.EventDispatcher, effect: E.Effect, ghost start: E.Listeners)
      returns (log': Log)
      requires dispatcher.Valid() && Delivered(Audience(runId, effect, start), log, dispatcher.listeners)
      modifies dispatcher
      ensures dispatcher.Valid() && Delivered(Audience(runId, effect, start), log', dispatcher.listeners)
      ensures log'.trace == log.trace + [e]
    {
      DeliveredSnoc(Audience(runId, effect, start), log, dispatcher.listeners, e);
      var calls := dispatcher.Dispatch(runId, e, effect);
      log' := Log(log.trace + [e], log.calls + calls);
    }

    /** The events before the loop. */
    method Begin(r: Request, dispatcher: E.EventDispatcher, effect: E.Effect) returns (log: Log)
      requires dispatcher.Valid()
      modifies dispatcher
      ensures dispatcher.Valid() && Running(r, [], [], log.trace)
      ensures Delivered(Audience(runId, effect, old(dispatcher.listeners)), log, dispatcher.listeners)
    {
      ghost var start := dispatcher.listeners;
      log := Emit(E.Event.TokenizerStarted(r.length), Log([], []), dispatcher, effect, start);
      log := Emit(E.Event.TokenizerCompleted(|r.prompt|), log, dispatcher, effect, start);
      NothingMore(Opening(r, 0));
    }

    /** The body of the loop up to the sampled token: prefill events surround the first round only. */
    method Round(round: nat, tokens: seq<nat>, past: nat, net: Network, log: Log,
                 dispatcher: E.EventDispatcher, effect: E.Effect, ghost start: E.Listeners)
      returns (token: nat, log': Log, ghost feed: Feed)
      requires Valid() && tokens != []
      requires dispatcher.Valid() && Delivered(Audience(runId, effect, start), log, dispatcher.listeners)
      modifies this, dispatcher
      ensures Valid() && Ready() == if feed.computed.Some? then Some(|tokens|) else None
      ensures dispatcher.Valid() && Delivered(Audience(runId, effect, start), log', dispatcher.listeners)
      ensures log'.trace == log.trace + if past == 0 then PrefillEvents(|tokens|) else []
      ensures feed == Feed(tokens, past, Computed(old(Ready()), net.reserve(round), tokens, past, maxLen))
      ensures token == match feed.computed case Some(inputs) => net.draw(round, inputs) case None => 0
    {
      PrefillJoins(log.trace, |tokens|);
      log' := log;
      if past == 0 {
        log' := Emit(E.Event.PrefillStarted(|tokens|), log', dispatcher, effect, start);
      }
      var computed := Predict(tokens, past, net.reserve(round));
      if past == 0 {
        log' := Emit(E.Event.PrefillCompleted(|tokens|), log', dispatcher, effect, start);
      }
      token := if computed.Some? then net.draw(round, computed.value) else 0;
      feed := Feed(tokens, past, computed);
    }

    /** The rest of the body: a stop token ends the run, any other becomes output. */
    method Report(r: Request, round: nat, token: nat, output: Text, begun: Log,
                  dispatcher: E.EventDispatcher, effect: E.Effect,
                  ghost start: E.Listeners, ghost sampled: seq<nat>, ghost trace: seq<E.Event>)
      returns (stop: bool, output': Text, log': Log)
      requires dispatcher.Valid() && Delivered(Audience(runId, effect, start), begun, dispatcher.listeners)
      requires |sampled| == round < r.maxTokens && Running(r, sampled, output, trace)
      requires begun.trace == trace + if sampled == [] then PrefillEvents(|r.prompt|) else []
      modifies dispatcher
      ensures dispatcher.Valid() && Delivered(Audience(runId, effect, start), log', dispatcher.listeners)
      ensures if stop then CompletedRun(r, sampled + [token], output', log'.trace)
              else Running(r, sampled + [token], output', log'.trace)
    {
      var text := r.decode(token);
      stop := r.isStop(text);
      if stop {
        RoundStops(r, sampled, output, trace, begun.trace, token);
        log' := Emit(E.Event.GenerationCompleted(E.Eos, Some(round)), begun, dispatcher, effect, start);
        output' := output;
      } else {
        RoundContinues(r, sampled, output, trace, begun.trace, token);
        log' := Emit(E.Event.TokenGenerated(round, text), begun, dispatcher, effect, start);
        output' := output + text;
      }
    }

    /**
     A whole run. Its rounds feed, compute and sample what the specification of the loop
     says; its events are those of a completed run on the tokens sampled; and every event
     has reached the listeners that were registered when it was dispatched.
     */
    method Invoke(r: Request, net: Network, dispatcher: E.EventDispatcher, effect: E.Effect)
      returns (output: Text, log: Log, ghost sampled: seq<nat>, ghost feeds: seq<Feed>)
      requires Valid() && r.prompt != [] && dispatcher.Valid()
      modifies this, dispatcher
      ensures Valid() && dispatcher.Valid()
      ensures CompletedRun(r, sampled, output, log.trace)
      ensures Follows(Setting(r.prompt, maxLen, old(Ready()), net), sampled, feeds)
      ensures TokensAreDrawn(net, sampled, feeds)
      ensures Delivered(Audience(runId, effect, old(dispatcher.listeners)), log, dispatcher.listeners)
    {
      ghost var start, st := dispatcher.listeners, Setting(r.prompt, maxLen, Ready(), net);
      output, sampled, feeds := [], [], [];
      log := Begin(r, dispatcher, effect);
      var tokens, i, stop := r.prompt, 0, false;
      var past: nat := 0;
      while i < r.maxTokens
        invariant 0 <= i == |sampled| <= r.maxTokens && Valid() && Ready() == ReadyAfter(st, feeds)
        invariant dispatcher.Valid() && Delivered(Audience(runId, effect, start), log, dispatcher.listeners)
        invariant Fits(st, sampled, feeds, tokens, past) && Running(r, sampled, output, log.trace)
      {
        var token;
        ghost var feed, trace := FeedOf(st, feeds, tokens, past), log.trace;
        FitsNext(st, sampled, feeds, tokens, past);
        token, log, feed := Round(i, tokens, past, net, log, dispatcher, effect, start);
        stop, output, log := Report(r, i, token, output, log, dispatcher, effect, start, sampled, trace);
        sampled, feeds := sampled + [token], feeds + [feed];
        past := past + |tokens|;
        tokens := [token];
        if stop {
          break;
        }
        i := i + 1;
      }
      if i >= r.maxTokens {
        RoundsExhausted(r, sampled, output, log.trace);
        log := Emit(E.Event.GenerationCompleted(E.MaxTokens, None), log, dispatcher, effect, start);
      }
      SampledExactly(st, sampled, feeds);
    }
  }
}

/**
 The chat handler: it registers one listener per streamed request, which streams every
 generated token and, on completion, the last message, and then removes itself. These are
 the results about a whole request, from the decode loop to the bytes the client reads.
 */
module Serving {
  import opened Bytes
  import opened Chunked
  import opened DecodeLoop
  import E = Events
  import R = Runs
  import S = Streaming

  const KINDS: set<E.Kind> := {E.Kind.GenerationCompleted, E.Kind.TokenGenerated}

  /** What the handler's callback does to the dispatcher. */
  function Unlistens(group: E.Group, e: E.Event): (actions: seq<E.Action>) {
    if e.GenerationCompleted? then [E.Unlisten(group)] else []
  }

  /** The handler's listener is the only one of its group. */
  ghost predicate Registered(a: Audience, c: E.Callback) {
    && a.group in a.start && a.start[a.group] == [E.Listener(c, KINDS)]
    && forall e :: a.effect(c, e) == Unlistens(a.group, e)
  }

  /** What the handler hears of a run: its tokens, then the completion. */
  function Streamed(r: Request, sampled: seq<nat>): (es: seq<E.Event>) {
    Generations(r.decode, Kept(r, sampled)) + [Completion(r, sampled)]
  }

  predicate NoneComplete(trace: seq<E.Event>) {
    forall j :: 0 <= j < |trace| ==> !trace[j].GenerationCompleted?
  }

  lemma HeardSnoc(trace: seq<E.Event>, e: E.Event)
    ensures E.OfKinds(trace + [e], KINDS) == E.OfKinds(trace, KINDS) + if E.KindOf(e) in KINDS then [e] else []
    ensures NoneComplete(trace) && !e.GenerationCompleted? ==> NoneComplete(trace + [e])
  {
    Cut(trace, [e]);
  }

  /** An event of another kind goes unheard. */
  lemma StillUnheard(trace: seq<E.Event>, e: E.Event)
    requires E.OfKinds(trace, KINDS) == [] && NoneComplete(trace) && E.KindOf(e) !in KINDS
    ensures E.OfKinds(trace + [e], KINDS) == [] && NoneComplete(trace + [e])
  {
    HeardSnoc(trace, e);
  }

  lemma {:induction false} GenerationsAreHeard(decode: nat -> Text, ids: seq<nat>, opening: seq<E.Event>)
    requires E.OfKinds(opening, KINDS) == [] && NoneComplete(opening)
    ensures E.OfKinds(opening + Generations(decode, ids), KINDS) == Generations(decode, ids)
    ensures NoneComplete(opening + Generations(decode, ids))
  {
    if ids == [] {
      NothingMore(opening);
    } else {
      var n := |ids| - 1;
      var before, e := Generations(decode, ids[..n]), E.Event.TokenGenerated(n, decode(ids[n]));
      GenerationsAreHeard(decode, ids[..n], opening);
      Assoc(opening, before, [e]);
      HeardSnoc(opening + before, e);
    }
  }

  lemma OpeningIsUnheard(r: Request, rounds: nat)
    ensures E.OfKinds(Opening(r, rounds), KINDS) == [] && NoneComplete(Opening(r, rounds))
  {
    var base := Opening(r, 0);
    StillUnheard([], base[0]);
    StillUnheard([] + [base[0]], base[1]);
    assert [] + [base[0]] + [base[1]] == base;
    if rounds > 0 {
      var prefill := PrefillEvents(|r.prompt|);
      StillUnheard(base, prefill[0]);
      StillUnheard(base + [prefill[0]], prefill[1]);
      PrefillJoins(base, |r.prompt|);
    }
  }

  /** The events of a completed run before its completion. */
  function BeforeCompletion(r: Request, sampled: seq<nat>): (es: seq<E.Event>) {
    Opening(r, r.maxTokens) + Generations(r.decode, Kept(r, sampled))
  }

  /** Of a completed run, the handler's kinds are the tokens and one completion, which comes last. */
  lemma RunIsStreamed(r: Request, sampled: seq<nat>)
    ensures E.OfKinds(BeforeCompletion(r, sampled) + [Completion(r, sampled)], KINDS) == Streamed(r, sampled)
    ensures NoneComplete(BeforeCompletion(r, sampled))
  {
    OpeningIsUnheard(r, r.maxTokens);
    GenerationsAreHeard(r.decode, Kept(r, sampled), Opening(r, r.maxTokens));
    HeardSnoc(BeforeCompletion(r, sampled), Completion(r, sampled));
  }

  /**
   The handler hears every generated token in order and then the completion, each once, and
   its group is gone when the run is over.
   */
  lemma HandlerHears(a: Audience, c: E.Callback, r: Request, sampled: seq<nat>, output: Text,
                     log: Log, now: E.Listeners)
    requires Registered(a, c) && CompletedRun(r, sampled, output, log.trace) && Delivered(a, log, now)
    ensures E.HeardBy(c, log.calls) == Streamed(r, sampled)
    ensures a.group !in now
  {
    var before, last := BeforeCompletion(r, sampled), Completion(r, sampled);
    RunIsStreamed(r, sampled);
    HandlerStays(a, c, before, last);
    HandlerLeaves(a, c, E.Replay(a.start, a.group, before, a.effect), last);
    Cut(before, [last]);
  }

  lemma HandlerStays(a: Audience, c: E.Callback, before: seq<E.Event>, last: E.Event)
    requires Registered(a, c) && NoneComplete(before)
    ensures E.HeardBy(c, E.Calls(a.start, a.group, before + [last], a.effect)) == E.OfKinds(before + [last], KINDS)
    ensures var ls := E.Replay(a.start, a.group, before, a.effect);
            a.group in ls && ls[a.group] == a.start[a.group]
  {
    E.ReplayKeepsGroup(a.start, a.group, before, a.effect);
    E.ListenerHears(a.start, a.group, 0, before + [last], a.effect);
  }

  lemma HandlerLeaves(a: Audience, c: E.Callback, ls: E.Listeners, e: E.Event)
    requires Registered(a, c) && e.GenerationCompleted?
    requires a.group in ls && ls[a.group] == a.start[a.group]
    ensures a.group !in E.Dispatched(ls, a.group, e, a.effect)
  {
    var members := ls[a.group];
    assert members[..0] == [];
    assert E.Matching(members, E.KindOf(e)) == [c];
    assert [c][..0] == [];
    assert E.ActionsOf(a.effect, [], e) == [];
    assert E.ActionsOf(a.effect, [c], e) == [] + [E.Unlisten(a.group)] == [E.Unlisten(a.group)];
    assert E.AppliedAll(ls, [E.Unlisten(a.group)][..0]) == ls;
  }

  // ---------- what the client reads ----------

  /** The message the handler pushes for an event. */
  function PushFor(render: E.Event -> Text, e: E.Event): (step: S.Step) {
    S.Push(render(e), e.GenerationCompleted?)
  }

  /** The messages pushed in a run of the session, in order. */
  function Pushes(steps: seq<S.Step>): (pushes: seq<S.Step>)
    ensures forall i :: 0 <= i < |pushes| ==> pushes[i].Push?
  {
    if steps == [] then []
    else
      var before, step := Pushes(steps[..|steps| - 1]), steps[|steps| - 1];
      if step.Push? then before + [step] else before
  }

  function PushesFor(render: E.Event -> Text, es: seq<E.Event>): (pushes: seq<S.Step>)
    ensures |pushes| == |es| && forall i :: 0 <= i < |es| ==> pushes[i] == PushFor(render, es[i])
  {
    seq(|es|, i requires 0 <= i < |es| => PushFor(render, es[i]))
  }

  /** The events of these texts, as the client's decoder hands them over. */
  function Body(render: E.Event -> Text, es: seq<E.Event>): (body: Text) {
    if es == [] then []
    else
      var e := es[|es| - 1];
      Body(render, es[..|es| - 1]) + EventText(render(e), e.GenerationCompleted?)
  }

  /**
   The body, byte for byte: "data: ", the event's JSON text and an empty line for each event
   in order, and behind the completion, which comes last, "data: [DONE]" and an empty line.
   */
  lemma {:induction false} BodyBytes(render: E.Event -> Text, es: seq<E.Event>, last: E.Event)
    requires NoneComplete(es) && last.GenerationCompleted?
    ensures Body(render, es) == Flatten(S.DataLines(Renders(render, es)))
    ensures Body(render, es + [last])
         == Flatten(S.DataLines(Renders(render, es)))
            + ([0x64, 0x61, 0x74, 0x61, 0x3A, 0x20] + render(last) + [0x0A, 0x0A]
               + [0x64, 0x61, 0x74, 0x61, 0x3A, 0x20, 0x5B, 0x44, 0x4F, 0x4E, 0x45, 0x5D, 0x0A, 0x0A])
  {
    Cut(es, [last]);
    EventBytes(render(last));
    if es != [] {
      var n := |es| - 1;
      BodyBytes(render, es[..n], last);
      S.LinesSnoc(Renders(render, es[..n]), render(es[n]));
      assert Renders(render, es) == Renders(render, es[..n]) + [render(es[n])];
    }
  }

  function Renders(render: E.Event -> Text, es: seq<E.Event>): (jsons: seq<Text>)
    ensures |jsons| == |es| && forall i :: 0 <= i < |es| ==> jsons[i] == render(es[i])
  {
    seq(|es|, i requires 0 <= i < |es| => render(es[i]))
  }

  lemma {:induction false} OnlyPushesMatter(s: S.State, steps: seq<S.Step>)
    requires S.Opening(s) && S.Possible(s, steps)
    ensures S.Events(steps) == S.Events(Pushes(steps))
    ensures S.After(s, steps).isSealed <==> Pushes(steps) != [] && Pushes(steps)[|Pushes(steps)| - 1].isEnd
  {
    if steps != [] {
      var n := |steps| - 1;
      OnlyPushesMatter(s, steps[..n]);
      if steps[n].Push? {
        Cut(Pushes(steps[..n]), [steps[n]]);
      }
    }
  }

  lemma {:induction false} PushesCarriageFree(steps: seq<S.Step>)
    requires R.All(S.CarriageFree, Pushes(steps))
    ensures R.All(S.CarriageFree, steps)
  {
    if steps != [] {
      var n := |steps| - 1;
      if steps[n].Push? {
        Cut(Pushes(steps[..n]), [steps[n]]);
        assert Pushes(steps)[|Pushes(steps[..n])|] == steps[n];
        assert forall i :: 0 <= i < |Pushes(steps[..n])| ==> Pushes(steps[..n])[i] == Pushes(steps)[i];
      }
      PushesCarriageFree(steps[..n]);
      assert forall i :: 0 <= i < n ==> steps[..n][i] == steps[i];
    }
  }

  lemma {:induction false} BodyIsEvents(render: E.Event -> Text, es: seq<E.Event>)
    ensures Flatten(S.Events(PushesFor(render, es))) == Body(render, es)
  {
    if es != [] {
      var n := |es| - 1;
      BodyIsEvents(render, es[..n]);
      assert PushesFor(render, es)[..n] == PushesFor(render, es[..n]);
      FlattenSnoc(S.Events(PushesFor(render, es[..n])), EventText(render(es[n]), es[n].GenerationCompleted?));
    }
  }

  /**
   From the decode loop to the client: if the session is pushed exactly what the handler
   hears of a completed run, then once it is at rest the bytes after the header decode, by
   RFC 9112, to the run's tokens in order and one completion, and the response was ended once.
   */
  lemma ClientReceives(a: Audience, c: E.Callback, r: Request, sampled: seq<nat>, output: Text,
                       log: Log, now: E.Listeners, render: E.Event -> Text, s: S.State, steps: seq<S.Step>)
    requires Registered(a, c) && CompletedRun(r, sampled, output, log.trace) && Delivered(a, log, now)
    requires forall e :: CR !in render(e)
    requires S.Opening(s) && !S.Stale(s) && S.Possible(s, steps)
    requires Pushes(steps) == PushesFor(render, E.HeardBy(c, log.calls))
    requires S.Quiescent(S.After(s, steps)) && !S.After(s, steps).between
    ensures s.header <= S.After(s, steps).wire && S.After(s, steps).ses.endings == 1
    ensures DecodeChunked(S.After(s, steps).wire[|s.header|..]) == Some((Body(render, Streamed(r, sampled)), []))
  {
    var es := Streamed(r, sampled);
    HandlerHears(a, c, r, sampled, output, log, now);
    OnlyPushesMatter(s, steps);
    PushesCarriageFree(steps);
    BodyIsEvents(render, es);
    S.ResponseDecodes(s, steps);
  }
}

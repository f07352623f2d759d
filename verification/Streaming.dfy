/**
 One streamed response as a protocol. A producer thread queues chunks and posts flush
 handlers; the handlers run one at a time on the strand; the socket completes writes in
 its own time. A step is one of these actions and a run is any sequence of steps.
 */
module Streaming {
  import opened Bytes
  import opened Chunked
  import R = Runs

  /** A handler waiting on the strand, in posting order. */
  datatype Handler = Open | Flush | HeaderWritten | ChunkWritten(chunk: Text)

  datatype Write = Header | Chunk(bytes: Text)

  /** What the session's own code reads and changes. */
  datatype Session = Session(isWriting: bool, headerSent: bool, queue: seq<Text>,
                             strand: seq<Handler>, inFlight: seq<Write>, endings: nat)

  /** `flush_streaming_queue_` */
  function FlushQueue(s: Session): (s': Session) {
    if s.isWriting then s
    else if !s.headerSent then s.(isWriting := true, inFlight := s.inFlight + [Header])
    else if s.queue == [] then s
    else s.(queue := s.queue[1..], isWriting := true, inFlight := s.inFlight + [Chunk(s.queue[0])])
  }

  /** `initiate_streaming` posts its handler. */
  function InitiateStreaming(s: Session): (s': Session) {
    s.(strand := s.strand + [Open])
  }

  /** The body of a handler. */
  function Handle(s: Session, h: Handler): (s': Session) {
    match h
    case Open => FlushQueue(s.(headerSent := false))
    case Flush => FlushQueue(s)
    case HeaderWritten => FlushQueue(s.(headerSent := true, isWriting := false))
    case ChunkWritten(chunk) =>
      if ContainsLast(chunk) then s.(isWriting := false, endings := s.endings + 1)
      else FlushQueue(s.(isWriting := false))
  }

  /** The session with its surroundings: the wire, and the producer and what it has pushed. */
  datatype State = State(ses: Session, header: Text, wire: Text, between: bool, pushed: seq<Text>, isSealed: bool)

  datatype Step =
    | Push(json: Text, isEnd: bool)  // the producer queues a message
    | Post                           // the producer posts the flush handler
    | Complete(k: nat)               // the socket has sent a write; its handler is posted
    | Run                            // the strand runs its oldest handler

  function WriteBytes(s: State, w: Write): (bytes: Text) {
    if w.Header? then s.header else w.bytes
  }

  function Completion(w: Write): (h: Handler) {
    if w.Header? then HeaderWritten else ChunkWritten(w.bytes)
  }

  predicate Enabled(s: State, step: Step) {
    match step
    case Push(_, _) => !s.between && !s.isSealed
    case Post => s.between
    case Complete(k) => k < |s.ses.inFlight|
    case Run => s.ses.strand != []
  }

  function Next(s: State, step: Step): (s': State)
    requires Enabled(s, step)
  {
    match step
    case Push(json, isEnd) =>
      var m := Message(json, isEnd);
      s.(ses := s.ses.(queue := s.ses.queue + [m]), between := true, pushed := s.pushed + [m], isSealed := isEnd)
    case Post =>
      s.(ses := s.ses.(strand := s.ses.strand + [Flush]), between := false)
    case Complete(k) =>
      var w := s.ses.inFlight[k];
      s.(ses := s.ses.(inFlight := s.ses.inFlight[..k] + s.ses.inFlight[k + 1..],
                       strand := s.ses.strand + [Completion(w)]),
         wire := s.wire + WriteBytes(s, w))
    case Run =>
      s.(ses := Handle(s.ses.(strand := s.ses.strand[1..]), s.ses.strand[0]))
  }

  /** `initiate_streaming` has just posted its handler on a fresh connection. */
  function Start(header: Text): (s: State)
    ensures Opening(s) && !Stale(s)
  {
    State(Session(false, false, [], [Open], [], 0), header, [], false, [], false)
  }

  /**
   Any state in which `initiate_streaming` has just posted its handler: the header flag is
   what the previous response on the connection left behind, and flush handlers of that
   response, or a post of its producer, may still be to come.
   */
  ghost predicate Opening(s: State) {
    && !s.ses.isWriting && s.ses.queue == [] && s.ses.inFlight == [] && s.ses.endings == 0
    && s.wire == [] && s.pushed == [] && !s.isSealed
    && s.ses.strand != [] && s.ses.strand[|s.ses.strand| - 1] == Open
    && forall i :: 0 <= i < |s.ses.strand| - 1 ==> s.ses.strand[i] == Flush
  }

  /** A flush handler of the previous response runs first and takes its header for this one's. */
  ghost predicate Stale(s: State) {
    s.ses.headerSent && |s.ses.strand| > 1
  }

  function TryNext(s: State, step: Step): (s': Option<State>) {
    if Enabled(s, step) then Some(Next(s, step)) else None
  }

  ghost predicate Possible(s: State, steps: seq<Step>) {
    R.Run(TryNext, s, steps).Some?
  }

  ghost function After(s: State, steps: seq<Step>): (s': State)
    requires Possible(s, steps)
  {
    R.Run(TryNext, s, steps).value
  }

  // ---------- the invariant ----------

  predicate IsDone(h: Handler) {
    h.HeaderWritten? || h.ChunkWritten?
  }

  /** The completion handlers on the strand, in order. */
  function Dones(strand: seq<Handler>): (dones: seq<Handler>) {
    if strand == [] then []
    else (if IsDone(strand[0]) then [strand[0]] else []) + Dones(strand[1..])
  }

  ghost predicate NoOpenAfterDone(strand: seq<Handler>) {
    forall i, j :: 0 <= i < j < |strand| && IsDone(strand[i]) ==> strand[j] != Open
  }

  /** How many chunks have been taken from the queue. */
  function Taken(s: State): (k: int) {
    |s.pushed| - |s.ses.queue|
  }

  ghost predicate QueueIsRest(s: State) {
    Taken(s) >= 0 && s.ses.queue == s.pushed[Taken(s)..]
  }

  /** Nothing has been written; the opening handler is waiting, and runs before any flush
      that could mistake the previous response's header for this one's. */
  ghost predicate Before(s: State) {
    && !s.ses.isWriting && s.ses.inFlight == [] && Dones(s.ses.strand) == []
    && s.wire == [] && Taken(s) == 0
    && Open in s.ses.strand && (s.ses.headerSent ==> s.ses.strand[0] == Open)
  }

  ghost predicate HeaderFlying(s: State) {
    && s.ses.isWriting && !s.ses.headerSent && s.ses.inFlight == [Header] && Dones(s.ses.strand) == []
    && s.wire == [] && Taken(s) == 0
  }

  ghost predicate HeaderLanded(s: State) {
    && s.ses.isWriting && !s.ses.headerSent && s.ses.inFlight == [] && Dones(s.ses.strand) == [HeaderWritten]
    && s.wire == s.header && Taken(s) == 0
  }

  ghost predicate Idle(s: State) {
    && !s.ses.isWriting && s.ses.headerSent && s.ses.inFlight == [] && Dones(s.ses.strand) == []
    && Open !in s.ses.strand
    && QueueIsRest(s) && s.wire == s.header + Flatten(s.pushed[..Taken(s)])
  }

  ghost predicate ChunkFlying(s: State) {
    && s.ses.isWriting && s.ses.headerSent && Dones(s.ses.strand) == []
    && Open !in s.ses.strand
    && QueueIsRest(s) && Taken(s) >= 1
    && s.ses.inFlight == [Chunk(s.pushed[Taken(s) - 1])]
    && s.wire == s.header + Flatten(s.pushed[..Taken(s) - 1])
  }

  ghost predicate ChunkLanded(s: State) {
    && s.ses.isWriting && s.ses.headerSent && s.ses.inFlight == []
    && Open !in s.ses.strand
    && QueueIsRest(s) && Taken(s) >= 1
    && Dones(s.ses.strand) == [ChunkWritten(s.pushed[Taken(s) - 1])]
    && s.wire == s.header + Flatten(s.pushed[..Taken(s)])
  }

  ghost predicate Inv(s: State) {
    && NoOpenAfterDone(s.ses.strand) && QueueIsRest(s)
    && (Before(s) || HeaderFlying(s) || HeaderLanded(s) || Idle(s) || ChunkFlying(s) || ChunkLanded(s))
  }

  lemma {:induction false} DonesSnoc(strand: seq<Handler>, h: Handler)
    ensures Dones(strand + [h]) == Dones(strand) + (if IsDone(h) then [h] else [])
  {
    if strand == [] {
      assert strand + [h] == [h] && [h][1..] == [];
    } else {
      assert (strand + [h])[1..] == strand[1..] + [h];
      DonesSnoc(strand[1..], h);
      Assoc(if IsDone(strand[0]) then [strand[0]] else [], Dones(strand[1..]), if IsDone(h) then [h] else []);
    }
  }

  lemma {:induction false} DonesMember(strand: seq<Handler>, i: int)
    requires 0 <= i < |strand| && IsDone(strand[i])
    ensures strand[i] in Dones(strand)
  {
    if i > 0 {
      DonesMember(strand[1..], i - 1);
    }
  }

  lemma {:induction false} NoDones(strand: seq<Handler>)
    requires forall i :: 0 <= i < |strand| ==> !IsDone(strand[i])
    ensures Dones(strand) == []
  {
    if strand != [] {
      NoDones(strand[1..]);
    }
  }

  lemma OpeningInv(s: State)
    requires Opening(s) && !Stale(s)
    ensures Inv(s) && Open in s.ses.strand
  {
    NoDones(s.ses.strand);
    assert s.ses.strand[|s.ses.strand| - 1] == Open;
  }

  lemma PushInv(s: State, json: Text, isEnd: bool)
    requires Inv(s) && Enabled(s, Push(json, isEnd))
    ensures Inv(Next(s, Push(json, isEnd)))
  {
    var k, s' := Taken(s), Next(s, Push(json, isEnd));
    assert s'.pushed[..k] == s.pushed[..k];
    assert k >= 1 ==> s'.pushed[..k - 1] == s.pushed[..k - 1];
  }

  lemma PostInv(s: State)
    requires Inv(s) && Enabled(s, Post)
    ensures Inv(Next(s, Post))
  {
    DonesSnoc(s.ses.strand, Flush);
    FlushBehind(s.ses.strand);
  }

  /** A flush posted behind the other handlers changes nothing in their order. */
  lemma FlushBehind(strand: seq<Handler>)
    ensures NoOpenAfterDone(strand) ==> NoOpenAfterDone(strand + [Flush])
    ensures Open in strand + [Flush] <==> Open in strand
    ensures strand != [] ==> (strand + [Flush])[0] == strand[0]
  {
  }

  lemma CompleteInv(s: State, k: nat)
    requires Inv(s) && Enabled(s, Complete(k))
    ensures Inv(Next(s, Complete(k)))
  {
    var w := s.ses.inFlight[k];
    DonesSnoc(s.ses.strand, Completion(w));
    if ChunkFlying(s) {
      TakenSplits(s);
      assert ChunkLanded(Next(s, Complete(k)));
    }
  }

  /** A chunk is on its way, or there is none to send. */
  ghost predicate Settled(s: State) {
    ChunkFlying(s) || (Idle(s) && s.ses.queue == [])
  }

  /** A flush with nothing in flight and the header sent takes the next chunk, if any. */
  lemma FlushIdle(s: State)
    requires Idle(s) && NoOpenAfterDone(s.ses.strand)
    ensures Inv(s.(ses := FlushQueue(s.ses))) && Settled(s.(ses := FlushQueue(s.ses)))
    ensures s.ses.queue != [] ==> ChunkFlying(s.(ses := FlushQueue(s.ses)))
  {
    var n := Taken(s);
    if n < |s.pushed| {
      assert s.pushed[n..][1..] == s.pushed[n + 1..];
      assert ChunkFlying(s.(ses := FlushQueue(s.ses)));
    }
  }

  ghost function Popped(s: State): (s': State)
    requires s.ses.strand != []
  {
    s.(ses := s.ses.(strand := s.ses.strand[1..]))
  }

  lemma PoppedStrand(s: State)
    requires s.ses.strand != [] && NoOpenAfterDone(s.ses.strand)
    ensures NoOpenAfterDone(Popped(s).ses.strand)
    ensures Open !in s.ses.strand || IsDone(s.ses.strand[0]) ==> Open !in Popped(s).ses.strand
    ensures if IsDone(s.ses.strand[0]) then
              && Dones(s.ses.strand) != [] && Dones(s.ses.strand)[0] == s.ses.strand[0]
              && Dones(Popped(s).ses.strand) == Dones(s.ses.strand)[1..]
            else
              Dones(Popped(s).ses.strand) == Dones(s.ses.strand)
  {
    var strand, rest := s.ses.strand, s.ses.strand[1..];
    assert forall x :: x in rest ==> x in strand;
  }

  lemma RunBefore(s: State)
    requires Inv(s) && s.ses.strand != [] && (Before(s) || HeaderFlying(s))
    ensures Inv(Next(s, Run)) && HeaderFlying(Next(s, Run))
  {
    PoppedStrand(s);
    assert HeaderFlying(Next(s, Run));
  }

  lemma RunHeaderLanded(s: State)
    requires Inv(s) && s.ses.strand != [] && HeaderLanded(s)
    ensures Inv(Next(s, Run)) && (HeaderLanded(Next(s, Run)) || Settled(Next(s, Run)))
  {
    PoppedStrand(s);
    if s.ses.strand[0] == HeaderWritten {
      var idle := Popped(s).(ses := Popped(s).ses.(headerSent := true, isWriting := false));
      assert s.pushed[..0] == [];
      assert Idle(idle);
      FlushIdle(idle);
    } else {
      assert HeaderLanded(Next(s, Run));
    }
  }

  lemma RunChunkLanded(s: State)
    requires Inv(s) && s.ses.strand != [] && ChunkLanded(s)
    ensures Inv(Next(s, Run))
    ensures s.ses.strand[0].ChunkWritten? ==>
              && s.ses.strand[0] == ChunkWritten(s.pushed[Taken(s) - 1])
              && if ContainsLast(s.ses.strand[0].chunk) then Idle(Next(s, Run)) else Settled(Next(s, Run))
    ensures !s.ses.strand[0].ChunkWritten? ==> ChunkLanded(Next(s, Run))
  {
    PoppedStrand(s);
    if s.ses.strand[0].ChunkWritten? {
      var idle := Popped(s).(ses := Popped(s).ses.(isWriting := false));
      assert Idle(idle);
      if ContainsLast(s.ses.strand[0].chunk) {
        assert Idle(Next(s, Run));
      } else {
        FlushIdle(idle);
      }
    } else {
      assert ChunkLanded(Next(s, Run));
    }
  }

  lemma RunStreaming(s: State)
    requires Inv(s) && s.ses.strand != [] && (Idle(s) || ChunkFlying(s))
    ensures Inv(Next(s, Run)) && Settled(Next(s, Run))
    ensures Idle(Next(s, Run)) ==> Idle(s) && s.ses.queue == []
  {
    PoppedStrand(s);
    if Idle(s) {
      assert Idle(Popped(s));
      FlushIdle(Popped(s));
    } else {
      assert ChunkFlying(Next(s, Run));
    }
  }

  lemma RunInv(s: State)
    requires Inv(s) && Enabled(s, Run)
    ensures Inv(Next(s, Run))
  {
    if Before(s) || HeaderFlying(s) {
      RunBefore(s);
    } else if HeaderLanded(s) {
      RunHeaderLanded(s);
    } else if ChunkLanded(s) {
      RunChunkLanded(s);
    } else {
      RunStreaming(s);
    }
  }

  lemma StepInv(s: State, step: Step)
    requires Inv(s) && Enabled(s, step)
    ensures Inv(Next(s, step))
  {
    match step
    case Push(json, isEnd) => PushInv(s, json, isEnd);
    case Post => PostInv(s);
    case Complete(k) => CompleteInv(s, k);
    case Run => RunInv(s);
  }

  // ---------- nothing lost, repeated or reordered ----------

  ghost function Flying(s: State): (bytes: Text) {
    if s.ses.inFlight == [] then [] else WriteBytes(s, s.ses.inFlight[0])
  }

  /** The header is still to be written. */
  ghost predicate HeaderUnsent(s: State) {
    s.wire == [] && s.ses.inFlight == []
  }

  /**
   At most one write is outstanding, and the header followed by all pushed chunks is
   what was written, then the write in flight, then what is still to be sent.
   */
  ghost predicate Conserved(s: State) {
    && |s.ses.inFlight| <= 1
    && s.header + Flatten(s.pushed)
       == s.wire + Flying(s) + (if HeaderUnsent(s) then s.header else []) + Flatten(s.ses.queue)
  }

  lemma QueueSplits(s: State)
    requires QueueIsRest(s)
    ensures s.header + Flatten(s.pushed) == s.header + Flatten(s.pushed[..Taken(s)]) + Flatten(s.ses.queue)
  {
    var k := Taken(s);
    assert s.pushed == s.pushed[..k] + s.pushed[k..];
    FlattenAppend(s.pushed[..k], s.pushed[k..]);
    Assoc(s.header, Flatten(s.pushed[..k]), Flatten(s.pushed[k..]));
  }

  lemma TakenSplits(s: State)
    requires QueueIsRest(s) && Taken(s) >= 1
    ensures s.header + Flatten(s.pushed[..Taken(s)])
         == s.header + Flatten(s.pushed[..Taken(s) - 1]) + s.pushed[Taken(s) - 1]
  {
    var k := Taken(s);
    assert s.pushed[..k] == s.pushed[..k - 1] + [s.pushed[k - 1]];
    FlattenSnoc(s.pushed[..k - 1], s.pushed[k - 1]);
    Assoc(s.header, Flatten(s.pushed[..k - 1]), s.pushed[k - 1]);
  }

  lemma InvConserved(s: State)
    requires Inv(s) && s.header != []
    ensures Conserved(s)
  {
    QueueSplits(s);
    if ChunkFlying(s) {
      TakenSplits(s);
    } else if Taken(s) == 0 {
      assert s.pushed[..0] == [];
    }
  }

  lemma RunsKeepInv(s: State, steps: seq<Step>)
    requires Inv(s) && Possible(s, steps)
    ensures Inv(After(s, steps))
  {
    forall t, step | Inv(t) && Enabled(t, step)
      ensures Inv(Next(t, step))
    {
      StepInv(t, step);
    }
    R.RunsKeep(TryNext, _ => true, Inv, s, steps);
  }

  lemma RunsKeepHeader(s: State, steps: seq<Step>)
    requires Possible(s, steps)
    ensures After(s, steps).header == s.header
  {
    R.RunsKeep(TryNext, _ => true, (t: State) => t.header == s.header, s, steps);
  }

  /** Pushing a chunk and then running a stale flush writes the chunk before the header. */
  lemma StaleFlushOvertakes(s: State)
    requires Opening(s) && Stale(s) && s.header != []
    ensures exists steps :: Possible(s, steps) && !Conserved(After(s, steps))
  {
    var m := Message([], false);
    var posts := if s.between then [Post] else [];
    assert R.Run(TryNext, s, []) == Some(s);
    assert [] + [Post] == [Post];
    if s.between {
      R.RunSnoc(TryNext, s, [], Post);
    }
    var s0 := After(s, posts);
    R.RunSnoc(TryNext, s, posts, Push([], false));
    var s1 := After(s, posts + [Push([], false)]);
    assert s1.ses.queue == [m] && s1.pushed == [m] && s1.ses.strand[0] == Flush;
    R.RunSnoc(TryNext, s, posts + [Push([], false)], Run);
    var s2 := After(s, posts + [Push([], false)] + [Run]);
    assert s2.ses.queue == [] && s2.ses.inFlight == [Chunk(m)] && s2.wire == [];
    FlattenSnoc([], m);
    assert [] + [m] == [m];
    assert |s2.header + Flatten(s2.pushed)| > |s2.wire + Flying(s2) + [] + Flatten(s2.ses.queue)|;
  }

  /**
   Every run of a response conserves the stream, whatever the interleaving, if and only if
   the response does not open with both a stale header flag and a stale flush handler.
   */
  lemma ConservedExactly(s: State)
    requires Opening(s) && s.header != []
    ensures (forall steps :: Possible(s, steps) ==> Conserved(After(s, steps))) <==> !Stale(s)
  {
    if Stale(s) {
      StaleFlushOvertakes(s);
    } else {
      OpeningInv(s);
      forall steps | Possible(s, steps)
        ensures Conserved(After(s, steps))
      {
        RunsKeepInv(s, steps);
        RunsKeepHeader(s, steps);
        InvConserved(After(s, steps));
      }
    }
  }

  // ---------- the session never stalls ----------

  /** Messages carry serialized JSON, which holds no carriage return. */
  predicate CarriageFree(step: Step) {
    step.Push? ==> CR !in step.json
  }

  /** Only the last chunk of a sealed response passes the terminator test. */
  ghost predicate OnlyEndTerminates(s: State) {
    && (s.isSealed ==> s.pushed != [])
    && forall i :: 0 <= i < |s.pushed| ==> (ContainsLast(s.pushed[i]) <==> s.isSealed && i == |s.pushed| - 1)
  }

  ghost predicate Finished(s: State) {
    Idle(s) && s.isSealed && s.ses.queue == []
  }

  ghost predicate Live(s: State) {
    && Inv(s) && OnlyEndTerminates(s)
    && (Idle(s) && s.ses.queue != [] ==> s.between || Flush in s.ses.strand)
    && s.ses.endings == if Finished(s) then 1 else 0
  }

  lemma PushLive(s: State, json: Text, isEnd: bool)
    requires Live(s) && Enabled(s, Push(json, isEnd)) && CR !in json
    ensures Live(Next(s, Push(json, isEnd)))
  {
    PushInv(s, json, isEnd);
    CarriageFreeJson(json, isEnd);
  }

  lemma PostLive(s: State)
    requires Live(s) && Enabled(s, Post)
    ensures Live(Next(s, Post))
  {
    PostInv(s);
    assert Next(s, Post).ses.strand[|s.ses.strand|] == Flush;
  }

  lemma CompleteLive(s: State, k: nat)
    requires Live(s) && Enabled(s, Complete(k))
    ensures Live(Next(s, Complete(k)))
  {
    CompleteInv(s, k);
  }

  /** The handler of a written chunk ends the response exactly when the chunk is the last one. */
  lemma RunChunkLandedLive(s: State)
    requires Live(s) && s.ses.strand != [] && ChunkLanded(s)
    ensures Live(Next(s, Run))
  {
    RunChunkLanded(s);
    var last := s.pushed[Taken(s) - 1];
    assert ContainsLast(last) <==> s.isSealed && s.ses.queue == [];
    assert !Finished(s);
  }

  lemma RunBeforeLive(s: State)
    requires Live(s) && s.ses.strand != [] && (Before(s) || HeaderFlying(s))
    ensures Live(Next(s, Run))
  {
    RunBefore(s);
  }

  lemma RunHeaderLandedLive(s: State)
    requires Live(s) && s.ses.strand != [] && HeaderLanded(s)
    ensures Live(Next(s, Run))
  {
    RunHeaderLanded(s);
  }

  lemma RunStreamingLive(s: State)
    requires Live(s) && s.ses.strand != [] && (Idle(s) || ChunkFlying(s))
    ensures Live(Next(s, Run))
  {
    RunStreaming(s);
  }

  lemma RunLive(s: State)
    requires Live(s) && Enabled(s, Run)
    ensures Live(Next(s, Run))
  {
    if Before(s) || HeaderFlying(s) {
      RunBeforeLive(s);
    } else if HeaderLanded(s) {
      RunHeaderLandedLive(s);
    } else if ChunkLanded(s) {
      RunChunkLandedLive(s);
    } else {
      RunStreamingLive(s);
    }
  }

  lemma StepLive(s: State, step: Step)
    requires Live(s) && Enabled(s, step) && CarriageFree(step)
    ensures Live(Next(s, step))
  {
    match step
    case Push(json, isEnd) => PushLive(s, json, isEnd);
    case Post => PostLive(s);
    case Complete(k) => CompleteLive(s, k);
    case Run => RunLive(s);
  }

  lemma RunsKeepLive(s: State, steps: seq<Step>)
    requires Live(s) && Possible(s, steps) && R.All(CarriageFree, steps)
    ensures Live(After(s, steps))
  {
    forall t, step | Live(t) && CarriageFree(step) && Enabled(t, step)
      ensures Live(Next(t, step))
    {
      StepLive(t, step);
    }
    R.RunsKeep(TryNext, CarriageFree, Live, s, steps);
  }

  /** Nothing is left that could act on its own: no handler waits and no write is under way. */
  ghost predicate Quiescent(s: State) {
    s.ses.strand == [] && s.ses.inFlight == []
  }

  /**
   If nothing can act and the producer is not about to post, everything pushed has been
   written after the header, and the response was ended once if its last message was sent.
   */
  lemma NeverStalls(s: State)
    requires Live(s) && Quiescent(s) && !s.between
    ensures s.ses.queue == [] && s.wire == s.header + Flatten(s.pushed)
    ensures s.ses.endings == if s.isSealed then 1 else 0
  {
    assert Dones(s.ses.strand) == [];
    assert Idle(s);
    assert s.pushed[..|s.pushed|] == s.pushed;
  }

  /** How many steps the strand and the socket can still take on their own. */
  ghost function Measure(s: State): (n: nat) {
    2 * |s.ses.strand| + 3 * |s.ses.inFlight| + 2 * |s.ses.queue| + (if Before(s) then 2 else 0)
  }

  predicate System(step: Step) {
    step.Complete? || step.Run?
  }

  lemma RunDecreases(s: State)
    requires Inv(s) && Enabled(s, Run)
    ensures Measure(Next(s, Run)) < Measure(s)
  {
    PoppedStrand(s);
  }

  lemma SystemStepDecreases(s: State, step: Step)
    requires Inv(s) && Enabled(s, step) && System(step)
    ensures Measure(Next(s, step)) < Measure(s)
  {
    if step.Run? {
      RunDecreases(s);
    }
  }

  /** Left to themselves, the strand and the socket come to rest. */
  lemma ComesToRest(s: State, steps: seq<Step>)
    requires Inv(s) && Possible(s, steps) && R.All(System, steps)
    ensures |steps| + Measure(After(s, steps)) <= Measure(s)
  {
    forall t, step | Inv(t) && Enabled(t, step)
      ensures Inv(Next(t, step)) && (System(step) ==> Measure(Next(t, step)) < Measure(t))
    {
      StepInv(t, step);
      if System(step) {
        SystemStepDecreases(t, step);
      }
    }
    R.RunsDescend(TryNext, System, Inv, Measure, s, steps);
  }

  // ---------- the whole response ----------

  /** The event texts pushed in a run, in order. */
  function Events(steps: seq<Step>): (raws: seq<Text>)
    ensures forall i :: 0 <= i < |raws| ==> raws[i] != []
  {
    if steps == [] then [] else MoreEvents(Events(steps[..|steps| - 1]), steps[|steps| - 1])
  }

  lemma ChunksSnoc(raws: seq<Text>, raw: Text)
    ensures Flatten(Chunks(raws + [raw])) == Flatten(Chunks(raws)) + MakeChunk(raw)
  {
    assert Chunks(raws + [raw]) == Chunks(raws) + [MakeChunk(raw)];
    FlattenSnoc(Chunks(raws), MakeChunk(raw));
  }

  lemma PushBytes(pushed: seq<Text>, raws: seq<Text>, json: Text, isEnd: bool)
    requires Flatten(pushed) == Flatten(Chunks(raws))
    ensures Flatten(pushed + [Message(json, isEnd)])
         == Flatten(Chunks(raws + [EventText(json, isEnd)])) + (if isEnd then LAST else [])
  {
    var raw, tail := EventText(json, isEnd), if isEnd then LAST else [];
    calc {
      Flatten(pushed + [Message(json, isEnd)]);
      { FlattenSnoc(pushed, Message(json, isEnd)); }
      Flatten(Chunks(raws)) + (MakeChunk(raw) + tail);
      { Assoc(Flatten(Chunks(raws)), MakeChunk(raw), tail); }
      Flatten(Chunks(raws)) + MakeChunk(raw) + tail;
      { ChunksSnoc(raws, raw); }
      Flatten(Chunks(raws + [raw])) + tail;
    }
  }

  /** The bytes pushed so far are the chunks of these events, ended if the response is sealed. */
  ghost predicate PushedAre(s: State, raws: seq<Text>) {
    Flatten(s.pushed) == Flatten(Chunks(raws)) + if s.isSealed then LAST else []
  }

  /** The events after one more step. */
  function MoreEvents(raws: seq<Text>, step: Step): (raws': seq<Text>) {
    if step.Push? then raws + [EventText(step.json, step.isEnd)] else raws
  }

  lemma PushedStep(s: State, step: Step, raws: seq<Text>)
    requires PushedAre(s, raws) && Enabled(s, step)
    ensures PushedAre(Next(s, step), MoreEvents(raws, step))
  {
    if step.Push? {
      PushBytes(s.pushed, raws, step.json, step.isEnd);
    }
  }

  lemma {:induction false} PushedBytes(s: State, steps: seq<Step>)
    requires Opening(s) && Possible(s, steps)
    ensures PushedAre(After(s, steps), Events(steps))
  {
    if steps != [] {
      var n := |steps| - 1;
      PushedBytes(s, steps[..n]);
      PushedStep(After(s, steps[..n]), steps[n], Events(steps[..n]));
    }
  }

  lemma OpeningLive(s: State)
    requires Opening(s) && !Stale(s)
    ensures Live(s)
  {
    OpeningInv(s);
  }

  /**
   When a sealed response comes to rest, the wire holds the header and then bytes that
   decode, by RFC 9112, to exactly the events in order; the response was ended once.
   */
  lemma ResponseDecodes(s: State, steps: seq<Step>)
    requires Opening(s) && !Stale(s) && Possible(s, steps) && R.All(CarriageFree, steps)
    requires Quiescent(After(s, steps)) && !After(s, steps).between && After(s, steps).isSealed
    ensures s.header <= After(s, steps).wire && After(s, steps).ses.endings == 1
    ensures DecodeChunked(After(s, steps).wire[|s.header|..]) == Some((Flatten(Events(steps)), []))
  {
    var t := After(s, steps);
    OpeningLive(s);
    RunsKeepLive(s, steps);
    RunsKeepHeader(s, steps);
    NeverStalls(t);
    PushedBytes(s, steps);
    DecodeStream(Events(steps), []);
    Cut(s.header, Flatten(t.pushed));
    assert Flatten(Chunks(Events(steps))) + LAST + [] == Flatten(t.pushed);
  }

  /** The JSON texts pushed in a run, in order. */
  function Jsons(steps: seq<Step>): (jsons: seq<Text>) {
    if steps == [] then []
    else
      var before, step := Jsons(steps[..|steps| - 1]), steps[|steps| - 1];
      if step.Push? then before + [step.json] else before
  }

  /** Each JSON text behind "data: " and before an empty line. */
  function DataLines(jsons: seq<Text>): (lines: seq<Text>) {
    seq(|jsons|, i requires 0 <= i < |jsons| => [0x64, 0x61, 0x74, 0x61, 0x3A, 0x20] + jsons[i] + [0x0A, 0x0A])
  }

  lemma LinesSnoc(jsons: seq<Text>, json: Text)
    ensures Flatten(DataLines(jsons + [json])) == Flatten(DataLines(jsons)) + EventText(json, false)
  {
    EventBytes(json);
    assert DataLines(jsons + [json]) == DataLines(jsons) + [EventText(json, false)];
    FlattenSnoc(DataLines(jsons), EventText(json, false));
  }

  /** The event of a message that is not the last, and then "data: [DONE]" if it is. */
  lemma EventParts(json: Text, isEnd: bool)
    ensures EventText(json, isEnd) == EventText(json, false) + if isEnd then DONE else []
  {
    NothingMore(DATA + json + [LF, LF]);
    NothingMore(EventText(json, false));
  }

  /** The body so far: a data line for each message, and the "[DONE]" event if the response is sealed. */
  ghost predicate BodyIs(s: State, raws: seq<Text>, jsons: seq<Text>) {
    Flatten(raws) == Flatten(DataLines(jsons)) + if s.isSealed then DONE else []
  }

  lemma BodyStep(s: State, raws: seq<Text>, jsons: seq<Text>, json: Text, isEnd: bool)
    requires BodyIs(s, raws, jsons) && Enabled(s, Push(json, isEnd))
    ensures BodyIs(Next(s, Push(json, isEnd)), raws + [EventText(json, isEnd)], jsons + [json])
  {
    var lines, tail := Flatten(DataLines(jsons)), if isEnd then DONE else [];
    NothingMore(lines);
    FlattenSnoc(raws, EventText(json, isEnd));
    EventParts(json, isEnd);
    LinesSnoc(jsons, json);
    Assoc(lines, EventText(json, false), tail);
  }

  lemma {:induction false} BodyOfRun(s: State, steps: seq<Step>)
    requires Opening(s) && Possible(s, steps)
    ensures BodyIs(After(s, steps), Events(steps), Jsons(steps))
  {
    if steps == [] {
      NothingMore(Flatten(DataLines([])));
    } else {
      var n := |steps| - 1;
      BodyOfRun(s, steps[..n]);
      if steps[n].Push? {
        BodyStep(After(s, steps[..n]), Events(steps[..n]), Jsons(steps[..n]), steps[n].json, steps[n].isEnd);
      }
    }
  }

  /**
   What the client of a sealed response decodes, byte for byte: "data: ", the JSON text and
   an empty line for each message in order, and "data: [DONE]" with an empty line.
   */
  lemma ResponseBody(s: State, steps: seq<Step>)
    requires Opening(s) && !Stale(s) && Possible(s, steps) && R.All(CarriageFree, steps)
    requires Quiescent(After(s, steps)) && !After(s, steps).between && After(s, steps).isSealed
    ensures s.header <= After(s, steps).wire
    ensures DecodeChunked(After(s, steps).wire[|s.header|..])
         == Some((Flatten(DataLines(Jsons(steps))) + DONE, []))
  {
    ResponseDecodes(s, steps);
    BodyOfRun(s, steps);
  }
}

/**
 A connection that is kept alive: one streamed response after the other. When a response
 has ended the session reads the next request; the handler of that read runs on the strand
 like any other and opens the next response, whatever the producer of the last one still
 has to post.
 */
module Connection {
  import opened Bytes
  import opened Chunked
  import opened Streaming
  import R = Runs

  /**
   The response being sent; the place of the request handler among the handlers on the
   strand, once a request has been read; and what the responses before this one have put on
   the wire, next to what they had to put there.
   */
  datatype Conn = Conn(res: State, request: Option<nat>, sent: Text, owed: Text)

  datatype Act =
    | Within(step: Step)    // a step of the response, as long as it is not the request handler's turn
    | Read                  // the next request has been read; its handler is posted
    | Serve(header: Text)   // the request handler runs and calls initiate_streaming

  /** The response that a request handler opens in whatever state the last one left. */
  function Opened(s: State, header: Text): (s': State) {
    s.(ses := InitiateStreaming(s.ses).(endings := 0), header := header, wire := [], pushed := [], isSealed := false)
  }

  /** What a response had to put on the wire. */
  function Owed(s: State): (bytes: Text) {
    s.header + Flatten(s.pushed)
  }

  function TryAct(c: Conn, act: Act): (c': Option<Conn>) {
    match act
    case Within(step) =>
      if !Streaming.Enabled(c.res, step) || (step.Run? && c.request == Some(0)) then None
      else
        var behind := if step.Run? && c.request.Some? then Some(c.request.value - 1) else c.request;
        Some(c.(res := Next(c.res, step), request := behind))
    case Read =>
      if c.res.ses.endings == 0 || c.request.Some? then None
      else Some(c.(request := Some(|c.res.ses.strand|)))
    case Serve(header) =>
      if c.request != Some(0) || header == [] then None
      else Some(Conn(Opened(c.res, header), None, c.sent + c.res.wire, c.owed + Owed(c.res)))
  }

  function Fresh(header: Text): (c: Conn) {
    Conn(Start(header), None, [], [])
  }

  /** Nothing lost, repeated or reordered in the current response and all before it. */
  ghost predicate AllConserved(c: Conn) {
    c.sent == c.owed && Conserved(c.res)
  }

  predicate CarriageFreeAct(act: Act) {
    act.Within? ==> CarriageFree(act.step)
  }

  // ---------- as long as no response opens with a stale flush ----------

  ghost predicate ConnInv(c: Conn) {
    && Live(c.res) && c.res.header != [] && c.sent == c.owed
    && (c.request.Some? ==> c.res.ses.endings == 1 && c.request.value <= |c.res.ses.strand|)
  }

  /** The same connection, but requests are served only when no handler is left of the last response. */
  function TryCleanAct(c: Conn, act: Act): (c': Option<Conn>) {
    if act.Serve? && c.res.ses.strand != [] then None else TryAct(c, act)
  }

  lemma ServeInv(c: Conn, header: Text)
    requires ConnInv(c) && TryCleanAct(c, Serve(header)).Some?
    ensures ConnInv(TryCleanAct(c, Serve(header)).value)
  {
    assert Finished(c.res);
    assert c.res.pushed[..|c.res.pushed|] == c.res.pushed;
    OpeningLive(Opened(c.res, header));
  }

  lemma ActInv(c: Conn, act: Act)
    requires ConnInv(c) && TryCleanAct(c, act).Some? && CarriageFreeAct(act)
    ensures ConnInv(TryCleanAct(c, act).value)
  {
    match act
    case Within(step) => StepLive(c.res, step);
    case Read =>
    case Serve(header) => ServeInv(c, header);
  }

  /**
   Any number of responses is conserved, whatever the interleaving, if every request is
   served with no flush handler of the response before it still waiting.
   */
  lemma CleanRunsConserve(header: Text, acts: seq<Act>)
    requires header != [] && R.All(CarriageFreeAct, acts) && R.Run(TryCleanAct, Fresh(header), acts).Some?
    ensures AllConserved(R.Run(TryCleanAct, Fresh(header), acts).value)
  {
    OpeningLive(Start(header));
    forall c, act | ConnInv(c) && CarriageFreeAct(act) && TryCleanAct(c, act).Some?
      ensures ConnInv(TryCleanAct(c, act).value)
    {
      ActInv(c, act);
    }
    R.RunsKeep(TryCleanAct, CarriageFreeAct, ConnInv, Fresh(header), acts);
    InvConserved(R.Run(TryCleanAct, Fresh(header), acts).value.res);
  }

  /** Every finished response leaves nothing but flush handlers behind. */
  lemma ServedIsOpening(c: Conn, header: Text)
    requires ConnInv(c) && TryAct(c, Serve(header)).Some?
    ensures Opening(Opened(c.res, header)) && (Stale(Opened(c.res, header)) <==> c.res.ses.strand != [])
  {
    assert Finished(c.res);
    var strand := c.res.ses.strand;
    forall i | 0 <= i < |strand|
      ensures strand[i] == Flush
    {
      if IsDone(strand[i]) {
        DonesMember(strand, i);
      }
    }
  }

  /**
   The condition is exact: the response that a request handler opens is conserved in all its
   runs if and only if no flush handler of the response before it still waits.
   */
  lemma ServedExactly(c: Conn, header: Text)
    requires ConnInv(c) && TryAct(c, Serve(header)).Some?
    ensures (forall steps :: Possible(Opened(c.res, header), steps) ==> Conserved(After(Opened(c.res, header), steps)))
            <==> c.res.ses.strand == []
  {
    ServedIsOpening(c, header);
    ConservedExactly(Opened(c.res, header));
  }

  // ---------- two responses that break it ----------

  ghost predicate Reaches(c: Conn, d: Conn) {
    exists acts :: R.Run(TryAct, c, acts) == Some(d)
  }

  lemma ReachesNext(c: Conn, d: Conn, act: Act) returns (e: Conn)
    requires Reaches(c, d) && TryAct(d, act).Some?
    ensures Some(e) == TryAct(d, act) && Reaches(c, e)
  {
    var acts :| R.Run(TryAct, c, acts) == Some(d);
    R.RunSnoc(TryAct, c, acts, act);
    e := TryAct(d, act).value;
  }

  /** The last message is pushed while the header is written. */
  lemma PushedBehindHeader(header: Text) returns (c: Conn, last: Text)
    ensures Reaches(Fresh(header), c) && c.request == None && c.res.between && ContainsLast(last)
    ensures c.res.ses == Session(true, false, [last], [], [Header], 0)
  {
    last := Message([], true);
    TerminatorTest([], true);
    c := Fresh(header);
    assert R.Run(TryAct, c, []) == Some(c);
    c := ReachesNext(Fresh(header), c, Within(Run));
    assert c.res.ses == Session(true, false, [], [], [Header], 0);
    c := ReachesNext(Fresh(header), c, Within(Push([], true)));
  }

  /** It is taken before its producer posts. */
  lemma TakenBeforePost(header: Text) returns (c: Conn, last: Text)
    ensures Reaches(Fresh(header), c) && c.request == None && c.res.between && ContainsLast(last)
    ensures c.res.ses == Session(true, true, [], [], [Chunk(last)], 0)
  {
    c, last := PushedBehindHeader(header);
    c := ReachesNext(Fresh(header), c, Within(Complete(0)));
    assert c.res.ses == Session(true, false, [last], [HeaderWritten], [], 0);
    c := ReachesNext(Fresh(header), c, Within(Run));
  }

  /** That response ends, and its producer still has to post. */
  lemma EndedBeforePost(header: Text) returns (c: Conn)
    ensures Reaches(Fresh(header), c) && c.request == None && c.res.between
    ensures c.res.ses == Session(false, true, [], [], [], 1)
  {
    var last;
    c, last := TakenBeforePost(header);
    c := ReachesNext(Fresh(header), c, Within(Complete(0)));
    assert c.res.ses == Session(true, true, [], [ChunkWritten(last)], [], 0);
    c := ReachesNext(Fresh(header), c, Within(Run));
  }

  /**
   The next request is read before the producer of the last response posts its flush, so
   that the new response opens behind it.
   */
  lemma OpenedBehindFlush(header: Text, next: Text) returns (c: Conn)
    requires next != []
    ensures Reaches(Fresh(header), c) && c.request == None
    ensures c.res == State(Session(false, true, [], [Flush, Open], [], 0), next, [], false, [], false)
  {
    c := EndedBeforePost(header);
    c := ReachesNext(Fresh(header), c, Read);
    assert c.request == Some(0);
    c := ReachesNext(Fresh(header), c, Within(Post));
    assert c.res.ses == Session(false, true, [], [Flush], [], 1);
    c := ReachesNext(Fresh(header), c, Serve(next));
  }

  /** Two responses on a fresh connection suffice for a chunk to be sent before its header. */
  lemma SecondResponseOvertakes(header: Text, next: Text)
    requires next != []
    ensures exists c :: Reaches(Fresh(header), c) && c.res.header == next && !AllConserved(c)
  {
    var m := Message([], false);
    var c := OpenedBehindFlush(header, next);
    c := ReachesNext(Fresh(header), c, Within(Push([], false)));
    assert [] + [m] == [m];
    c := ReachesNext(Fresh(header), c, Within(Run));
    assert c.res.ses.inFlight == [Chunk(m)] && c.res.wire == [] && c.res.ses.queue == [];
    FlattenSnoc([], m);
    assert |c.res.header + Flatten(c.res.pushed)| > |c.res.wire + Flying(c.res) + [] + Flatten(c.res.ses.queue)|;
  }
}

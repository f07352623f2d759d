/** The session object: its fields and handlers, each tied to the protocol's functions. */
module StreamSession {
  import opened Bytes
  import opened Chunked
  import P = Streaming

  class Session {
    var isWriting: bool
    var headerSent: bool
    var streamingQueue: seq<Text>
    // Handlers posted to the strand, writes handed to the socket, and how often the
    // response was ended (by reading the next request or closing).
    var posted: seq<P.Handler>
    var started: seq<P.Write>
    var endings: nat

    ghost function View(): (s: P.Session)
      reads this
    {
      P.Session(isWriting, headerSent, streamingQueue, posted, started, endings)
    }

    constructor ()
      ensures View() == P.Session(false, false, [], [], [], 0)
    {
      isWriting, headerSent, streamingQueue := false, false, [];
      posted, started, endings := [], [], 0;
    }

    method InitiateStreaming()
      modifies this`posted
      ensures View() == P.InitiateStreaming(old(View()))
    {
      posted := posted + [P.Open];
    }

    /** The locked half of `stream_json_message`, run by the producer. */
    method PushMessage(json: Text, isEnd: bool)
      modifies this`streamingQueue
      ensures View() == old(View()).(queue := old(streamingQueue) + [Message(json, isEnd)])
    {
      var raw := DATA + json + [LF, LF];
      if isEnd {
        raw := raw + DONE;
      }
      assert raw == EventText(json, isEnd);
      var chunkedBytes := MakeChunk(raw);
      if isEnd {
        chunkedBytes := chunkedBytes + LAST;
      }
      assert chunkedBytes == Message(json, isEnd);
      streamingQueue := streamingQueue + [chunkedBytes];
    }

    method PostFlush()
      modifies this`posted
      ensures View() == old(View()).(strand := old(posted) + [P.Flush])
    {
      posted := posted + [P.Flush];
    }

    method FlushStreamingQueue()
      modifies this`isWriting, this`started, this`streamingQueue
      ensures View() == P.FlushQueue(old(View()))
    {
      if isWriting {
        return;
      }
      if !headerSent {
        isWriting := true;
        started := started + [P.Header];
        return;
      }
      if |streamingQueue| == 0 {
        return;
      }
      var currentChunk := streamingQueue[0];
      streamingQueue := streamingQueue[1..];
      isWriting := true;
      started := started + [P.Chunk(currentChunk)];
    }

    /** Takes the oldest handler off the strand and runs it. */
    method RunHandler()
      requires posted != []
      modifies this
      ensures View() == P.Handle(old(View()).(strand := old(posted)[1..]), old(posted)[0])
    {
      var handler := posted[0];
      posted := posted[1..];
      match handler
      case Open =>
        headerSent := false;
        FlushStreamingQueue();
      case Flush =>
        FlushStreamingQueue();
      case HeaderWritten =>
        headerSent := true;
        isWriting := false;
        FlushStreamingQueue();
      case ChunkWritten(currentChunk) =>
        isWriting := false;
        var found := FindLast(currentChunk);
        if found {
          endings := endings + 1;
          return;
        }
        FlushStreamingQueue();
    }

    /** The substring search for "0\r\n\r\n". */
    static method FindLast(chunk: Text) returns (found: bool)
      ensures found <==> ContainsLast(chunk)
    {
      for i := 0 to |chunk|
        invariant forall k :: 0 <= k < i ==> !LastAt(chunk, k)
      {
        if LastAt(chunk, i) {
          return true;
        }
      }
      return false;
    }
  }
}

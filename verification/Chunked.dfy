/**
 The bytes of a streamed response: server-sent events in the chunked transfer coding,
 and a decoder written from section 7.1 of RFC 9112.
 */
module Chunked {
  import opened Bytes

  const CR: byte := 13
  const LF: byte := 10
  const CRLF: Text := [CR, LF]
  /** "0\r\n\r\n": the last chunk and the empty trailer section. */
  const LAST: Text := [0x30, CR, LF, CR, LF]
  /** "data: " */
  const DATA: Text := [0x64, 0x61, 0x74, 0x61, 0x3A, 0x20]
  /** "data: [DONE]\n\n" */
  const DONE: Text := DATA + [0x5B, 0x44, 0x4F, 0x4E, 0x45, 0x5D, LF, LF]

  function HexDigit(d: nat): (b: byte)
    requires d < 16
  {
    if d < 10 then 0x30 + d else 0x57 + d
  }

  /** Lower-case hexadecimal without leading zeros. */
  function Hex(n: nat): (t: Text)
    ensures t != []
  {
    if n < 16 then [HexDigit(n)] else Hex(n / 16) + [HexDigit(n % 16)]
  }

  function MakeChunk(raw: Text): (chunk: Text) {
    Hex(|raw|) + CRLF + raw + CRLF
  }

  /** The event text of one message; the final one carries the "[DONE]" event as well. */
  function EventText(json: Text, isEnd: bool): (raw: Text)
    ensures raw != []
  {
    DATA + json + [LF, LF] + (if isEnd then DONE else [])
  }

  /** What `stream_json_message` queues. */
  function Message(json: Text, isEnd: bool): (bytes: Text) {
    MakeChunk(EventText(json, isEnd)) + (if isEnd then LAST else [])
  }

  predicate LastAt(t: Text, i: int) {
    0 <= i && i + 5 <= |t| && t[i] == 0x30 && t[i + 1] == CR && t[i + 2] == LF && t[i + 3] == CR && t[i + 4] == LF
  }

  /** The substring test that decides whether the response is over. */
  predicate ContainsLast(t: Text) {
    exists i :: 0 <= i < |t| && LastAt(t, i)
  }

  // ---------- the decoder of RFC 9112, section 7.1 ----------

  predicate IsHex(b: byte) {
    0x30 <= b <= 0x39 || 0x41 <= b <= 0x46 || 0x61 <= b <= 0x66
  }

  function HexValue(b: byte): (v: nat)
    requires IsHex(b)
  {
    if b <= 0x39 then b - 0x30 else if b <= 0x46 then b - 0x37 else b - 0x57
  }

  function DigitCount(t: Text): (n: nat)
    ensures n <= |t| && forall i :: 0 <= i < n ==> IsHex(t[i])
  {
    if t == [] || !IsHex(t[0]) then 0 else 1 + DigitCount(t[1..])
  }

  function HexNumber(t: Text): (n: nat)
    requires forall i :: 0 <= i < |t| ==> IsHex(t[i])
  {
    if t == [] then 0 else 16 * HexNumber(t[..|t| - 1]) + HexValue(t[|t| - 1])
  }

  /** A chunk size, a line end, that much content and a line end: the content and what follows. */
  function ReadChunk(t: Text): (r: Option<(Text, Text)>)
    ensures r.Some? ==> |r.value.1| < |t|
  {
    var n := DigitCount(t);
    var line := t[n..];
    if n == 0 || !StartsLineEnd(line) then None
    else
      var size, body := HexNumber(t[..n]), line[2..];
      if |body| < size || !StartsLineEnd(body[size..]) then None
      else Some((body[..size], body[size..][2..]))
  }

  /**
   Reads chunks up to and including the last chunk and an empty trailer section, and
   returns the content and what follows. Chunk extensions and trailer fields are errors.
   */
  function DecodeChunked(t: Text): (r: Option<(Text, Text)>)
    decreases |t|
  {
    var chunk := ReadChunk(t);
    if chunk.None? then None
    else if chunk.value.0 == [] then Some(([], chunk.value.1))
    else
      var rest := DecodeChunked(chunk.value.1);
      if rest.None? then None else Some((chunk.value.0 + rest.value.0, rest.value.1))
  }

  predicate StartsLineEnd(t: Text) {
    |t| >= 2 && t[0] == CR && t[1] == LF
  }

  // ---------- decoding undoes encoding ----------

  lemma {:induction false} HexRoundTrip(n: nat)
    ensures forall i :: 0 <= i < |Hex(n)| ==> IsHex(Hex(n)[i])
    ensures HexNumber(Hex(n)) == n
  {
    if n < 16 {
      assert Hex(n)[..0] == [];
      assert HexNumber(Hex(n)[..0]) == 0;
    } else {
      HexRoundTrip(n / 16);
      assert Hex(n)[..|Hex(n)| - 1] == Hex(n / 16);
    }
  }

  /** The digits are lower-case, and the first one is no zero. */
  lemma {:induction false} HexDigits(n: nat)
    ensures forall i :: 0 <= i < |Hex(n)| ==> 0x30 <= Hex(n)[i] <= 0x39 || 0x61 <= Hex(n)[i] <= 0x66
    ensures n > 0 ==> Hex(n)[0] != 0x30
  {
    if n >= 16 {
      HexDigits(n / 16);
    }
  }

  /** "x" as a chunk, and the last chunk. */
  lemma ChunkBytes()
    ensures MakeChunk([0x78]) == [0x31, 0x0D, 0x0A, 0x78, 0x0D, 0x0A]
    ensures LAST == [0x30, 0x0D, 0x0A, 0x0D, 0x0A]
  {
    assert Hex(1) == [0x31];
  }

  /** "data: [DONE]" and an empty line. */
  lemma DoneBytes()
    ensures DONE == [0x64, 0x61, 0x74, 0x61, 0x3A, 0x20, 0x5B, 0x44, 0x4F, 0x4E, 0x45, 0x5D, 0x0A, 0x0A]
  {
  }

  /** "data: ", the JSON and an empty line; the last message has "data: [DONE]" and an empty line behind it. */
  lemma EventBytes(json: Text)
    ensures EventText(json, false) == [0x64, 0x61, 0x74, 0x61, 0x3A, 0x20] + json + [0x0A, 0x0A]
    ensures EventText(json, true)
         == [0x64, 0x61, 0x74, 0x61, 0x3A, 0x20] + json + [0x0A, 0x0A]
            + [0x64, 0x61, 0x74, 0x61, 0x3A, 0x20, 0x5B, 0x44, 0x4F, 0x4E, 0x45, 0x5D, 0x0A, 0x0A]
  {
    NothingMore(DATA + json + [LF, LF]);
  }

  lemma {:induction false} DigitCountStops(digits: Text, rest: Text)
    requires forall i :: 0 <= i < |digits| ==> IsHex(digits[i])
    requires rest == [] || !IsHex(rest[0])
    ensures DigitCount(digits + rest) == |digits|
  {
    if digits == [] {
      assert digits + rest == rest;
    } else {
      assert (digits + rest)[1..] == digits[1..] + rest;
      DigitCountStops(digits[1..], rest);
    }
  }

  lemma ReadOneChunk(digits: Text, raw: Text, rest: Text)
    requires digits != [] && forall i :: 0 <= i < |digits| ==> IsHex(digits[i])
    requires HexNumber(digits) == |raw|
    ensures ReadChunk(digits + (CRLF + (raw + (CRLF + rest)))) == Some((raw, rest))
  {
    var body := raw + (CRLF + rest);
    DigitCountStops(digits, CRLF + body);
    Cut(digits, CRLF + body);
    Cut(CRLF, body);
    Cut(raw, CRLF + rest);
    Cut(CRLF, rest);
  }

  lemma DecodeOneChunk(digits: Text, raw: Text, rest: Text)
    requires digits != [] && forall i :: 0 <= i < |digits| ==> IsHex(digits[i])
    requires raw != [] && HexNumber(digits) == |raw| && DecodeChunked(rest).Some?
    ensures DecodeChunked(digits + (CRLF + (raw + (CRLF + rest))))
         == Some((raw + DecodeChunked(rest).value.0, DecodeChunked(rest).value.1))
  {
    ReadOneChunk(digits, raw, rest);
  }

  lemma DecodeLast(rest: Text)
    ensures DecodeChunked(LAST + rest) == Some(([], rest))
  {
    HexRoundTrip(0);
    assert Hex(0) == [0x30];
    ReadOneChunk([0x30], [], rest);
    assert LAST + rest == [0x30] + (CRLF + ([] + (CRLF + rest)));
  }

  /** The chunks of any non-empty payloads, then the last chunk, decode to the payloads. */
  lemma {:induction false} DecodeStream(raws: seq<Text>, rest: Text)
    requires forall i :: 0 <= i < |raws| ==> raws[i] != []
    ensures DecodeChunked(Flatten(Chunks(raws)) + LAST + rest) == Some((Flatten(raws), rest))
  {
    if raws == [] {
      assert Flatten(Chunks(raws)) + LAST + rest == LAST + rest;
      DecodeLast(rest);
    } else {
      var digits, raw, tail := Hex(|raws[0]|), raws[0], Flatten(Chunks(raws[1..])) + LAST + rest;
      DecodeStream(raws[1..], rest);
      calc {
        DecodeChunked(Flatten(Chunks(raws)) + LAST + rest);
        { ChunkInFront(raws, rest); }
        DecodeChunked(digits + (CRLF + (raw + (CRLF + tail))));
        { HexRoundTrip(|raw|); DecodeOneChunk(digits, raw, tail); }
        Some((raw + DecodeChunked(tail).value.0, DecodeChunked(tail).value.1));
        Some((raw + Flatten(raws[1..]), rest));
        Some((Flatten(raws), rest));
      }
    }
  }

  lemma ChunkInFront(raws: seq<Text>, rest: Text)
    requires raws != []
    ensures Flatten(Chunks(raws)) + LAST + rest
         == Hex(|raws[0]|) + (CRLF + (raws[0] + (CRLF + (Flatten(Chunks(raws[1..])) + LAST + rest))))
  {
    assert Chunks(raws)[1..] == Chunks(raws[1..]);
  }

  function Chunks(raws: seq<Text>): (chunks: seq<Text>)
    ensures |chunks| == |raws|
  {
    seq(|raws|, i requires 0 <= i < |raws| => MakeChunk(raws[i]))
  }

  // ---------- when the terminator test succeeds ----------

  /** The parts of a message that is not the last, and where each begins. */
  lemma MessageLayout(json: Text, c: Text, h: nat)
    requires c == Message(json, false) && h == |Hex(|EventText(json, false)|)|
    ensures |c| == h + 12 + |json|
    ensures forall i :: 0 <= i < h ==> IsHex(c[i])
    ensures c[h] == CR && c[h + 1] == LF
    ensures forall i :: h + 2 <= i < h + 8 ==> c[i] == DATA[i - h - 2]
    ensures forall i :: h + 8 <= i < h + 8 + |json| ==> c[i] == json[i - h - 8]
    ensures c[h + 8 + |json|] == LF && c[h + 9 + |json|] == LF
    ensures c[h + 10 + |json|] == CR && c[h + 11 + |json|] == LF
  {
    HexRoundTrip(|EventText(json, false)|);
    var hex := Hex(|EventText(json, false)|);
    assert c == hex + (CRLF + (DATA + (json + ([LF, LF] + CRLF))));
  }

  /** In a message that is not the last, the test can only succeed inside the JSON text. */
  lemma LastInJson(json: Text, i: int, h: nat)
    requires h == |Hex(|EventText(json, false)|)|
    ensures LastAt(Message(json, false), i) <==> LastAt(json + [LF], i - h - 8)
  {
    MessageLayout(json, Message(json, false), h);
  }

  /**
   The terminator test succeeds on the last message, and on another one exactly when its
   JSON text (followed by the line feed after it) contains the terminator itself.
   */
  lemma TerminatorTest(json: Text, isEnd: bool)
    ensures ContainsLast(Message(json, isEnd)) <==> isEnd || ContainsLast(json + [LF])
  {
    var c, t := Message(json, isEnd), json + [LF];
    if isEnd {
      assert LastAt(c, |c| - 5);
    } else {
      var h := |Hex(|EventText(json, false)|)|;
      if ContainsLast(c) {
        var i :| 0 <= i < |c| && LastAt(c, i);
        LastInJson(json, i, h);
        assert LastAt(t, i - h - 8);
      }
      if ContainsLast(t) {
        var k :| 0 <= k < |t| && LastAt(t, k);
        LastInJson(json, k + h + 8, h);
        assert LastAt(c, k + h + 8);
      }
    }
  }

  lemma TerminatorHasCarriageReturn(json: Text)
    requires ContainsLast(json + [LF])
    ensures CR in json
  {
    var k :| 0 <= k < |json + [LF]| && LastAt(json + [LF], k);
    assert json[k + 1] == CR;
  }

  /** Serialized JSON escapes control characters, so only the last message ends the response. */
  lemma CarriageFreeJson(json: Text, isEnd: bool)
    requires CR !in json
    ensures ContainsLast(Message(json, isEnd)) <==> isEnd
  {
    TerminatorTest(json, isEnd);
    if ContainsLast(json + [LF]) {
      TerminatorHasCarriageReturn(json);
    }
  }
}

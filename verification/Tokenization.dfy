/** What tokenizing means: special tokens, pretokenizer chunks, merging, id lookup and decoding. */
module Tokenization {
  import opened Bytes
  import opened Alphabet
  import opened Bpe
  import opened SpecialTokens

  // ---------- pretokenizing ----------

  datatype MatchResult = NoMatch | Error | Match(start: nat, end: nat)

  /** The compiled pattern: what it finds in a text from an offset on. */
  type Matcher = (Text, nat) -> MatchResult

  /** A match lies at or after the offset and is not empty. */
  ghost predicate MakesProgress(matcher: Matcher) {
    forall text: Text, offset: nat {:trigger matcher(text, offset)} ::
      offset < |text| && matcher(text, offset).Match? ==>
        offset <= matcher(text, offset).start < matcher(text, offset).end <= |text|
  }

  /** Every match found on the way from `offset` starts where the search started. */
  ghost predicate Anchored(matcher: Matcher, text: Text, offset: nat)
    requires MakesProgress(matcher)
    decreases |text| - offset
  {
    offset >= |text| ||
    match matcher(text, offset)
    case NoMatch => Anchored(matcher, text, offset + 1)
    case Error => true
    case Match(start, end) => start == offset && Anchored(matcher, text, end)
  }

  /** The chunks from `offset` on, or None where the matcher reports an error. */
  function Chunks(matcher: Matcher, text: Text, offset: nat): (chunks: Option<seq<Text>>)
    requires MakesProgress(matcher)
    decreases |text| - offset
  {
    if offset >= |text| then Some([])
    else
      match matcher(text, offset)
      case NoMatch =>
        var rest := Chunks(matcher, text, offset + 1);
        if rest.None? then None else Some([text[offset..offset + 1]] + rest.value)
      case Error => None
      case Match(start, end) =>
        var rest := Chunks(matcher, text, end);
        if rest.None? then None else Some([text[start..end]] + rest.value)
  }

  lemma {:induction false} ChunksShort(matcher: Matcher, text: Text, offset: nat)
    requires MakesProgress(matcher) && offset <= |text| && Chunks(matcher, text, offset).Some?
    ensures |Flatten(Chunks(matcher, text, offset).value)| <= |text| - offset
    ensures forall i :: 0 <= i < |Chunks(matcher, text, offset).value| ==> Chunks(matcher, text, offset).value[i] != []
    decreases |text| - offset
  {
    if offset < |text| {
      var m := matcher(text, offset);
      ChunksShort(matcher, text, if m.Match? then m.end else offset + 1);
    }
  }

  /** The chunks partition the text exactly when no match skips over bytes. */
  lemma {:induction false} ChunksPartition(matcher: Matcher, text: Text, offset: nat)
    requires MakesProgress(matcher) && offset <= |text| && Chunks(matcher, text, offset).Some?
    ensures Flatten(Chunks(matcher, text, offset).value) == text[offset..] <==> Anchored(matcher, text, offset)
    decreases |text| - offset
  {
    if offset < |text| {
      var m := matcher(text, offset);
      var start, end := if m.Match? then m.start else offset, if m.Match? then m.end else offset + 1;
      var rest := Chunks(matcher, text, end).value;
      ChunksPartition(matcher, text, end);
      ChunksShort(matcher, text, end);
      assert Chunks(matcher, text, offset).value == [text[start..end]] + rest;
      assert Flatten(Chunks(matcher, text, offset).value) == text[start..end] + Flatten(rest);
      if start == offset {
        assert text[offset..] == text[start..end] + text[end..];
        assert (text[start..end] + Flatten(rest))[end - start..] == Flatten(rest);
        assert text[offset..][end - start..] == text[end..];
      } else {
        assert |text[start..end] + Flatten(rest)| < |text[offset..]|;
      }
    }
  }

  // ---------- what tokenizing means ----------

  datatype Model = Model(tokens: seq<Text>, types: seq<int>, rules: seq<Text>, matcher: Matcher)

  ghost predicate Usable(m: Model) {
    |m.tokens| <= |m.types| && MakesProgress(m.matcher)
  }

  function MergeChunks(ranks: map<Text, nat>, chunks: seq<Text>): (tokens: seq<Text>) {
    if chunks == [] then [] else Greedy(ranks, GlyphTokens(chunks[0])) + MergeChunks(ranks, chunks[1..])
  }

  /** Text without special tokens: chunk it and merge each chunk. */
  function PlainTokens(m: Model, text: Text): (tokens: Option<seq<Text>>)
    requires Usable(m)
  {
    var chunks := Chunks(m.matcher, text, 0);
    if chunks.None? then None else Some(MergeChunks(RankTable(m.rules), chunks.value))
  }

  /** A stretch of text between special tokens, or the special token with index `id`. */
  datatype Span = Plain(text: Text) | Cut(id: nat)

  /** `pretext + text[start..]` with the special tokens cut out. */
  function Spans(tokens: seq<Text>, types: seq<int>, text: Text, start: nat, pretext: Text): (spans: seq<Span>)
    requires |tokens| <= |types| && start <= |text|
    ensures forall k :: 0 <= k < |spans| && spans[k].Cut? ==> Special(tokens, types, spans[k].id)
    decreases |text| - start
  {
    if start == |text| then
      if pretext == [] then [] else [Plain(pretext)]
    else
      var id := Longest(tokens, types, text, start);
      if id >= 0 then [Plain(pretext), Cut(id)] + Spans(tokens, types, text, start + |tokens[id]|, [])
      else Spans(tokens, types, text, start + 1, pretext + [text[start]])
  }

  function SpanTokens(m: Model, span: Span): (tokens: Option<seq<Text>>)
    requires Usable(m)
  {
    match span
    case Plain(text) => PlainTokens(m, text)
    case Cut(id) => if id < |m.tokens| then Some([m.tokens[id]]) else Some([])
  }

  function Render(m: Model, spans: seq<Span>): (tokens: Option<seq<Text>>)
    requires Usable(m)
  {
    if spans == [] then Some([])
    else
      var first, rest := SpanTokens(m, spans[0]), Render(m, spans[1..]);
      if first.None? || rest.None? then None else Some(first.value + rest.value)
  }

  /** The token strings of a text; None where the matcher reports an error. */
  function Segment(m: Model, text: Text): (tokens: Option<seq<Text>>)
    requires Usable(m)
  {
    Render(m, Spans(m.tokens, m.types, text, 0, []))
  }

  /** The id of a token string: its last index in the table, 0 when it has none. */
  function IdOf(tokens: seq<Text>, t: Text): (id: nat) {
    if tokens == [] then 0
    else if tokens[|tokens| - 1] == t then |tokens| - 1
    else IdOf(tokens[..|tokens| - 1], t)
  }

  lemma {:induction false} IdIsLastIndex(tokens: seq<Text>, t: Text)
    ensures t in tokens ==> IdOf(tokens, t) < |tokens| && tokens[IdOf(tokens, t)] == t
    ensures forall i :: 0 <= i < |tokens| && tokens[i] == t ==> i <= IdOf(tokens, t)
    ensures t !in tokens ==> IdOf(tokens, t) == 0
  {
    if tokens != [] && tokens[|tokens| - 1] != t {
      assert t in tokens ==> t in tokens[..|tokens| - 1];
      IdIsLastIndex(tokens[..|tokens| - 1], t);
    }
  }

  function IdsOf(tokens: seq<Text>, ts: seq<Text>): (ids: seq<nat>)
    ensures |ids| == |ts|
  {
    seq(|ts|, i requires 0 <= i < |ts| => IdOf(tokens, ts[i]))
  }

  function DecodeId(tokens: seq<Text>, toByte: map<Text, byte>, id: nat): (bytes: Text) {
    if id < |tokens| then Unglyph(toByte, tokens[id]) else []
  }

  function DecodeIds(tokens: seq<Text>, toByte: map<Text, byte>, ids: seq<nat>): (bytes: Text) {
    if ids == [] then [] else DecodeId(tokens, toByte, ids[0]) + DecodeIds(tokens, toByte, ids[1..])
  }

  // ---------- the round trip ----------

  ghost function Vocabulary(m: Model): (v: set<Text>) {
    set t | t in m.tokens
  }

  /** What the round trip asks of the matcher, the rules and the vocabulary. */
  ghost predicate Complete(m: Model) {
    && Usable(m)
    && (forall text :: Anchored(m.matcher, text, 0))
    && Closed(RankTable(m.rules), Vocabulary(m))
  }

  /** No special token holds a two-byte glyph; ASCII ones never do. */
  ghost predicate PlainSpecials(m: Model) {
    forall i :: Special(m.tokens, m.types, i) ==> !HasGlyphPair(m.tokens[i])
  }

  ghost predicate Faithful(m: Model) {
    Complete(m) && PlainSpecials(m)
  }

  lemma {:induction false} MergeChunksDecode(ranks: map<Text, nat>, toByte: map<Text, byte>, chunks: seq<Text>)
    requires InvertsGlyphs(toByte)
    ensures UnglyphAll(toByte, MergeChunks(ranks, chunks)) == Flatten(chunks)
  {
    if chunks != [] {
      MergeChunksDecode(ranks, toByte, chunks[1..]);
      ChunkRoundTrip(ranks, toByte, chunks[0]);
      UnglyphAllAppend(toByte, Greedy(ranks, GlyphTokens(chunks[0])), MergeChunks(ranks, chunks[1..]));
    }
  }

  lemma {:induction false} MergeChunksInVocabulary(ranks: map<Text, nat>, chunks: seq<Text>, vocabulary: set<Text>)
    requires Closed(ranks, vocabulary)
    ensures forall t :: t in MergeChunks(ranks, chunks) ==> t in vocabulary
  {
    if chunks != [] {
      MergeChunksInVocabulary(ranks, chunks[1..], vocabulary);
      GlyphTokensStart(chunks[0]);
      GreedyKeeps(ranks, GlyphTokens(chunks[0]), vocabulary);
    }
  }

  lemma PlainRoundTrip(m: Model, toByte: map<Text, byte>, text: Text)
    requires Faithful(m) && InvertsGlyphs(toByte) && PlainTokens(m, text).Some?
    ensures UnglyphAll(toByte, PlainTokens(m, text).value) == text
    ensures forall t :: t in PlainTokens(m, text).value ==> t in m.tokens
  {
    var chunks := Chunks(m.matcher, text, 0).value;
    ChunksPartition(m.matcher, text, 0);
    assert Anchored(m.matcher, text, 0);
    assert text[0..] == text;
    MergeChunksDecode(RankTable(m.rules), toByte, chunks);
    MergeChunksInVocabulary(RankTable(m.rules), chunks, Vocabulary(m));
  }

  function SpanText(tokens: seq<Text>, span: Span): (text: Text) {
    match span
    case Plain(text) => text
    case Cut(id) => if id < |tokens| then tokens[id] else []
  }

  function SpansText(tokens: seq<Text>, spans: seq<Span>): (text: Text) {
    if spans == [] then [] else SpanText(tokens, spans[0]) + SpansText(tokens, spans[1..])
  }

  lemma SpansTextAfterCut(tokens: seq<Text>, pretext: Text, id: nat, rest: seq<Span>)
    requires id < |tokens|
    ensures SpansText(tokens, [Plain(pretext), Cut(id)] + rest) == pretext + (tokens[id] + SpansText(tokens, rest))
  {
    var spans := [Plain(pretext), Cut(id)] + rest;
    assert spans[1..] == [Cut(id)] + rest;
    assert spans[1..][1..] == rest;
  }

  /** Cutting loses nothing. */
  lemma {:induction false} SpansCover(tokens: seq<Text>, types: seq<int>, text: Text, start: nat, pretext: Text)
    requires |tokens| <= |types| && start <= |text|
    ensures SpansText(tokens, Spans(tokens, types, text, start, pretext)) == pretext + text[start..]
    decreases |text| - start
  {
    var spans := Spans(tokens, types, text, start, pretext);
    if start == |text| {
      assert text[start..] == [] && SpansText(tokens, spans) == pretext;
    } else {
      var id := Longest(tokens, types, text, start);
      if id >= 0 {
        var next := start + |tokens[id]|;
        var rest := Spans(tokens, types, text, next, []);
        calc {
          SpansText(tokens, spans);
          { SpansTextAfterCut(tokens, pretext, id, rest); }
          pretext + (tokens[id] + SpansText(tokens, rest));
          { SpansCover(tokens, types, text, next, []); assert [] + text[next..] == text[next..]; }
          pretext + (tokens[id] + text[next..]);
          { SplitAt(text, start, next); }
          pretext + text[start..];
        }
      } else {
        SpansCover(tokens, types, text, start + 1, pretext + [text[start]]);
        SplitAt(text, start, start + 1);
        Assoc(pretext, [text[start]], text[start + 1..]);
      }
    }
  }

  lemma SpanDecodes(m: Model, toByte: map<Text, byte>, span: Span)
    requires Faithful(m) && InvertsGlyphs(toByte) && SpanTokens(m, span).Some?
    requires span.Cut? ==> Special(m.tokens, m.types, span.id)
    ensures UnglyphAll(toByte, SpanTokens(m, span).value) == SpanText(m.tokens, span)
    ensures forall t :: t in SpanTokens(m, span).value ==> t in m.tokens
  {
    match span
    case Plain(text) => PlainRoundTrip(m, toByte, text);
    case Cut(id) =>
      var one: seq<Text> := [m.tokens[id]];
      assert one[1..] == [];
      UnglyphIdentity(toByte, m.tokens[id]);
  }

  /** The rendered tokens decode to the text of the spans and are all in the table. */
  lemma {:induction false} RenderDecodes(m: Model, toByte: map<Text, byte>, spans: seq<Span>)
    requires Faithful(m) && InvertsGlyphs(toByte) && Render(m, spans).Some?
    requires forall k :: 0 <= k < |spans| && spans[k].Cut? ==> Special(m.tokens, m.types, spans[k].id)
    ensures UnglyphAll(toByte, Render(m, spans).value) == SpansText(m.tokens, spans)
    ensures forall t :: t in Render(m, spans).value ==> t in m.tokens
  {
    if spans != [] {
      SpanDecodes(m, toByte, spans[0]);
      RenderDecodes(m, toByte, spans[1..]);
      UnglyphAllAppend(toByte, SpanTokens(m, spans[0]).value, Render(m, spans[1..]).value);
    }
  }

  lemma {:induction false} DecodeIdsOf(tokens: seq<Text>, toByte: map<Text, byte>, ts: seq<Text>)
    requires forall t :: t in ts ==> t in tokens
    ensures DecodeIds(tokens, toByte, IdsOf(tokens, ts)) == UnglyphAll(toByte, ts)
  {
    if ts != [] {
      IdIsLastIndex(tokens, ts[0]);
      assert IdsOf(tokens, ts)[1..] == IdsOf(tokens, ts[1..]);
      DecodeIdsOf(tokens, toByte, ts[1..]);
    }
  }

  /** Decoding the ids of any text gives the text back, byte for byte. */
  lemma RoundTrip(m: Model, toByte: map<Text, byte>, text: Text)
    requires Faithful(m) && InvertsGlyphs(toByte) && Segment(m, text).Some?
    ensures DecodeIds(m.tokens, toByte, IdsOf(m.tokens, Segment(m, text).value)) == text
  {
    SpansCover(m.tokens, m.types, text, 0, []);
    RenderDecodes(m, toByte, Spans(m.tokens, m.types, text, 0, []));
    DecodeIdsOf(m.tokens, toByte, Segment(m, text).value);
    assert [] + text[0..] == text;
  }

  ghost predicate RoundTrips(m: Model, toByte: map<Text, byte>, text: Text)
    requires Usable(m)
  {
    Segment(m, text).Some? ==>
      DecodeIds(m.tokens, toByte, IdsOf(m.tokens, Segment(m, text).value)) == text
  }

  /** A special token that holds a two-byte glyph does not survive. */
  lemma GlyphPairBreaks(m: Model, toByte: map<Text, byte>, i: int)
    requires Usable(m) && InvertsGlyphs(toByte)
    requires Special(m.tokens, m.types, i) && HasGlyphPair(m.tokens[i])
    ensures !RoundTrips(m, toByte, m.tokens[i])
  {
    var text := m.tokens[i];
    var id := Longest(m.tokens, m.types, text, 0);
    LongestIsScanAnswer(m.tokens, m.types, text, 0, |text|);
    assert Stands(m.tokens, m.types, text, 0, |text|, i);
    assert m.tokens[id] == text by {
      assert text[0..|text|] == text;
    }
    var spans := Spans(m.tokens, m.types, text, 0, []);
    assert Spans(m.tokens, m.types, text, |text|, []) == [];
    assert spans == [Plain([]), Cut(id)];
    assert PlainTokens(m, []) == Some([]);
    assert spans[1..] == [Cut(id)] && spans[1..][1..] == [];
    assert Render(m, spans[1..][1..]) == Some([]);
    assert SpanTokens(m, spans[1]) == Some([text]);
    assert Render(m, spans[1..]) == Some([text] + []);
    var ts := Segment(m, text).value;
    assert ts == [text];
    DecodeIdsOf(m.tokens, toByte, ts);
    assert ts[1..] == [];
    UnglyphIdentity(toByte, text);
  }

  /**
   With a complete vocabulary and a partitioning matcher, the round trip holds for every
   text if and only if no special token holds a two-byte glyph.
   */
  lemma RoundTripExactly(m: Model, toByte: map<Text, byte>)
    requires Complete(m) && InvertsGlyphs(toByte)
    ensures (forall text :: RoundTrips(m, toByte, text)) <==> PlainSpecials(m)
  {
    if PlainSpecials(m) {
      forall text
        ensures RoundTrips(m, toByte, text)
      {
        if Segment(m, text).Some? {
          RoundTrip(m, toByte, text);
        }
      }
    } else {
      var i :| Special(m.tokens, m.types, i) && HasGlyphPair(m.tokens[i]);
      GlyphPairBreaks(m, toByte, i);
    }
  }
}

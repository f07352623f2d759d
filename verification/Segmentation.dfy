/**
 What tokenizing means, said without the functions that compute it: where the scanner
 stops, where special tokens are cut out, and which tokens stand between them.
 */
module Segmentation {
  import opened Bytes
  import opened Alphabet
  import opened Bpe
  import opened SpecialTokens
  import opened Tokenization

  // ---------- the chunks of a plain text ----------

  /** One step of the scanner: the whole match found at `from`, or one byte where there is none. */
  ghost predicate ScanStep(matcher: Matcher, text: Text, from: nat, to: nat, chunk: Text)
    requires MakesProgress(matcher)
  {
    from < |text| &&
    match matcher(text, from)
    case NoMatch => to == from + 1 && chunk == [text[from]]
    case Error => false
    case Match(start, end) => to == end && chunk == text[start..end]
  }

  /** The scanner's stops, beginning at `from`, and the chunks between them. */
  ghost predicate Scans(matcher: Matcher, text: Text, from: nat, stops: seq<nat>, chunks: seq<Text>)
    requires MakesProgress(matcher)
  {
    && |stops| == |chunks| + 1 && stops[0] == from
    && forall k :: 0 <= k < |chunks| ==> ScanStep(matcher, text, stops[k], stops[k + 1], chunks[k])
  }

  lemma ScansCons(matcher: Matcher, text: Text, from: nat, to: nat, chunk: Text, stops: seq<nat>, chunks: seq<Text>)
    requires MakesProgress(matcher)
    requires ScanStep(matcher, text, from, to, chunk) && Scans(matcher, text, to, stops, chunks)
    ensures Scans(matcher, text, from, [from] + stops, [chunk] + chunks)
  {
    var all, cs := [from] + stops, [chunk] + chunks;
    forall k | 0 <= k < |cs|
      ensures ScanStep(matcher, text, all[k], all[k + 1], cs[k])
    {
      if k > 0 {
        assert all[k] == stops[k - 1] && all[k + 1] == stops[k] && cs[k] == chunks[k - 1];
      }
    }
  }

  /** The chunks are those of the scan; it ends at the end of the text, or fails where the matcher does. */
  lemma {:induction false} ChunksScan(matcher: Matcher, text: Text, from: nat)
    returns (stops: seq<nat>, chunks: seq<Text>)
    requires MakesProgress(matcher) && from <= |text|
    ensures Scans(matcher, text, from, stops, chunks) && stops[|chunks|] <= |text|
    ensures match Chunks(matcher, text, from)
            case Some(cs) => cs == chunks && stops[|chunks|] == |text|
            case None => stops[|chunks|] < |text| && matcher(text, stops[|chunks|]).Error?
    decreases |text| - from
  {
    if from == |text| || matcher(text, from).Error? {
      stops, chunks := [from], [];
    } else {
      var m := matcher(text, from);
      var to := if m.Match? then m.end else from + 1;
      var chunk := if m.Match? then text[m.start..m.end] else text[from..from + 1];
      assert ScanStep(matcher, text, from, to, chunk);
      var rest, cs := ChunksScan(matcher, text, to);
      ScansCons(matcher, text, from, to, chunk, rest, cs);
      stops, chunks := [from] + rest, [chunk] + cs;
    }
  }

  // ---------- the tokens of a plain text ----------

  lemma {:induction false} MergedChunks(ranks: map<Text, nat>, chunks: seq<Text>)
    ensures MergeChunks(ranks, chunks)
         == Flatten(seq(|chunks|, i requires 0 <= i < |chunks| => Greedy(ranks, GlyphTokens(chunks[i]))))
  {
    var all := seq(|chunks|, i requires 0 <= i < |chunks| => Greedy(ranks, GlyphTokens(chunks[i])));
    if chunks != [] {
      MergedChunks(ranks, chunks[1..]);
      var rest := seq(|chunks| - 1, i requires 0 <= i < |chunks| - 1 => Greedy(ranks, GlyphTokens(chunks[1..][i])));
      assert all[1..] == rest;
    }
  }

  /** A text without special tokens becomes its chunks, each merged on its own. */
  lemma PlainTokensExactly(m: Model, text: Text)
    requires Usable(m)
    ensures PlainTokens(m, text).None? <==> Chunks(m.matcher, text, 0).None?
    ensures PlainTokens(m, text).Some? ==>
              var chunks := Chunks(m.matcher, text, 0).value;
              PlainTokens(m, text).value
              == Flatten(seq(|chunks|, i requires 0 <= i < |chunks| =>
                               Greedy(RankTable(m.rules), GlyphTokens(chunks[i]))))
  {
    if Chunks(m.matcher, text, 0).Some? {
      MergedChunks(RankTable(m.rules), Chunks(m.matcher, text, 0).value);
    }
  }

  /** With rules in learning order, the chunks are merged as GPT-2 merges them. */
  lemma PlainTokensReference(m: Model, text: Text)
    requires Usable(m) && LearningOrder(m.rules) && PlainTokens(m, text).Some?
    ensures Chunks(m.matcher, text, 0).Some?
    ensures var chunks := Chunks(m.matcher, text, 0).value;
            PlainTokens(m, text).value
            == Flatten(seq(|chunks|, i requires 0 <= i < |chunks| =>
                             Reference(RankTable(m.rules), GlyphTokens(chunks[i]))))
  {
    var ranks, chunks := RankTable(m.rules), Chunks(m.matcher, text, 0).value;
    PlainTokensExactly(m, text);
    LearningOrderExactly(m.rules);
    RankTableDistinct(m.rules);
    forall i | 0 <= i < |chunks|
      ensures Greedy(ranks, GlyphTokens(chunks[i])) == Reference(ranks, GlyphTokens(chunks[i]))
    {
      GlyphTokensStart(chunks[i]);
      GreedyIsReference(ranks, GlyphTokens(chunks[i]));
    }
    assert seq(|chunks|, i requires 0 <= i < |chunks| => Greedy(ranks, GlyphTokens(chunks[i])))
        == seq(|chunks|, i requires 0 <= i < |chunks| => Reference(ranks, GlyphTokens(chunks[i])));
  }

  // ---------- the cuts ----------

  /** No special token stands anywhere in text[from..to]. */
  ghost predicate NoneStands(tokens: seq<Text>, types: seq<int>, text: Text, from: nat, to: nat) {
    forall p: nat :: from <= p < to ==> ScanAnswer(tokens, types, text, p, |text|, -1)
  }

  /** A plain stretch in which no special token stands, or the longest one that stands at `from`. */
  ghost predicate SpanStep(tokens: seq<Text>, types: seq<int>, text: Text, from: nat, to: nat, span: Span) {
    from <= to <= |text| &&
    match span
    case Plain(t) => t == text[from..to] && NoneStands(tokens, types, text, from, to)
    case Cut(id) => id < |tokens| && to == from + |tokens[id]| && ScanAnswer(tokens, types, text, from, |text|, id)
  }

  /** The spans between these places, from `from` to the end; no two plain ones are neighbours. */
  ghost predicate CutsAt(tokens: seq<Text>, types: seq<int>, text: Text, from: nat, spans: seq<Span>, at: seq<nat>) {
    && |at| == |spans| + 1 && at[0] == from && at[|spans|] == |text|
    && (forall k :: 0 <= k < |spans| ==> SpanStep(tokens, types, text, at[k], at[k + 1], spans[k]))
    && (forall k :: 0 <= k < |spans| - 1 && spans[k].Plain? ==> spans[k + 1].Cut?)
  }

  lemma CutsCons(tokens: seq<Text>, types: seq<int>, text: Text, from: nat, cut: nat, to: nat,
                 pretext: Text, id: nat, spans: seq<Span>, at: seq<nat>)
    requires SpanStep(tokens, types, text, from, cut, Plain(pretext))
    requires SpanStep(tokens, types, text, cut, to, Cut(id)) && CutsAt(tokens, types, text, to, spans, at)
    ensures CutsAt(tokens, types, text, from, [Plain(pretext), Cut(id)] + spans, [from, cut] + at)
  {
    var all, places := [Plain(pretext), Cut(id)] + spans, [from, cut] + at;
    forall k | 0 <= k < |all|
      ensures SpanStep(tokens, types, text, places[k], places[k + 1], all[k])
    {
      if k >= 2 {
        assert places[k] == at[k - 2] && places[k + 1] == at[k - 1] && all[k] == spans[k - 2];
      }
    }
    forall k | 0 <= k < |all| - 1 && all[k].Plain?
      ensures all[k + 1].Cut?
    {
      if k >= 2 {
        assert all[k] == spans[k - 2] && all[k + 1] == spans[k - 1];
      }
    }
  }

  /** The spans are cut exactly where special tokens stand, the longest one each time. */
  lemma {:induction false} SpansExactly(tokens: seq<Text>, types: seq<int>, text: Text, from: nat, start: nat)
    returns (at: seq<nat>)
    requires |tokens| <= |types| && from <= start <= |text| && NoneStands(tokens, types, text, from, start)
    ensures CutsAt(tokens, types, text, from, Spans(tokens, types, text, start, text[from..start]), at)
    decreases |text| - start
  {
    if start == |text| {
      at := if from == start then [from] else [from, start];
    } else {
      var id := Longest(tokens, types, text, start);
      LongestIsScanAnswer(tokens, types, text, start, |text|);
      if id >= 0 {
        var to := start + |tokens[id]|;
        assert text[to..to] == [];
        var rest := SpansExactly(tokens, types, text, to, to);
        CutsCons(tokens, types, text, from, start, to, text[from..start], id, Spans(tokens, types, text, to, []), rest);
        at := [from, start] + rest;
      } else {
        assert text[from..start] + [text[start]] == text[from..start + 1];
        at := SpansExactly(tokens, types, text, from, start + 1);
      }
    }
  }

  // ---------- the tokens of a text ----------

  /** The scan of the whole of `plain`, and its chunks merged one by one. */
  ghost predicate MergedText(m: Model, plain: Text, tokens: seq<Text>)
    requires Usable(m)
  {
    exists stops, chunks ::
      && Scans(m.matcher, plain, 0, stops, chunks) && stops[|chunks|] == |plain|
      && tokens == Flatten(seq(|chunks|, i requires 0 <= i < |chunks| =>
                                 Greedy(RankTable(m.rules), GlyphTokens(chunks[i]))))
  }

  ghost predicate PieceOf(m: Model, span: Span, piece: seq<Text>)
    requires Usable(m)
  {
    match span
    case Plain(t) => MergedText(m, t, piece)
    case Cut(id) => id < |m.tokens| && piece == [m.tokens[id]]
  }

  /** These are the token strings of the spans, one piece each. */
  ghost predicate PiecesOf(m: Model, spans: seq<Span>, pieces: seq<seq<Text>>)
    requires Usable(m)
  {
    |pieces| == |spans| && forall k :: 0 <= k < |spans| ==> PieceOf(m, spans[k], pieces[k])
  }

  /**
   These are the token strings of a text: special tokens are cut out where they stand, and
   each stretch between them is scanned and its chunks are merged.
   */
  ghost predicate Tokenized(m: Model, text: Text, tokens: seq<Text>)
    requires Usable(m)
  {
    exists spans, at, pieces ::
      && CutsAt(m.tokens, m.types, text, 0, spans, at) && PiecesOf(m, spans, pieces)
      && tokens == Flatten(pieces)
  }

  lemma SpanPiece(m: Model, span: Span)
    requires Usable(m) && SpanTokens(m, span).Some? && (span.Cut? ==> span.id < |m.tokens|)
    ensures PieceOf(m, span, SpanTokens(m, span).value)
  {
    if span.Plain? {
      var stops, chunks := ChunksScan(m.matcher, span.text, 0);
      PlainTokensExactly(m, span.text);
    }
  }

  lemma {:induction false} RenderPieces(m: Model, spans: seq<Span>) returns (pieces: seq<seq<Text>>)
    requires Usable(m) && Render(m, spans).Some?
    requires forall k :: 0 <= k < |spans| && spans[k].Cut? ==> spans[k].id < |m.tokens|
    ensures PiecesOf(m, spans, pieces) && Render(m, spans).value == Flatten(pieces)
  {
    if spans == [] {
      pieces := [];
    } else {
      var first := SpanTokens(m, spans[0]).value;
      SpanPiece(m, spans[0]);
      var rest := RenderPieces(m, spans[1..]);
      pieces := [first] + rest;
      assert pieces[1..] == rest;
      forall k | 0 <= k < |spans|
        ensures PieceOf(m, spans[k], pieces[k])
      {
        if k > 0 {
          assert spans[1..][k - 1] == spans[k] && rest[k - 1] == pieces[k];
        }
      }
    }
  }

  /** The tokenizer's token strings are those. */
  lemma SegmentExactly(m: Model, text: Text)
    requires Usable(m) && Segment(m, text).Some?
    ensures Tokenized(m, text, Segment(m, text).value)
  {
    assert text[0..0] == [];
    var at := SpansExactly(m.tokens, m.types, text, 0, 0);
    var pieces := RenderPieces(m, Spans(m.tokens, m.types, text, 0, []));
  }

  lemma {:induction false} UncutSpans(tokens: seq<Text>, types: seq<int>, text: Text, start: nat)
    requires |tokens| <= |types| && start <= |text| && NoneStands(tokens, types, text, start, |text|)
    ensures Spans(tokens, types, text, start, text[..start]) == if text == [] then [] else [Plain(text)]
    decreases |text| - start
  {
    if start == |text| {
      assert text[..start] == text;
    } else {
      LongestIsScanAnswer(tokens, types, text, start, |text|);
      ScanAnswerUnique(tokens, types, text, start, |text|, Longest(tokens, types, text, start), -1);
      assert text[..start] + [text[start]] == text[..start + 1];
      UncutSpans(tokens, types, text, start + 1);
    }
  }

  /** A text in which no special token stands is tokenized as plain text. */
  lemma UncutText(m: Model, text: Text)
    requires Usable(m) && NoneStands(m.tokens, m.types, text, 0, |text|)
    ensures Segment(m, text) == PlainTokens(m, text)
  {
    UncutSpans(m.tokens, m.types, text, 0);
    assert text[..0] == [];
    if text == [] {
      assert Chunks(m.matcher, text, 0) == Some([]);
    } else {
      var one := [Plain(text)];
      assert one[1..] == [] && Render(m, one[1..]) == Some([]);
      if PlainTokens(m, text).Some? {
        NothingMore(PlainTokens(m, text).value);
      }
    }
  }

  /**
   The token strings of a text in which no special token stands: the chunks of the text, each
   merged greedily, and merged as GPT-2 does when the rules are in learning order.
   */
  lemma UncutTokens(m: Model, text: Text)
    requires Usable(m) && NoneStands(m.tokens, m.types, text, 0, |text|)
    ensures Segment(m, text).None? <==> Chunks(m.matcher, text, 0).None?
    ensures Segment(m, text).Some? ==>
              var chunks := Chunks(m.matcher, text, 0).value;
              Segment(m, text).value
              == Flatten(seq(|chunks|, i requires 0 <= i < |chunks| =>
                               Greedy(RankTable(m.rules), GlyphTokens(chunks[i]))))
    ensures Segment(m, text).Some? && LearningOrder(m.rules) ==>
              var chunks := Chunks(m.matcher, text, 0).value;
              Segment(m, text).value
              == Flatten(seq(|chunks|, i requires 0 <= i < |chunks| =>
                               Reference(RankTable(m.rules), GlyphTokens(chunks[i]))))
  {
    UncutText(m, text);
    PlainTokensExactly(m, text);
    if Segment(m, text).Some? && LearningOrder(m.rules) {
      PlainTokensReference(m, text);
    }
  }

  /** The ids are the last indices of the text's token strings, 0 for a string not in the table. */
  ghost predicate IdsExactly(m: Model, text: Text, ids: seq<nat>)
    requires Usable(m)
  {
    exists tokens :: Tokenized(m, text, tokens) && ids == IdsOf(m.tokens, tokens)
  }

  /** Where no special token stands, they are the ids of the merged chunks of the text. */
  ghost predicate UncutIds(m: Model, text: Text, ids: seq<nat>)
    requires Usable(m)
  {
    NoneStands(m.tokens, m.types, text, 0, |text|) ==>
      && Chunks(m.matcher, text, 0).Some?
      && var chunks := Chunks(m.matcher, text, 0).value;
         ids == IdsOf(m.tokens, Flatten(seq(|chunks|, i requires 0 <= i < |chunks| =>
                                              Greedy(RankTable(m.rules), GlyphTokens(chunks[i])))))
  }

  lemma SegmentIds(m: Model, text: Text)
    requires Usable(m) && Segment(m, text).Some?
    ensures IdsExactly(m, text, IdsOf(m.tokens, Segment(m, text).value))
    ensures UncutIds(m, text, IdsOf(m.tokens, Segment(m, text).value))
  {
    SegmentExactly(m, text);
    if NoneStands(m.tokens, m.types, text, 0, |text|) {
      UncutTokens(m, text);
    }
  }
}

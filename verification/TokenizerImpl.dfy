/** The tokenizer object: the tables its builders fill, and its loops. */
module TokenizerImpl {
  import opened Bytes
  import opened Alphabet
  import opened Bpe
  import opened SpecialTokens
  import opened Tokenization
  import opened Segmentation

  ghost function Prepend(done: seq<Text>, rest: Option<seq<Text>>): Option<seq<Text>> {
    if rest.None? then None else Some(done + rest.value)
  }

  lemma RenderAfterCut(m: Model, pretext: Text, id: nat, rest: seq<Span>)
    requires Usable(m) && id < |m.tokens|
    ensures Render(m, [Plain(pretext), Cut(id)] + rest)
         == if PlainTokens(m, pretext).None? then None
            else Prepend(PlainTokens(m, pretext).value + [m.tokens[id]], Render(m, rest))
  {
    var spans := [Plain(pretext), Cut(id)] + rest;
    assert spans[1..] == [Cut(id)] + rest;
    assert spans[1..][1..] == rest;
    if PlainTokens(m, pretext).Some? && Render(m, rest).Some? {
      var before, t, after := PlainTokens(m, pretext).value, m.tokens[id], Render(m, rest).value;
      assert Render(m, spans[1..]) == Some([t] + after);
      assert before + ([t] + after) == (before + [t]) + after;
    }
  }

  lemma PrependTwice(a: seq<Text>, b: seq<Text>, rest: Option<seq<Text>>)
    ensures Prepend(a, Prepend(b, rest)) == Prepend(a + b, rest)
  {
    if rest.Some? {
      assert a + (b + rest.value) == (a + b) + rest.value;
    }
  }

  lemma PrependNothing(rest: Option<seq<Text>>)
    ensures Prepend([], rest) == rest
  {
    if rest.Some? {
      assert [] + rest.value == rest.value;
    }
  }

  /** The loop of `Segmented`: `done` is finished, `pretext + text[start..]` is left. */
  ghost predicate Reached(m: Model, text: Text, done: seq<Text>, start: nat, pretext: Text)
    requires Usable(m) && start <= |text|
  {
    Segment(m, text) == Prepend(done, Render(m, Spans(m.tokens, m.types, text, start, pretext)))
  }

  lemma ReachedStart(m: Model, text: Text)
    requires Usable(m)
    ensures Reached(m, text, [], 0, [])
  {
    PrependNothing(Segment(m, text));
  }

  lemma ReachedSkip(m: Model, text: Text, done: seq<Text>, start: nat, pretext: Text)
    requires Usable(m) && start < |text| && Reached(m, text, done, start, pretext)
    requires Longest(m.tokens, m.types, text, start) < 0
    ensures Reached(m, text, done, start + 1, pretext + [text[start]])
  {
  }

  lemma ReachedCut(m: Model, text: Text, done: seq<Text>, start: nat, pretext: Text, id: nat,
                   appended: Option<seq<Text>>)
    requires Usable(m) && start < |text| && Reached(m, text, done, start, pretext)
    requires Longest(m.tokens, m.types, text, start) == id
    requires appended == Prepend(done, PlainTokens(m, pretext))
    ensures appended.None? ==> Segment(m, text) == None
    ensures appended.Some? ==>
              Reached(m, text, appended.value + [m.tokens[id]], start + |m.tokens[id]|, [])
  {
    var next := Spans(m.tokens, m.types, text, start + |m.tokens[id]|, []);
    RenderAfterCut(m, pretext, id, next);
    if appended.Some? {
      var before, t := PlainTokens(m, pretext).value, m.tokens[id];
      PrependTwice(done, before + [t], Render(m, next));
      assert done + (before + [t]) == done + before + [t];
    }
  }

  lemma ReachedEnd(m: Model, text: Text, done: seq<Text>, pretext: Text)
    requires Usable(m) && Reached(m, text, done, |text|, pretext)
    ensures Segment(m, text) == if pretext == [] then Some(done) else Prepend(done, PlainTokens(m, pretext))
  {
    assert done + [] == done;
    if pretext != [] {
      var last := [Plain(pretext)];
      assert Spans(m.tokens, m.types, text, |text|, pretext) == last;
      assert last[1..] == [] && Render(m, last[1..]) == Some([]);
      if PlainTokens(m, pretext).Some? {
        assert PlainTokens(m, pretext).value + [] == PlainTokens(m, pretext).value;
      }
    }
  }

  /** Both scans below `|tokens| - 1` and below `|tokens|` see the same pairs. */
  lemma BestIsBelowLast(ranks: map<Text, nat>, tokens: seq<Text>)
    requires tokens != []
    ensures Best(ranks, tokens) == BestBelow(ranks, tokens, |tokens| - 1)
  {
    assert !MergeableAt(ranks, tokens, |tokens| - 1);
  }

  /** `out` is what the bytes before `i` decode to, and the decoder's walk goes on at `i`. */
  ghost predicate DecodedTo(table: map<Text, byte>, token: Text, i: nat, out: Text)
    requires i <= |token|
  {
    Unglyph(table, token) == out + Unglyph(table, token[i..])
  }

  lemma DecodedStart(table: map<Text, byte>, token: Text)
    ensures DecodedTo(table, token, 0, [])
  {
    assert token[0..] == token;
    assert [] + Unglyph(table, token) == Unglyph(table, token);
  }

  lemma PieceAt(token: Text, i: nat, n: nat)
    requires i < |token| && n == PieceLength(token[i])
    ensures Piece(token[i..]) == if i + n <= |token| then token[i..i + n] else token[i..]
  {
    var rest := token[i..];
    assert rest[0] == token[i];
    assert i + n <= |token| ==> rest[..n] == token[i..i + n];
  }

  lemma DecodedPiece(table: map<Text, byte>, token: Text, i: nat, out: Text, piece: Text)
    requires i < |token| && DecodedTo(table, token, i, out) && piece == Piece(token[i..])
    ensures i + |piece| <= |token|
    ensures DecodedTo(table, token, i + |piece|, out + if piece in table then [table[piece]] else piece)
  {
    assert token[i..][|piece|..] == token[i + |piece|..];
    Assoc(out, if piece in table then [table[piece]] else piece, Unglyph(table, token[i + |piece|..]));
  }

  lemma DecodedEnd(table: map<Text, byte>, token: Text, out: Text)
    requires DecodedTo(table, token, |token|, out)
    ensures out == Unglyph(table, token)
  {
    NothingMore(out);
  }

  class Tokenizer {
    const m: Model
    var byteToUnicode: map<byte, Text>
    var unicodeToByte: map<Text, byte>
    var ranks: map<Text, nat>
    var tokenToId: map<Text, nat>
    var idToToken: map<nat, Text>
    const trie: SpecialTokenTrie

    /** Each table is what its builder promises; lookups may have added id 0 for unknown tokens. */
    ghost predicate Valid()
      reads this, trie, trie.Nodes()
    {
      && Usable(m) && TablesBuilt()
      && trie.Valid() && trie.Holds(m.tokens, m.types, |m.tokens|)
    }

    ghost predicate TablesBuilt()
      reads this
    {
      GlyphTables(256) && ranks == RankTable(m.rules) && IdTables(m.tokens)
    }

    /** The alphabet tables hold exactly the first `n` bytes. */
    ghost predicate GlyphTables(n: nat)
      requires n <= 256
      reads this`byteToUnicode, this`unicodeToByte
    {
      && (forall b: byte :: b in byteToUnicode <==> b < n)
      && (forall b: byte :: b < n ==> byteToUnicode[b] == Glyph(b))
      && (forall b: byte :: b < n ==> Glyph(b) in unicodeToByte && unicodeToByte[Glyph(b)] == b)
      && (forall t :: t in unicodeToByte ==> unicodeToByte[t] < n && t == Glyph(unicodeToByte[t]))
    }

    ghost predicate IdTables(tokens: seq<Text>)
      reads this`tokenToId, this`idToToken
    {
      && (forall i: nat :: i in idToToken <==> i < |tokens|)
      && (forall i :: 0 <= i < |tokens| ==> idToToken[i] == tokens[i])
      && (forall t :: t in tokens ==> t in tokenToId)
      && (forall t :: t in tokenToId ==> tokenToId[t] == IdOf(tokens, t))
    }

    constructor ForModel(model: Model)
      requires Usable(model)
      ensures m == model && Valid() && fresh(trie) && fresh(trie.Nodes())
    {
      m := model;
      byteToUnicode, unicodeToByte, ranks, tokenToId, idToToken := map[], map[], map[], map[], map[];
      trie := new SpecialTokenTrie();
      new;
      BuildByteToUnicodeMap();
      BuildTokenIdMap();
      BuildMergesMap();
      assert TablesBuilt();
      trie.BuildFromTokens(m.tokens, m.types);
    }

    /** Marks the three printable ranges. */
    static method PrintableTable() returns (printable: seq<bool>)
      ensures |printable| == 256 && forall b: byte :: printable[b] <==> Printable(b)
    {
      printable := seq(256, _ => false);
      for b := 0x21 to 0x7F
        invariant |printable| == 256 && forall c: byte :: printable[c] <==> 0x21 <= c < b
      {
        printable := printable[b := true];
      }
      for b := 0xA1 to 0xAD
        invariant |printable| == 256 && forall c: byte :: printable[c] <==> 0x21 <= c < 0x7F || 0xA1 <= c < b
      {
        printable := printable[b := true];
      }
      for b := 0xAE to 0x100
        invariant |printable| == 256
        invariant forall c: byte :: printable[c] <==> 0x21 <= c < 0x7F || 0xA1 <= c < 0xAD || 0xAE <= c < b
      {
        printable := printable[b := true];
      }
    }

    /** Fills both alphabet tables; unprintable bytes take the code points from 256 on, in order. */
    method BuildByteToUnicodeMap()
      requires byteToUnicode == map[] && unicodeToByte == map[]
      modifies this`byteToUnicode, this`unicodeToByte
      ensures GlyphTables(256) && InvertsGlyphs(unicodeToByte)
    {
      var printable := PrintableTable();
      var shifted := 256;
      for b := 0 to 256
        invariant shifted == 256 + Shifted(b)
        invariant GlyphTables(b)
      {
        var unicode;
        if printable[b] {
          unicode := Utf8(b);
        } else {
          unicode := Utf8(shifted);
          shifted := shifted + 1;
        }
        EnterGlyph(b, unicode);
      }
      ByteTableInverts();
    }

    method EnterGlyph(b: byte, unicode: Text)
      requires GlyphTables(b) && unicode == Glyph(b)
      modifies this`byteToUnicode, this`unicodeToByte
      ensures GlyphTables(b + 1)
    {
      forall c: byte | c < b
        ensures Glyph(c) != Glyph(b)
      {
        if Glyph(c) == Glyph(b) {
          GlyphInjective(c, b);
        }
      }
      byteToUnicode := byteToUnicode[b := unicode];
      unicodeToByte := unicodeToByte[unicode := b];
    }

    /** The rank of a rule is its last position in the list. */
    method BuildMergesMap()
      requires ranks == map[]
      modifies this`ranks
      ensures ranks == RankTable(m.rules) && DistinctRanks(ranks)
    {
      for i := 0 to |m.rules|
        invariant ranks == RankTable(m.rules[..i])
      {
        assert m.rules[..i + 1][..i] == m.rules[..i];
        ranks := ranks[m.rules[i] := i];
      }
      assert m.rules[..|m.rules|] == m.rules;
      RankTableDistinct(m.rules);
    }

    method BuildTokenIdMap()
      requires tokenToId == map[] && idToToken == map[]
      modifies this`tokenToId, this`idToToken
      ensures IdTables(m.tokens)
    {
      for i := 0 to |m.tokens|
        invariant IdTables(m.tokens[..i])
      {
        assert m.tokens[..i + 1] == m.tokens[..i] + [m.tokens[i]];
        tokenToId := tokenToId[m.tokens[i] := i];
        idToToken := idToToken[i := m.tokens[i]];
      }
      assert m.tokens[..|m.tokens|] == m.tokens;
    }

    lemma ByteTableInverts()
      requires GlyphTables(256)
      ensures InvertsGlyphs(unicodeToByte)
    {
    }

    /** Splits a text by the pattern; an unmatched byte becomes a chunk of its own. */
    method Pretokenize(text: Text) returns (chunks: Option<seq<Text>>)
      requires Usable(m)
      ensures chunks == Chunks(m.matcher, text, 0)
    {
      var done: seq<Text> := [];
      var offset := 0;
      PrependNothing(Chunks(m.matcher, text, 0));
      while offset < |text|
        invariant 0 <= offset <= |text|
        invariant Chunks(m.matcher, text, 0) == Prepend(done, Chunks(m.matcher, text, offset))
        decreases |text| - offset
      {
        match m.matcher(text, offset)
        case NoMatch =>
          PrependTwice(done, [text[offset..offset + 1]], Chunks(m.matcher, text, offset + 1));
          done := done + [text[offset..offset + 1]];
          offset := offset + 1;
        case Error =>
          return None;
        case Match(start, end) =>
          PrependTwice(done, [text[start..end]], Chunks(m.matcher, text, end));
          done := done + [text[start..end]];
          offset := end;
      }
      assert done + [] == done;
      chunks := Some(done);
    }

    /** Merges a chunk: the GPT-2 tokens whenever the rules are in learning order. */
    method SplitAndMerge(chunk: Text) returns (tokens: seq<Text>)
      requires chunk != []
      requires GlyphTables(256) && ranks == RankTable(m.rules)
      ensures tokens == Greedy(ranks, GlyphTokens(chunk))
      ensures WellOrdered(ranks) ==> tokens == Reference(ranks, GlyphTokens(chunk))
    {
      tokens := [];
      for k := 0 to |chunk|
        invariant tokens == GlyphTokens(chunk)[..k]
      {
        tokens := tokens + [byteToUnicode[chunk[k]]];
      }
      assert GlyphTokens(chunk)[..|chunk|] == GlyphTokens(chunk);
      tokens := MergeAllRounds(tokens);
      GlyphTokensStart(chunk);
      RankTableDistinct(m.rules);
      if WellOrdered(ranks) {
        GreedyIsReference(ranks, GlyphTokens(chunk));
      }
    }

    method MergeAllRounds(start: seq<Text>) returns (tokens: seq<Text>)
      requires start != []
      ensures tokens == Greedy(ranks, start)
    {
      tokens := start;
      while true
        invariant tokens != []
        invariant Greedy(ranks, tokens) == Greedy(ranks, start)
        decreases |tokens|
      {
        var best := BestPair(tokens);
        if best == None {
          break;
        }
        tokens := MergeAt(tokens, best.value);
      }
    }

    /** Collects the ranked pairs and takes the first one of lowest rank. */
    method BestPair(tokens: seq<Text>) returns (best: Option<nat>)
      requires tokens != []
      ensures best == Best(ranks, tokens)
    {
      var pairs: seq<(nat, nat)> := [];
      for i := 0 to |tokens| - 1
        invariant pairs == RankedPairs(ranks, tokens, i)
      {
        var key := Key(tokens[i], tokens[i + 1]);
        if key in ranks {
          pairs := pairs + [(i, ranks[key])];
        }
      }
      FirstLeastIsBest(ranks, tokens, |tokens| - 1);
      BestIsBelowLast(ranks, tokens);
      if |pairs| == 0 {
        return None;
      }
      var least := pairs[0];
      assert pairs[..1][..0] == [];
      for k := 1 to |pairs|
        invariant FirstLeast(pairs[..k]) == Some(least)
      {
        assert pairs[..k + 1][..k] == pairs[..k];
        if pairs[k].1 < least.1 {
          least := pairs[k];
        }
      }
      assert pairs[..|pairs|] == pairs;
      best := Some(least.0);
    }

    /** Decodes a token piece by piece. */
    method UnicodeToChars(token: Text) returns (out: Text)
      ensures out == Unglyph(unicodeToByte, token)
    {
      out := [];
      var i := 0;
      DecodedStart(unicodeToByte, token);
      while i < |token|
        invariant 0 <= i <= |token| && DecodedTo(unicodeToByte, token, i, out)
      {
        var n := PieceLength(token[i]);
        var piece := if i + n <= |token| then token[i..i + n] else token[i..];
        PieceAt(token, i, n);
        DecodedPiece(unicodeToByte, token, i, out, piece);
        out := out + if piece in unicodeToByte then [unicodeToByte[piece]] else piece;
        i := i + |piece|;
      }
      DecodedEnd(unicodeToByte, token, out);
    }

    /** Appends the tokens of plain text to `tokens`. */
    method BpeText(text: Text, tokens: seq<Text>) returns (r: Option<seq<Text>>)
      requires Usable(m) && GlyphTables(256) && ranks == RankTable(m.rules)
      ensures r == Prepend(tokens, PlainTokens(m, text))
    {
      var chunks := Pretokenize(text);
      if chunks.None? {
        return None;
      }
      ChunksShort(m.matcher, text, 0);
      var out := tokens;
      assert chunks.value[0..] == chunks.value;
      for k := 0 to |chunks.value|
        invariant out + MergeChunks(ranks, chunks.value[k..]) == tokens + MergeChunks(ranks, chunks.value)
      {
        var merged := SplitAndMerge(chunks.value[k]);
        assert chunks.value[k..][1..] == chunks.value[k + 1..];
        out := out + merged;
      }
      assert out + [] == out;
      r := Some(out);
    }

    /** The special token to cut out at `start`, or -1. */
    method SpecialAt(text: Text, start: nat) returns (id: int)
      requires start <= |text| && Usable(m)
      requires trie.Valid() && trie.Holds(m.tokens, m.types, |m.tokens|)
      modifies trie.Nodes()`next
      ensures trie.Valid() && trie.Holds(m.tokens, m.types, |m.tokens|)
      ensures id == Longest(m.tokens, m.types, text, start)
    {
      id := trie.Match(text, start, |text|, m.tokens, m.types);
    }

    /** One round of the loop below, once the trie has answered `id`. */
    method Advance(text: Text, done: seq<Text>, start: nat, pretext: Text, id: int)
      returns (failed: bool, done': seq<Text>, start': nat, pretext': Text)
      requires Usable(m) && GlyphTables(256) && ranks == RankTable(m.rules) && IdTables(m.tokens)
      requires start < |text| && Reached(m, text, done, start, pretext)
      requires Longest(m.tokens, m.types, text, start) == id
      ensures failed ==> Segment(m, text) == None
      ensures !failed ==> start < start' <= |text| && Reached(m, text, done', start', pretext')
    {
      if id >= 0 {
        var special := idToToken[id];
        var appended := BpeText(pretext, done);
        ReachedCut(m, text, done, start, pretext, id, appended);
        if appended.None? {
          return true, done, start, pretext;
        }
        return false, appended.value + [special], start + |special|, [];
      } else {
        ReachedSkip(m, text, done, start, pretext);
        return false, done, start + 1, pretext + [text[start]];
      }
    }

    /** The token strings of a text: special tokens are cut out, the rest is merged. */
    method Segmented(text: Text) returns (tokens: Option<seq<Text>>)
      requires Usable(m) && GlyphTables(256) && ranks == RankTable(m.rules) && IdTables(m.tokens)
      requires trie.Valid() && trie.Holds(m.tokens, m.types, |m.tokens|)
      modifies trie.Nodes()`next
      ensures trie.Valid() && trie.Holds(m.tokens, m.types, |m.tokens|)
      ensures tokens == Segment(m, text)
    {
      var done: seq<Text> := [];
      var start := 0;
      var pretext: Text := [];
      ReachedStart(m, text);
      while start < |text|
        invariant 0 <= start <= |text|
        invariant trie.Valid() && trie.Holds(m.tokens, m.types, |m.tokens|)
        invariant Reached(m, text, done, start, pretext)
        decreases |text| - start
      {
        var id := SpecialAt(text, start);
        var failed;
        failed, done, start, pretext := Advance(text, done, start, pretext, id);
        if failed {
          return None;
        }
      }
      ReachedEnd(m, text, done, pretext);
      if |pretext| > 0 {
        tokens := BpeText(pretext, done);
      } else {
        tokens := Some(done);
      }
    }

    /**
     The ids of a text's token strings, which are the special tokens that stand in it and,
     between them, the merged chunks. An unknown token string gets id 0 and is added to the
     table with that id. Decoding the ids gives the text back for every faithful model.
     */
    method Tokenize(text: Text) returns (ids: Option<seq<nat>>)
      requires Valid()
      modifies this`tokenToId, trie.Nodes()`next
      ensures Valid()
      ensures ids.Some? ==> IdsExactly(m, text, ids.value) && UncutIds(m, text, ids.value)
      ensures ids == if Segment(m, text).None? then None else Some(IdsOf(m.tokens, Segment(m, text).value))
      ensures Faithful(m) && ids.Some? ==> DecodeIds(m.tokens, unicodeToByte, ids.value) == text
    {
      ids := TokenIds(text);
      if ids.Some? {
        SegmentIds(m, text);
        ByteTableInverts();
        if Faithful(m) {
          RoundTrip(m, unicodeToByte, text);
        }
      }
    }

    /** The token strings, looked up. */
    method TokenIds(text: Text) returns (ids: Option<seq<nat>>)
      requires Valid()
      modifies this`tokenToId, trie.Nodes()`next
      ensures Valid()
      ensures ids == if Segment(m, text).None? then None else Some(IdsOf(m.tokens, Segment(m, text).value))
    {
      var tokens := Segmented(text);
      if tokens.None? {
        return None;
      }
      var list := LookUp(tokens.value);
      ids := Some(list);
    }

    /** The id of each token string; an unknown one is entered with id 0. */
    method LookUp(tokens: seq<Text>) returns (ids: seq<nat>)
      requires IdTables(m.tokens)
      modifies this`tokenToId
      ensures IdTables(m.tokens) && ids == IdsOf(m.tokens, tokens)
      ensures |ids| == |tokens| && forall k :: 0 <= k < |tokens| ==> ids[k] == IdOf(m.tokens, tokens[k])
    {
      ids := [];
      for k := 0 to |tokens|
        invariant IdTables(m.tokens) && ids == IdsOf(m.tokens, tokens)[..k]
      {
        var t := tokens[k];
        if t !in tokenToId {
          IdIsLastIndex(m.tokens, t);
          tokenToId := tokenToId[t := 0];
        }
        ids := ids + [tokenToId[t]];
      }
    }

    /** The bytes of one id; nothing for an id outside the table. */
    method Decode(id: nat) returns (bytes: Text)
      requires Valid()
      ensures bytes == DecodeId(m.tokens, unicodeToByte, id)
      ensures bytes == if id < |m.tokens| then Unglyph(unicodeToByte, m.tokens[id]) else []
    {
      if id in idToToken {
        bytes := UnicodeToChars(idToToken[id]);
      } else {
        bytes := [];
      }
    }
  }
}

/**
 Greedy byte-pair merging: one leftmost lowest-rank pair per round, as the tokenizer
 does it, against the GPT-2 reference that merges every occurrence of the best pair in
 each pass.
 */
module Bpe {
  import opened Bytes
  import opened Alphabet

  /** The text under which the rule (a, b) is filed: the two tokens joined by a space. */
  function Key(a: Text, b: Text): (k: Text) {
    a + [SPACE] + b
  }

  /** The rank table of a list of rules; a repeated rule keeps its last position. */
  function RankTable(rules: seq<Text>): (ranks: map<Text, nat>) {
    if rules == [] then map[]
    else RankTable(rules[..|rules| - 1])[rules[|rules| - 1] := |rules| - 1]
  }

  predicate MergeableAt(ranks: map<Text, nat>, s: seq<Text>, i: int) {
    0 <= i < |s| - 1 && Key(s[i], s[i + 1]) in ranks
  }

  function RankAt(ranks: map<Text, nat>, s: seq<Text>, i: int): (r: nat)
    requires MergeableAt(ranks, s, i)
  {
    ranks[Key(s[i], s[i + 1])]
  }

  /** No pair has a lower rank than the one at `i`, and none further left has the same. */
  ghost predicate IsBest(ranks: map<Text, nat>, s: seq<Text>, i: int) {
    && MergeableAt(ranks, s, i)
    && forall j :: MergeableAt(ranks, s, j) ==>
         RankAt(ranks, s, i) < RankAt(ranks, s, j) || (RankAt(ranks, s, i) == RankAt(ranks, s, j) && i <= j)
  }

  function BestBelow(ranks: map<Text, nat>, s: seq<Text>, n: nat): (best: Option<nat>)
    ensures best.None? ==> forall j :: 0 <= j < n ==> !MergeableAt(ranks, s, j)
    ensures best.Some? ==> best.value < n && MergeableAt(ranks, s, best.value)
    ensures best.Some? ==> forall j :: 0 <= j < n && MergeableAt(ranks, s, j) ==>
                             RankAt(ranks, s, best.value) < RankAt(ranks, s, j)
                             || (RankAt(ranks, s, best.value) == RankAt(ranks, s, j) && best.value <= j)
  {
    if n == 0 then None
    else
      var best := BestBelow(ranks, s, n - 1);
      if MergeableAt(ranks, s, n - 1)
         && (best.None? || RankAt(ranks, s, n - 1) < RankAt(ranks, s, best.value))
      then Some(n - 1)
      else best
  }

  /** The pair to merge next: the leftmost among those of lowest rank. */
  function Best(ranks: map<Text, nat>, s: seq<Text>): (best: Option<nat>)
    ensures best.None? ==> forall j :: !MergeableAt(ranks, s, j)
    ensures best.Some? ==> IsBest(ranks, s, best.value)
  {
    BestBelow(ranks, s, |s|)
  }

  function MergeAt(s: seq<Text>, i: nat): (s': seq<Text>)
    requires i + 1 < |s|
    ensures |s'| == |s| - 1
  {
    s[..i] + [s[i] + s[i + 1]] + s[i + 2..]
  }

  /** The tokenizer's algorithm. */
  function Greedy(ranks: map<Text, nat>, s: seq<Text>): (t: seq<Text>)
    decreases |s|
  {
    match Best(ranks, s)
    case None => s
    case Some(i) => Greedy(ranks, MergeAt(s, i))
  }

  /** One pass of the reference: merge (a, b) everywhere, scanning from the left. */
  function MergeAll(s: seq<Text>, a: Text, b: Text): (s': seq<Text>)
    ensures |s'| <= |s|
  {
    if |s| < 2 then s
    else if s[0] == a && s[1] == b then [a + b] + MergeAll(s[2..], a, b)
    else [s[0]] + MergeAll(s[1..], a, b)
  }

  ghost predicate Occurs(s: seq<Text>, a: Text, b: Text) {
    exists i :: PairAt(s, i, a, b)
  }

  predicate PairAt(s: seq<Text>, i: int, a: Text, b: Text) {
    0 <= i < |s| - 1 && s[i] == a && s[i + 1] == b
  }

  lemma {:induction false} MergeAllShrinks(s: seq<Text>, a: Text, b: Text, i: nat)
    requires PairAt(s, i, a, b)
    ensures |MergeAll(s, a, b)| < |s|
  {
    if !(s[0] == a && s[1] == b) {
      assert PairAt(s[1..], i - 1, a, b);
      MergeAllShrinks(s[1..], a, b, i - 1);
    }
  }

  /** The GPT-2 reference: in each pass, merge all occurrences of the best pair. */
  function Reference(ranks: map<Text, nat>, s: seq<Text>): (t: seq<Text>)
    decreases |s|
  {
    match Best(ranks, s)
    case None => s
    case Some(i) =>
      MergeAllShrinks(s, s[i], s[i + 1], i);
      Reference(ranks, MergeAll(s, s[i], s[i + 1]))
  }

  /** Tokens that occur while merging: non-empty and without a space byte. */
  predicate Clean(s: seq<Text>) {
    forall i :: 0 <= i < |s| ==> s[i] != [] && SpaceFree(s[i])
  }

  /** A rule that uses the output of another rule has the higher rank. */
  ghost predicate WellOrdered(ranks: map<Text, nat>) {
    forall a: Text, b: Text, c: Text, d: Text ::
      Key(a, b) in ranks && Key(c, d) in ranks && Clean([a, b, c, d]) && (c == a + b || d == a + b) ==>
        ranks[Key(a, b)] < ranks[Key(c, d)]
  }

  ghost predicate DistinctRanks(ranks: map<Text, nat>) {
    forall k, k' :: k in ranks && k' in ranks && ranks[k] == ranks[k'] ==> k == k'
  }

  // ---------- keys and tables ----------

  /** The space-joined key determines both operands. */
  lemma KeyInjective(a: Text, b: Text, c: Text, d: Text)
    requires SpaceFree(a) && SpaceFree(c)
    requires Key(a, b) == Key(c, d)
    ensures a == c && b == d
  {
    assert Key(a, b)[|a|] == Key(c, d)[|c|] == SPACE;
    assert forall i :: 0 <= i < |a| ==> Key(a, b)[i] == a[i];
    assert forall i :: 0 <= i < |c| ==> Key(c, d)[i] == c[i];
    assert a == Key(a, b)[..|a|] == Key(c, d)[..|c|] == c;
    assert b == Key(a, b)[|a| + 1..] == Key(c, d)[|c| + 1..] == d;
  }

  /** The rule for "a" and "b" is filed under "a b". */
  lemma KeyBytes()
    ensures Key([0x61], [0x62]) == [0x61, 0x20, 0x62]
  {
  }

  /** The rank of a rule is the last position at which it is listed. */
  lemma {:induction false} RankIsLastPosition(rules: seq<Text>)
    ensures forall k :: k in RankTable(rules) <==> k in rules
    ensures forall k :: k in RankTable(rules) ==> RankTable(rules)[k] < |rules| && rules[RankTable(rules)[k]] == k
    ensures forall i :: 0 <= i < |rules| ==> i <= RankTable(rules)[rules[i]]
  {
    if rules != [] {
      RankIsLastPosition(rules[..|rules| - 1]);
    }
  }

  lemma RankTableDistinct(rules: seq<Text>)
    ensures DistinctRanks(RankTable(rules))
  {
    RankIsLastPosition(rules);
  }

  // ---------- telling a well-ordered table from its list of rules ----------

  /** The two operands of a rule: the bytes before its first space and those after it. */
  function Left(rule: Text): (a: Text)
    ensures |a| <= |rule|
  {
    if rule == [] || rule[0] == SPACE then [] else [rule[0]] + Left(rule[1..])
  }

  function Right(rule: Text): (b: Text) {
    if |Left(rule)| == |rule| then [] else rule[|Left(rule)| + 1..]
  }

  /** A rule that can ever be looked up: two non-empty operands without spaces, and one space. */
  predicate IsRule(rule: Text) {
    Left(rule) != [] && Right(rule) != [] && SpaceFree(Right(rule))
  }

  /** `rule` has the output of `maker` as an operand. */
  predicate Uses(rule: Text, maker: Text) {
    Left(rule) == Left(maker) + Right(maker) || Right(rule) == Left(maker) + Right(maker)
  }

  /** The rule listed at `i` is not listed again. */
  predicate ListedLast(rules: seq<Text>, i: int) {
    0 <= i < |rules| && forall k :: i < k < |rules| ==> rules[k] != rules[i]
  }

  /** Every rule stands behind the rules whose output it uses; of a repeated rule the last listing counts. */
  predicate LearningOrder(rules: seq<Text>) {
    forall i, j :: 0 <= i < |rules| && 0 <= j < |rules| && ListedLast(rules, i) && ListedLast(rules, j) ==>
                     IsRule(rules[i]) && IsRule(rules[j]) && Uses(rules[i], rules[j]) ==> j < i
  }

  lemma {:induction false} SplitKey(a: Text, b: Text)
    requires SpaceFree(a)
    ensures Left(Key(a, b)) == a && Right(Key(a, b)) == b
  {
    if a == [] {
      assert Key(a, b)[1..] == b;
    } else {
      assert Key(a, b)[0] == a[0] && Key(a, b)[1..] == Key(a[1..], b);
      SplitKey(a[1..], b);
      assert Key(a, b)[|a| + 1..] == b;
    }
  }

  lemma {:induction false} LeftStops(rule: Text)
    ensures SpaceFree(Left(rule)) && Left(rule) == rule[..|Left(rule)|]
    ensures |Left(rule)| < |rule| ==> rule[|Left(rule)|] == SPACE
  {
    if rule != [] && rule[0] != SPACE {
      var n := |Left(rule[1..])|;
      LeftStops(rule[1..]);
      assert [rule[0]] + rule[1..][..n] == rule[..n + 1];
      assert n < |rule[1..]| ==> rule[1..][n] == rule[n + 1];
    }
  }

  lemma RuleIsKey(rule: Text)
    requires IsRule(rule)
    ensures rule == Key(Left(rule), Right(rule)) && Clean([Left(rule), Right(rule)])
  {
    LeftStops(rule);
    var n := |Left(rule)|;
    assert rule == rule[..n] + [rule[n]] + rule[n + 1..];
  }

  lemma KeyIsRule(a: Text, b: Text)
    requires Clean([a, b])
    ensures IsRule(Key(a, b)) && Left(Key(a, b)) == a && Right(Key(a, b)) == b
  {
    assert [a, b][0] == a && [a, b][1] == b;
    SplitKey(a, b);
  }

  lemma LastIsRank(rules: seq<Text>, i: int)
    requires ListedLast(rules, i)
    ensures rules[i] in RankTable(rules) && RankTable(rules)[rules[i]] == i
  {
    RankIsLastPosition(rules);
  }

  lemma RankIsLast(rules: seq<Text>, k: Text)
    requires k in RankTable(rules)
    ensures ListedLast(rules, RankTable(rules)[k]) && rules[RankTable(rules)[k]] == k
  {
    RankIsLastPosition(rules);
  }

  lemma CleanParts(a: Text, b: Text, c: Text, d: Text)
    ensures Clean([a, b, c, d]) <==> Clean([a, b]) && Clean([c, d])
  {
    var s := [a, b, c, d];
    assert s[0] == a && s[1] == b && s[2] == c && s[3] == d;
    assert [a, b][0] == a && [a, b][1] == b && [c, d][0] == c && [c, d][1] == d;
  }

  /** The rank table is well ordered if and only if the list of rules is in learning order. */
  lemma LearningOrderExactly(rules: seq<Text>)
    ensures WellOrdered(RankTable(rules)) <==> LearningOrder(rules)
  {
    var ranks := RankTable(rules);
    if LearningOrder(rules) {
      forall a: Text, b: Text, c: Text, d: Text |
        Key(a, b) in ranks && Key(c, d) in ranks && Clean([a, b, c, d]) && (c == a + b || d == a + b)
        ensures ranks[Key(a, b)] < ranks[Key(c, d)]
      {
        CleanParts(a, b, c, d);
        OrderedRanks(rules, a, b, c, d);
      }
    }
    if WellOrdered(ranks) {
      forall i, j | ListedLast(rules, i) && ListedLast(rules, j)
                    && IsRule(rules[i]) && IsRule(rules[j]) && Uses(rules[i], rules[j])
        ensures j < i
      {
        OrderedPlaces(rules, i, j);
      }
    }
  }

  lemma OrderedRanks(rules: seq<Text>, a: Text, b: Text, c: Text, d: Text)
    requires LearningOrder(rules) && Key(a, b) in RankTable(rules) && Key(c, d) in RankTable(rules)
    requires Clean([a, b]) && Clean([c, d]) && (c == a + b || d == a + b)
    ensures RankTable(rules)[Key(a, b)] < RankTable(rules)[Key(c, d)]
  {
    KeyIsRule(a, b);
    KeyIsRule(c, d);
    RankIsLast(rules, Key(a, b));
    RankIsLast(rules, Key(c, d));
    assert Uses(Key(c, d), Key(a, b));
  }

  lemma OrderedPlaces(rules: seq<Text>, i: int, j: int)
    requires WellOrdered(RankTable(rules)) && ListedLast(rules, i) && ListedLast(rules, j)
    requires IsRule(rules[i]) && IsRule(rules[j]) && Uses(rules[i], rules[j])
    ensures j < i
  {
    RuleIsKey(rules[i]);
    RuleIsKey(rules[j]);
    LastIsRank(rules, i);
    LastIsRank(rules, j);
    CleanParts(Left(rules[j]), Right(rules[j]), Left(rules[i]), Right(rules[i]));
  }

  // ---------- what merging keeps ----------

  lemma MergeAtClean(s: seq<Text>, i: nat)
    requires Clean(s) && i + 1 < |s|
    ensures Clean(MergeAt(s, i))
  {
  }

  lemma {:induction false} MergeAtFlatten(s: seq<Text>, i: nat)
    requires i + 1 < |s|
    ensures Flatten(MergeAt(s, i)) == Flatten(s)
  {
    var l, m, r := s[..i], [s[i], s[i + 1]], s[i + 2..];
    assert s == l + (m + r);
    assert MergeAt(s, i) == l + ([s[i] + s[i + 1]] + r);
    FlattenAppend(l, m + r);
    FlattenAppend(l, [s[i] + s[i + 1]] + r);
    FlattenAppend([s[i] + s[i + 1]], r);
    FlattenAppend(m, r);
    FlattenSnoc([], s[i] + s[i + 1]);
    FlattenSnoc([s[i]], s[i + 1]);
    FlattenSnoc([], s[i]);
    assert m == [s[i]] + [s[i + 1]];
    assert [] + [s[i]] == [s[i]];
    assert [] + [s[i] + s[i + 1]] == [s[i] + s[i + 1]];
  }

  // ---------- the simulation ----------

  lemma {:induction false} MergeAllAbsent(s: seq<Text>, a: Text, b: Text)
    requires !Occurs(s, a, b)
    ensures MergeAll(s, a, b) == s
  {
    if |s| >= 2 {
      assert !PairAt(s, 0, a, b);
      forall i | PairAt(s[1..], i, a, b)
        ensures false
      {
        assert PairAt(s, i + 1, a, b);
      }
      MergeAllAbsent(s[1..], a, b);
    }
  }

  /** A full pass after merging the leftmost occurrence is the full pass itself. */
  lemma {:induction false} MergeAllAfterFirst(s: seq<Text>, i: nat, a: Text, b: Text)
    requires a != [] && b != []
    requires PairAt(s, i, a, b)
    requires forall j :: 0 <= j < i ==> !PairAt(s, j, a, b)
    ensures MergeAll(MergeAt(s, i), a, b) == MergeAll(s, a, b)
  {
    var t := MergeAt(s, i);
    if i == 0 {
      assert t[0] == a + b && |t[0]| > |a|;
      assert t[1..] == s[2..];
      if |t| < 2 {
        assert MergeAll(s[2..], a, b) == [];
        assert t == [a + b];
      }
    } else {
      assert !PairAt(s, 0, a, b);
      assert PairAt(s[1..], i - 1, a, b);
      forall j | 0 <= j < i - 1
        ensures !PairAt(s[1..], j, a, b)
      {
        assert !PairAt(s, j + 1, a, b);
      }
      MergeAllAfterFirst(s[1..], i - 1, a, b);
      assert t[1..] == MergeAt(s[1..], i - 1);
      assert t[0] == s[0];
      if i == 1 {
        assert t[1] == a + b && |t[1]| > |b|;
      } else {
        assert t[1] == s[1];
      }
    }
  }

  /** Merging (s[i], s[i+1]) creates no pair of that or a lower rank. */
  lemma NewPairsRankHigher(ranks: map<Text, nat>, s: seq<Text>, i: nat, j: nat)
    requires Clean(s) && WellOrdered(ranks) && IsBest(ranks, s, i)
    requires MergeableAt(ranks, MergeAt(s, i), j)
    ensures RankAt(ranks, s, i) <= RankAt(ranks, MergeAt(s, i), j)
  {
    var t := MergeAt(s, i);
    MergeAtClean(s, i);
    if j == i || j + 1 == i {
      assert t[i] == s[i] + s[i + 1];
      assert Clean([s[i], s[i + 1], t[j], t[j + 1]]);
      assert Key(s[i], s[i + 1]) in ranks && Key(t[j], t[j + 1]) in ranks;
      assert t[j] == s[i] + s[i + 1] || t[j + 1] == s[i] + s[i + 1];
    } else if j + 1 < i {
      assert t[j] == s[j] && t[j + 1] == s[j + 1];
      assert MergeableAt(ranks, s, j);
    } else {
      assert t[j] == s[j + 1] && t[j + 1] == s[j + 2];
      assert MergeableAt(ranks, s, j + 1);
    }
  }

  /** Equal rank means the same pair. */
  lemma SameRankSamePair(ranks: map<Text, nat>, s: seq<Text>, i: nat, t: seq<Text>, j: nat)
    requires Clean(s) && Clean(t) && DistinctRanks(ranks)
    requires MergeableAt(ranks, s, i) && MergeableAt(ranks, t, j)
    requires RankAt(ranks, s, i) == RankAt(ranks, t, j)
    ensures PairAt(t, j, s[i], s[i + 1])
  {
    KeyInjective(s[i], s[i + 1], t[j], t[j + 1]);
  }

  lemma BestIsLeftmost(ranks: map<Text, nat>, s: seq<Text>, i: nat, j: nat)
    requires IsBest(ranks, s, i) && PairAt(s, j, s[i], s[i + 1])
    ensures i <= j
  {
    assert MergeableAt(ranks, s, j);
  }

  /** Greedy merging from `s` passes through the state the reference reaches in one pass. */
  lemma {:induction false} GreedyFinishesPass(ranks: map<Text, nat>, s: seq<Text>, i: nat)
    requires Clean(s) && WellOrdered(ranks) && DistinctRanks(ranks)
    requires Best(ranks, s) == Some(i)
    ensures Greedy(ranks, s) == Greedy(ranks, MergeAll(s, s[i], s[i + 1]))
    decreases |s|
  {
    var a, b, t := s[i], s[i + 1], MergeAt(s, i);
    MergeAtClean(s, i);
    forall j | PairAt(s, j, a, b)
      ensures i <= j
    {
      BestIsLeftmost(ranks, s, i, j);
    }
    MergeAllAfterFirst(s, i, a, b);
    if Occurs(t, a, b) {
      var k :| PairAt(t, k, a, b);
      assert MergeableAt(ranks, t, k) && RankAt(ranks, t, k) == RankAt(ranks, s, i);
      var j := Best(ranks, t).value;
      NewPairsRankHigher(ranks, s, i, j);
      SameRankSamePair(ranks, s, i, t, j);
      GreedyFinishesPass(ranks, t, j);
    } else {
      MergeAllAbsent(t, a, b);
    }
  }

  lemma {:induction false} MergeAllClean(s: seq<Text>, a: Text, b: Text)
    requires Clean(s) && Clean([a, b])
    ensures Clean(MergeAll(s, a, b))
  {
    if |s| >= 2 {
      if s[0] == a && s[1] == b {
        assert [a, b][0] != [];
        MergeAllClean(s[2..], a, b);
        assert SpaceFree([a, b][0]) && SpaceFree([a, b][1]);
      } else {
        MergeAllClean(s[1..], a, b);
      }
    }
  }

  /** The tokenizer's merging is that of GPT-2, for every start and every well-ordered table. */
  lemma {:induction false} GreedyIsReference(ranks: map<Text, nat>, s: seq<Text>)
    requires Clean(s) && WellOrdered(ranks) && DistinctRanks(ranks)
    ensures Greedy(ranks, s) == Reference(ranks, s)
    decreases |s|
  {
    if Best(ranks, s).Some? {
      var i := Best(ranks, s).value;
      GreedyFinishesPass(ranks, s, i);
      MergeAllShrinks(s, s[i], s[i + 1], i);
      MergeAllClean(s, s[i], s[i + 1]);
      GreedyIsReference(ranks, MergeAll(s, s[i], s[i + 1]));
    }
  }

  /**
   The order of the table is needed: with "ab a" ranked before "a b", the word "abab"
   merges to [aba, b] here and to [ab, ab] in the reference.
   */
  lemma UnorderedTableDiffers(a: Text, b: Text)
    requires a == [0x61] && b == [0x62]
    ensures var ranks := map[Key(a + b, a) := 0, Key(a, b) := 1];
            && DistinctRanks(ranks) && !WellOrdered(ranks)
            && Greedy(ranks, [a, b, a, b]) == [a + b + a, b]
            && Reference(ranks, [a, b, a, b]) == [a + b, a + b]
  {
    var ranks: map<Text, nat> := map[Key(a + b, a) := 0, Key(a, b) := 1];
    var ab: Text, s: seq<Text> := a + b, [a, b, a, b];
    assert Key(a, b) != Key(ab, a) by { assert |Key(a, b)| != |Key(ab, a)|; }
    assert !WellOrdered(ranks) by {
      assert Clean([a, b, ab, a]);
    }
    assert Key(b, a)[0] == 0x62 && Key(ab, a)[0] == 0x61 && Key(a, b)[0] == 0x61;
    assert Key(b, a) !in ranks;
    assert MergeableAt(ranks, s, 0) && MergeableAt(ranks, s, 2) && !MergeableAt(ranks, s, 1);
    assert Best(ranks, s) == Some(0);
    var t := MergeAt(s, 0);
    assert t == [ab, a, b];
    assert MergeableAt(ranks, t, 0) && RankAt(ranks, t, 0) == 0;
    assert Best(ranks, t) == Some(0) by {
      assert IsBest(ranks, t, Best(ranks, t).value);
      assert MergeableAt(ranks, t, 1) ==> RankAt(ranks, t, 1) == 1;
    }
    var u := MergeAt(t, 0);
    assert u == [ab + a, b];
    assert !MergeableAt(ranks, u, 0) by {
      assert Key(ab + a, b)[2] == 0x61 && Key(ab, a)[2] == SPACE && |Key(ab + a, b)| == 5;
      assert |Key(ab, a)| == 4 && |Key(a, b)| == 3;
    }
    assert Best(ranks, u) == None;
    assert Greedy(ranks, u) == u;
    assert Greedy(ranks, t) == u;
    var v := MergeAll(s, a, b);
    assert s[2..] == [a, b];
    assert MergeAll([a, b], a, b) == [ab] + MergeAll([a, b][2..], a, b);
    assert v == [ab, ab];
    assert !MergeableAt(ranks, v, 0) by {
      assert |Key(ab, ab)| == 5 && |Key(ab, a)| == 4 && |Key(a, b)| == 3;
    }
    assert Best(ranks, v) == None;
    MergeAllShrinks(s, a, b, 0);
  }

  // ---------- where the merged tokens come from ----------

  ghost predicate Spelled(t: Text) {
    exists bytes :: t == Glyphs(bytes)
  }

  /** Every token spells out whole glyphs. */
  ghost predicate SpellGlyphs(s: seq<Text>) {
    forall i :: 0 <= i < |s| ==> Spelled(s[i])
  }

  lemma MergeAtSpells(s: seq<Text>, i: nat)
    requires SpellGlyphs(s) && i + 1 < |s|
    ensures SpellGlyphs(MergeAt(s, i))
  {
    var x :| s[i] == Glyphs(x);
    var y :| s[i + 1] == Glyphs(y);
    GlyphsAppend(x, y);
    assert Spelled(s[i] + s[i + 1]);
  }

  /** Every byte's glyph and every rule's output is in the vocabulary. */
  ghost predicate Closed(ranks: map<Text, nat>, vocabulary: set<Text>) {
    && (forall b: byte :: Glyph(b) in vocabulary)
    && (forall a: Text, b: Text :: Key(a, b) in ranks && SpaceFree(a) && SpaceFree(b) ==> a + b in vocabulary)
  }

  /** How many merges the tokenizer makes. */
  function Rounds(ranks: map<Text, nat>, s: seq<Text>): (n: nat)
    decreases |s|
  {
    match Best(ranks, s)
    case None => 0
    case Some(i) => 1 + Rounds(ranks, MergeAt(s, i))
  }

  /** Merging ends with no pair left to merge, after fewer rounds than there were tokens. */
  lemma {:induction false} GreedyStops(ranks: map<Text, nat>, s: seq<Text>)
    ensures forall j :: !MergeableAt(ranks, Greedy(ranks, s), j)
    ensures |Greedy(ranks, s)| == |s| - Rounds(ranks, s)
    ensures s != [] ==> Rounds(ranks, s) <= |s| - 1
    decreases |s|
  {
    if Best(ranks, s).Some? {
      GreedyStops(ranks, MergeAt(s, Best(ranks, s).value));
    }
  }

  // ---------- the pair to merge, as the code searches it ----------

  /** The ranked pairs among the first `n` positions, with their ranks, left to right. */
  function RankedPairs(ranks: map<Text, nat>, s: seq<Text>, n: nat): (pairs: seq<(nat, nat)>) {
    if n == 0 then []
    else if MergeableAt(ranks, s, n - 1)
    then RankedPairs(ranks, s, n - 1) + [(n - 1, RankAt(ranks, s, n - 1))]
    else RankedPairs(ranks, s, n - 1)
  }

  /** The first of the pairs with the lowest rank. */
  function FirstLeast(pairs: seq<(nat, nat)>): (least: Option<(nat, nat)>) {
    if pairs == [] then None
    else
      var n := |pairs| - 1;
      var least := FirstLeast(pairs[..n]);
      if least.None? || pairs[n].1 < least.value.1 then Some(pairs[n]) else least
  }

  lemma {:induction false} FirstLeastIsBest(ranks: map<Text, nat>, s: seq<Text>, n: nat)
    ensures FirstLeast(RankedPairs(ranks, s, n)) ==
            match BestBelow(ranks, s, n)
            case None => None
            case Some(i) => Some((i, RankAt(ranks, s, i)))
  {
    if n > 0 {
      FirstLeastIsBest(ranks, s, n - 1);
      var pairs := RankedPairs(ranks, s, n - 1);
      assert (pairs + [(n - 1, 0)])[..|pairs|] == pairs;
      if MergeableAt(ranks, s, n - 1) {
        assert RankedPairs(ranks, s, n)[..|pairs|] == pairs;
      }
    }
  }

  /** Merging keeps the text, whole glyphs, and membership in a closed vocabulary. */
  lemma {:induction false} GreedyKeeps(ranks: map<Text, nat>, s: seq<Text>, vocabulary: set<Text>)
    requires Clean(s) && SpellGlyphs(s)
    ensures Clean(Greedy(ranks, s)) && SpellGlyphs(Greedy(ranks, s))
    ensures Flatten(Greedy(ranks, s)) == Flatten(s)
    ensures Closed(ranks, vocabulary) && (forall i :: 0 <= i < |s| ==> s[i] in vocabulary) ==>
              forall i :: 0 <= i < |Greedy(ranks, s)| ==> Greedy(ranks, s)[i] in vocabulary
    decreases |s|
  {
    if Best(ranks, s).Some? {
      var i := Best(ranks, s).value;
      MergeAtClean(s, i);
      MergeAtSpells(s, i);
      MergeAtFlatten(s, i);
      GreedyKeeps(ranks, MergeAt(s, i), vocabulary);
    }
  }

  /** Decoding token by token does not depend on how whole glyphs are grouped. */
  lemma {:induction false} UnglyphAllFlatten(toByte: map<Text, byte>, s: seq<Text>)
    requires InvertsGlyphs(toByte) && SpellGlyphs(s)
    ensures UnglyphAll(toByte, s) == Unglyph(toByte, Flatten(s))
  {
    if s != [] {
      var bytes :| s[0] == Glyphs(bytes);
      UnglyphAllFlatten(toByte, s[1..]);
      UnglyphGlyphs(toByte, bytes);
      UnglyphGlyphsThen(toByte, bytes, Flatten(s[1..]));
    }
  }

  lemma {:induction false} UnglyphGlyphsThen(toByte: map<Text, byte>, bytes: Text, rest: Text)
    requires InvertsGlyphs(toByte)
    ensures Unglyph(toByte, Glyphs(bytes) + rest) == bytes + Unglyph(toByte, rest)
  {
    if bytes == [] {
      assert Glyphs(bytes) + rest == rest;
    } else {
      Assoc(Glyph(bytes[0]), Glyphs(bytes[1..]), rest);
      UnglyphStep(toByte, bytes[0], Glyphs(bytes[1..]) + rest);
      UnglyphGlyphsThen(toByte, bytes[1..], rest);
      Assoc([bytes[0]], bytes[1..], Unglyph(toByte, rest));
      assert [bytes[0]] + bytes[1..] == bytes;
    }
  }

  lemma GlyphTokensStart(bytes: Text)
    ensures Clean(GlyphTokens(bytes)) && SpellGlyphs(GlyphTokens(bytes))
  {
    forall i | 0 <= i < |bytes|
      ensures GlyphTokens(bytes)[i] != [] && SpaceFree(GlyphTokens(bytes)[i])
      ensures Spelled(GlyphTokens(bytes)[i])
    {
      GlyphShape(bytes[i]);
      assert [bytes[i]][1..] == [];
      assert GlyphTokens(bytes)[i] == Glyphs([bytes[i]]);
    }
  }

  /** The merged tokens of a chunk decode to the chunk, byte for byte. */
  lemma ChunkRoundTrip(ranks: map<Text, nat>, toByte: map<Text, byte>, chunk: Text)
    requires InvertsGlyphs(toByte)
    ensures UnglyphAll(toByte, Greedy(ranks, GlyphTokens(chunk))) == chunk
  {
    var s := GlyphTokens(chunk);
    GlyphTokensStart(chunk);
    GreedyKeeps(ranks, s, {});
    UnglyphAllFlatten(toByte, Greedy(ranks, s));
    GlyphsFlattenTokens(chunk);
    UnglyphGlyphs(toByte, chunk);
  }
}

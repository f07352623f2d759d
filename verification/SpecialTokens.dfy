/** The trie of special tokens, against a linear scan of the token table. */
module SpecialTokens {
  import opened Bytes

  const NORMAL := 1

  predicate Special(tokens: seq<Text>, types: seq<int>, i: int) {
    0 <= i < |tokens| && i < |types| && types[i] != NORMAL
  }

  /** The last special entry spelling `word` among the first `n`, or -1. */
  function LastEntry(tokens: seq<Text>, types: seq<int>, n: nat, word: Text): (id: int)
    requires n <= |tokens| <= |types|
    ensures -1 <= id < n
    ensures id >= 0 ==> Special(tokens, types, id) && tokens[id] == word
    ensures forall i :: 0 <= i < n && Special(tokens, types, i) && tokens[i] == word ==> i <= id
  {
    if n == 0 then -1
    else if types[n - 1] != NORMAL && tokens[n - 1] == word then n - 1
    else LastEntry(tokens, types, n - 1, word)
  }

  /** Entry `i` is a non-empty special token standing at `start` in `text[..end]`. */
  predicate Stands(tokens: seq<Text>, types: seq<int>, text: Text, start: nat, end: nat, i: int) {
    && Special(tokens, types, i)
    && tokens[i] != []
    && start + |tokens[i]| <= end <= |text|
    && text[start..start + |tokens[i]|] == tokens[i]
  }

  /**
   What a linear scan of the table answers: the longest special token standing at
   `start`, the last one among equals, or -1 when there is none.
   */
  ghost predicate ScanAnswer(tokens: seq<Text>, types: seq<int>, text: Text, start: nat, end: nat, id: int) {
    if id == -1 then
      forall i :: !Stands(tokens, types, text, start, end, i)
    else
      && Stands(tokens, types, text, start, end, id)
      && forall i :: Stands(tokens, types, text, start, end, i) ==>
           |tokens[i]| < |tokens[id]| || (tokens[i] == tokens[id] && i <= id)
  }

  lemma ScanAnswerUnique(tokens: seq<Text>, types: seq<int>, text: Text, start: nat, end: nat, x: int, y: int)
    requires ScanAnswer(tokens, types, text, start, end, x)
    requires ScanAnswer(tokens, types, text, start, end, y)
    ensures x == y
  {
    if x != -1 {
      assert Stands(tokens, types, text, start, end, x);
    }
    if y != -1 {
      assert Stands(tokens, types, text, start, end, y);
    }
  }

  /** The entry spelled by exactly the next `n` bytes at `start`, or -1. */
  function EntryAt(tokens: seq<Text>, types: seq<int>, text: Text, start: nat, n: nat): (id: int)
    requires |tokens| <= |types| && start + n <= |text|
  {
    LastEntry(tokens, types, |tokens|, text[start..start + n])
  }

  /** The entry spelled by the longest of the first `n` prefixes at `start`. */
  function LongestBelow(tokens: seq<Text>, types: seq<int>, text: Text, start: nat, n: nat): (id: int)
    requires |tokens| <= |types| && start + n <= |text|
  {
    if n == 0 then -1
    else
      var id := EntryAt(tokens, types, text, start, n);
      if id >= 0 then id else LongestBelow(tokens, types, text, start, n - 1)
  }

  /** The longest spelled prefix is the answer of the scan. */
  lemma {:induction false} LongestIsScanAnswer(tokens: seq<Text>, types: seq<int>, text: Text, start: nat, end: nat)
    requires |tokens| <= |types| && start <= end <= |text|
    ensures ScanAnswer(tokens, types, text, start, end, LongestBelow(tokens, types, text, start, end - start))
    decreases end
  {
    if start < end {
      LongestIsScanAnswer(tokens, types, text, start, end - 1);
      forall i | Stands(tokens, types, text, start, end, i)
        ensures Stands(tokens, types, text, start, end - 1, i) || EntryAt(tokens, types, text, start, end - start) >= i
        ensures |tokens[i]| == end - start ==> tokens[i] == text[start..end]
      {
      }
    }
  }

  /** The special token to cut out at `start`, or -1. */
  function Longest(tokens: seq<Text>, types: seq<int>, text: Text, start: nat): (id: int)
    requires |tokens| <= |types| && start <= |text|
    ensures -1 <= id < |tokens|
    ensures id >= 0 ==>
              && tokens[id] != [] && start + |tokens[id]| <= |text|
              && text[start..start + |tokens[id]|] == tokens[id]
              && Special(tokens, types, id)
  {
    LongestIsScanAnswer(tokens, types, text, start, |text|);
    LongestBelow(tokens, types, text, start, |text| - start)
  }

  /** Prefixes that spell no entry do not change the answer. */
  lemma {:induction false} LongestSkips(tokens: seq<Text>, types: seq<int>, text: Text, start: nat, m: nat, n: nat)
    requires |tokens| <= |types| && m <= n && start + n <= |text|
    requires forall k :: m < k <= n ==> EntryAt(tokens, types, text, start, k) == -1
    ensures LongestBelow(tokens, types, text, start, n) == LongestBelow(tokens, types, text, start, m)
  {
    if m < n {
      LongestSkips(tokens, types, text, start, m, n - 1);
    }
  }

  /** How many of the first `n` entries are special. */
  function SpecialCount(types: seq<int>, n: nat): (count: nat)
    requires n <= |types|
  {
    if n == 0 then 0 else SpecialCount(types, n - 1) + (if types[n - 1] == NORMAL then 0 else 1)
  }

  /** Type 1 marks a normal token; every other type marks a special one. */
  lemma NormalIsOne(tokens: seq<Text>, types: seq<int>, i: int)
    requires 0 <= i < |tokens| <= |types|
    ensures Special(tokens, types, i) <==> types[i] != 1
  {
  }

  /** The count is the number of special entries. */
  lemma {:induction false} CountIsNumber(types: seq<int>, n: nat)
    requires n <= |types|
    ensures SpecialCount(types, n) == |set i | 0 <= i < n && types[i] != 1|
  {
    var now := set i | 0 <= i < n && types[i] != 1;
    if n == 0 {
      assert now == {};
    } else {
      var before := set i | 0 <= i < n - 1 && types[i] != 1;
      CountIsNumber(types, n - 1);
      assert now == before + if types[n - 1] != 1 then {n - 1} else {};
    }
  }

  lemma OneFurther(text: Text, start: nat, i: nat)
    requires start <= i < |text|
    ensures text[start..i] + [text[i]] == text[start..i + 1]
  {
  }

  class TrieNode {
    const ch: byte
    // The characters that lead here from the root.
    ghost const path: Text
    var next: map<byte, TrieNode?>
    var tokenId: int

    constructor (c: byte, ghost path: Text)
      ensures ch == c && this.path == path && next == map[] && tokenId == -1
    {
      ch, this.path := c, path;
      next := map[];
      tokenId := -1;
    }
  }

  class SpecialTokenTrie {
    var root: TrieNode
    var size: nat
    // The node reached by each spelled-out path.
    ghost var paths: map<Text, TrieNode>

    ghost function Nodes(): set<TrieNode>
      reads this`paths
    {
      paths.Values
    }

    ghost predicate HasChild(p: Text, c: byte)
      requires p in paths
      reads this`paths, Nodes()`next
    {
      c in paths[p].next && paths[p].next[c] != null
    }

    ghost predicate HasParent(q: Text)
      requires q in paths && q != []
      reads this`paths, Nodes()`next
    {
      var p, c := q[..|q| - 1], q[|q| - 1];
      p in paths && HasChild(p, c) && paths[p].next[c] == paths[q]
    }

    /** The paths are exactly the walks along non-null children, and no node is shared. */
    ghost predicate Valid()
      reads this`paths, this`root, Nodes()`next
    {
      && [] in paths && paths[[]] == root
      && (forall p :: p in paths ==> paths[p].path == p)
      && (forall p, c: byte {:trigger HasChild(p, c)} :: p in paths && HasChild(p, c) ==>
            p + [c] in paths && paths[p + [c]] == paths[p].next[c])
      && (forall q {:trigger HasParent(q)} :: q in paths && q != [] ==> HasParent(q))
    }

    /** The trie holds the special entries among the first `n` of the table, and no other. */
    ghost predicate Holds(tokens: seq<Text>, types: seq<int>, n: nat)
      requires n <= |tokens| <= |types|
      reads this`paths, Nodes()`tokenId
    {
      && (forall p :: p in paths ==> paths[p].tokenId == LastEntry(tokens, types, n, p))
      && (forall i :: 0 <= i < n && types[i] != NORMAL ==> tokens[i] in paths)
    }

    constructor ()
      ensures Valid() && fresh(Nodes()) && paths.Keys == {[]} && root.tokenId == -1
    {
      var r := new TrieNode(0, []);
      root := r;
      size := 0;
      paths := map[[] := r];
    }

    /** The child of `current` for `c`, created when absent. */
    method Descend(current: TrieNode, ghost p: Text, c: byte) returns (child: TrieNode)
      requires Valid() && p in paths && paths[p] == current
      modifies this`paths, Nodes()`next
      ensures Valid() && p + [c] in paths && paths[p + [c]] == child
      ensures paths.Keys == old(paths.Keys) + {p + [c]}
      ensures forall q :: q in old(paths) ==> paths[q] == old(paths[q])
      ensures p + [c] !in old(paths) ==> fresh(child) && child.tokenId == -1
    {
      assert p + [c] in paths ==> HasParent(p + [c]);
      assert (p + [c])[..|p|] == p;
      if c in current.next && current.next[c] != null {
        assert HasChild(p, c);
        child := current.next[c];
      } else {
        child := NewChild(current, p, c);
      }
    }

    method NewChild(current: TrieNode, ghost p: Text, c: byte) returns (child: TrieNode)
      requires Valid() && p in paths && paths[p] == current && p + [c] !in paths
      modifies this`paths, Nodes()`next
      ensures Valid() && fresh(child) && child.tokenId == -1
      ensures paths == old(paths)[p + [c] := child]
    {
      child := new TrieNode(c, p + [c]);
      current.next := current.next[c := child];
      paths := paths[p + [c] := child];
      assert (p + [c])[..|p|] == p;
      forall q, d: byte | q in paths && HasChild(q, d)
        ensures q + [d] in paths && paths[q + [d]] == paths[q].next[d]
      {
        assert q in old(paths);
        assert (q, d) != (p, c) ==> old(HasChild(q, d));
      }
      forall q | q in paths && q != []
        ensures HasParent(q)
      {
        assert q in old(paths) ==> old(HasParent(q));
      }
    }

    /** Back to the empty trie. */
    method Reset()
      modifies this`root, this`paths
      ensures Valid() && fresh(Nodes()) && paths.Keys == {[]} && root.tokenId == -1
    {
      root := new TrieNode(0, []);
      paths := map[[] := root];
    }

    lemma HoldsNothing(tokens: seq<Text>, types: seq<int>)
      requires Valid() && paths.Keys == {[]} && root.tokenId == -1 && |tokens| <= |types|
      ensures Holds(tokens, types, 0)
    {
    }

    /** Rebuilds the trie from the table: afterwards it holds exactly the special entries. */
    method BuildFromTokens(tokens: seq<Text>, types: seq<int>)
      requires |tokens| <= |types|
      modifies this
      ensures Valid() && fresh(Nodes()) && Holds(tokens, types, |tokens|)
      ensures size == SpecialCount(types, |tokens|)
    {
      Reset();
      HoldsNothing(tokens, types);
      size := AddEntries(tokens, types);
    }

    method AddEntries(tokens: seq<Text>, types: seq<int>) returns (count: nat)
      requires |tokens| <= |types| && Valid() && Holds(tokens, types, 0)
      modifies this`paths, Nodes()
      ensures Valid() && Holds(tokens, types, |tokens|)
      ensures fresh(Nodes() - old(Nodes())) && count == SpecialCount(types, |tokens|)
    {
      count := 0;
      for i := 0 to |tokens|
        invariant Valid() && Holds(tokens, types, i)
        invariant forall n :: n in Nodes() ==> n in old(Nodes()) || fresh(n)
        invariant count == SpecialCount(types, i)
      {
        count := AddEntry(tokens, types, i, count);
      }
    }

    method AddEntry(tokens: seq<Text>, types: seq<int>, i: nat, count: nat) returns (count': nat)
      requires i < |tokens| <= |types| && count == SpecialCount(types, i)
      requires Valid() && Holds(tokens, types, i)
      modifies this`paths, Nodes()
      ensures Valid() && Holds(tokens, types, i + 1) && count' == SpecialCount(types, i + 1)
      ensures fresh(Nodes() - old(Nodes()))
    {
      count' := count;
      if types[i] != NORMAL {
        Insert(tokens, types, i);
        count' := count + 1;
      }
    }

    method Insert(tokens: seq<Text>, types: seq<int>, i: nat)
      requires i < |tokens| <= |types| && types[i] != NORMAL
      requires Valid() && Holds(tokens, types, i)
      modifies this`paths, Nodes()
      ensures Valid() && Holds(tokens, types, i + 1)
      ensures fresh(Nodes() - old(Nodes()))
    {
      var node := SpellPath(tokens, types, i);
      node.tokenId := i;
      assert forall p :: p in paths && p != tokens[i] ==> paths[p] != node;
    }

    /** The node at the end of the path that spells entry `i`, created as needed. */
    method SpellPath(tokens: seq<Text>, types: seq<int>, i: nat) returns (current: TrieNode)
      requires i < |tokens| <= |types|
      requires Valid() && Holds(tokens, types, i)
      modifies this`paths, Nodes()`next
      ensures Valid() && Holds(tokens, types, i)
      ensures tokens[i] in paths && paths[tokens[i]] == current
      ensures fresh(Nodes() - old(Nodes()))
    {
      var tok := tokens[i];
      current := root;
      for j := 0 to |tok|
        invariant Valid() && Holds(tokens, types, i)
        invariant tok[..j] in paths && paths[tok[..j]] == current
        invariant fresh(Nodes() - old(Nodes()))
      {
        assert tok[..j] + [tok[j]] == tok[..j + 1];
        current := Descend(current, tok[..j], tok[j]);
      }
      assert tok[..|tok|] == tok;
    }

    /** A prefix of a path is a path. */
    lemma {:induction false} PrefixIsPath(q: Text, n: nat)
      requires Valid() && q in paths && n <= |q|
      ensures q[..n] in paths
      decreases |q|
    {
      if n == |q| {
        assert q[..n] == q;
      } else {
        assert HasParent(q);
        PrefixIsPath(q[..|q| - 1], n);
        assert q[..|q| - 1][..n] == q[..n];
      }
    }

    /** One character further, if the trie goes there, keeping the id of the last entry passed. */
    method WalkOn(current: TrieNode, id: int, text: Text, start: nat, i: nat,
                  ghost tokens: seq<Text>, ghost types: seq<int>)
      returns (next: TrieNode?, id': int)
      requires |tokens| <= |types| && start <= i < |text|
      requires Valid() && Holds(tokens, types, |tokens|)
      requires text[start..i] in paths && paths[text[start..i]] == current
      requires id == LongestBelow(tokens, types, text, start, i - start)
      modifies Nodes()`next
      ensures Valid() && Holds(tokens, types, |tokens|)
      ensures next == null <==> text[start..i + 1] !in paths
      ensures if next == null then id' == id
              else paths[text[start..i + 1]] == next && id' == LongestBelow(tokens, types, text, start, i + 1 - start)
    {
      OneFurther(text, start, i);
      next := Child(current, text[start..i], text[i]);
      id' := id;
      if next != null && next.tokenId >= 0 {
        id' := next.tokenId;
      }
      if next != null {
        var n := i + 1 - start;
        assert start + n == i + 1 && text[start..i + 1] in paths;
        assert EntryAt(tokens, types, text, start, n) == next.tokenId;
      }
    }

    /** Walks as far as the trie goes. */
    method Walk(text: Text, start: nat, end: nat, ghost tokens: seq<Text>, ghost types: seq<int>)
      returns (id: int, i: nat)
      requires |tokens| <= |types| && start <= end <= |text|
      requires Valid() && Holds(tokens, types, |tokens|)
      modifies Nodes()`next
      ensures Valid() && Holds(tokens, types, |tokens|) && start <= i <= end
      ensures i < end ==> text[start..i + 1] !in paths
      ensures id == LongestBelow(tokens, types, text, start, i - start)
    {
      var current := root;
      i := start;
      id := -1;
      assert text[start..start] == [];
      while i < end
        invariant start <= i <= end && Valid() && Holds(tokens, types, |tokens|)
        invariant text[start..i] in paths && paths[text[start..i]] == current
        invariant id == LongestBelow(tokens, types, text, start, i - start)
      {
        var next;
        next, id := WalkOn(current, id, text, start, i, tokens, types);
        if next == null {
          break;
        }
        current := next;
        i := i + 1;
      }
    }

    /**
     The longest special token standing at `start`, exactly as the scan of the table
     answers. Looking up an absent character leaves a null child behind, which changes
     neither the paths nor any token id.
     */
    method Match(text: Text, start: nat, end: nat, ghost tokens: seq<Text>, ghost types: seq<int>) returns (id: int)
      requires |tokens| <= |types| && start <= end <= |text|
      requires Valid() && Holds(tokens, types, |tokens|)
      modifies Nodes()`next
      ensures Valid() && Holds(tokens, types, |tokens|)
      ensures id == LongestBelow(tokens, types, text, start, end - start)
      ensures ScanAnswer(tokens, types, text, start, end, id)
    {
      var i;
      id, i := Walk(text, start, end, tokens, types);
      WalkIsLongest(text, start, i, end, tokens, types);
      LongestIsScanAnswer(tokens, types, text, start, end);
    }

    /** Looks a character up; an absent one gets a null child. */
    method Child(current: TrieNode, ghost p: Text, c: byte) returns (next: TrieNode?)
      requires Valid() && p in paths && paths[p] == current
      modifies Nodes()`next
      ensures Valid()
      ensures next == null <==> p + [c] !in paths
      ensures next != null ==> paths[p + [c]] == next
    {
      assert p + [c] in paths ==> HasParent(p + [c]);
      assert (p + [c])[..|p|] == p;
      if c !in current.next {
        current.next := current.next[c := null];
      }
      forall q, d: byte | q in paths && HasChild(q, d)
        ensures q + [d] in paths && paths[q + [d]] == paths[q].next[d]
      {
        assert old(HasChild(q, d));
      }
      forall q | q in paths && q != []
        ensures HasParent(q)
      {
        assert old(HasParent(q));
      }
      next := current.next[c];
      assert next != null ==> HasChild(p, c);
    }

    /** The entry found up to where the walk ends is the longest of all. */
    lemma WalkIsLongest(text: Text, start: nat, i: nat, end: nat, tokens: seq<Text>, types: seq<int>)
      requires |tokens| <= |types| && start <= i <= end <= |text|
      requires Valid() && Holds(tokens, types, |tokens|)
      requires i < end ==> text[start..i + 1] !in paths
      ensures LongestBelow(tokens, types, text, start, i - start)
           == LongestBelow(tokens, types, text, start, end - start)
    {
      if i < end {
        NoLongerEntry(text, start, i, end, tokens, types);
        LongestSkips(tokens, types, text, start, i - start, end - start);
      }
    }

    /** Where the walk cannot go on, no longer prefix spells an entry. */
    lemma NoLongerEntry(text: Text, start: nat, i: nat, end: nat, tokens: seq<Text>, types: seq<int>)
      requires |tokens| <= |types| && start <= i < end <= |text|
      requires Valid() && Holds(tokens, types, |tokens|)
      requires text[start..i + 1] !in paths
      ensures forall k :: i - start < k <= end - start ==> EntryAt(tokens, types, text, start, k) == -1
    {
      forall k | i - start < k <= end - start
        ensures EntryAt(tokens, types, text, start, k) == -1
      {
        var w, q := text[start..start + k], text[start..i + 1];
        assert w[..i + 1 - start] == q;
        if w in paths {
          PrefixIsPath(w, i + 1 - start);
        }
      }
    }
  }
}

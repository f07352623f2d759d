/**
 One layer of the paged key-value cache: blocks of 16 rows handed out first-fit, and a
 write loop that fills the last block before it takes another.
 */
module KvCache {
  const BLOCK_SIZE: nat := 16

  datatype Block = Block(seqId: int, startPos: int, numEntries: nat)

  /** How many of the first `filled` rows lie in block `i`. */
  function EntriesIn(filled: nat, i: nat): (n: nat)
    ensures n <= BLOCK_SIZE
  {
    if filled <= i * BLOCK_SIZE then 0
    else if filled - i * BLOCK_SIZE < BLOCK_SIZE then filled - i * BLOCK_SIZE
    else BLOCK_SIZE
  }

  /** The first `filled` rows are in use: whole blocks in order, then part of the last one. */
  ghost predicate UsedInOrder(usage: seq<bool>, filled: nat) {
    forall i :: 0 <= i < |usage| ==> (usage[i] <==> i * BLOCK_SIZE < filled)
  }

  ghost predicate EntriesCounted(usage: seq<bool>, blocks: seq<Block>, filled: nat)
    requires |usage| == |blocks|
  {
    forall i :: 0 <= i < |blocks| && usage[i] ==> blocks[i].numEntries == EntriesIn(filled, i)
  }

  ghost predicate Listed(list: seq<nat>, filled: nat) {
    forall j :: 0 <= j < |list| ==> list[j] * BLOCK_SIZE < filled
  }

  lemma StartKept<T>(buffer: seq<T>, base: seq<T>, more: seq<T>)
    requires |base| + |more| <= |buffer| && buffer[..|base| + |more|] == base + more
    ensures buffer[..|base|] == base
  {
    assert buffer[..|base|] == buffer[..|base| + |more|][..|base|];
  }

  /** `stored` is `base` followed by the first `n` of `rows`. */
  ghost predicate Appended<T>(stored: seq<T>, base: seq<T>, rows: seq<T>, n: nat)
    requires n <= |rows|
  {
    stored == base + rows[..n]
  }

  lemma AppendMore<T>(stored: seq<T>, base: seq<T>, rows: seq<T>, n: nat, len: nat)
    requires n + len <= |rows| && Appended(stored, base, rows, n)
    ensures Appended(stored + rows[n..n + len], base, rows, n + len)
  {
    assert rows[..n + len] == rows[..n] + rows[n..n + len];
  }

  class Layer<Row(0)> {
    var usage: seq<bool>
    var blocks: seq<Block>
    var blockList: seq<nat>
    var seqLen: nat
    // The flat key and value buffers: row `b * 16 + s` is slot `s` of block `b`.
    const keys: array<Row>
    const values: array<Row>
    // All rows written so far.
    ghost var writtenKeys: seq<Row>
    ghost var writtenValues: seq<Row>

    /** The first `filled` rows are in use, and the last block listed is the last one in use. */
    ghost predicate Filled(filled: nat)
      reads this
    {
      && |usage| == |blocks| && keys.Length == values.Length == |blocks| * BLOCK_SIZE && keys != values
      && filled <= |blocks| * BLOCK_SIZE
      && UsedInOrder(usage, filled) && EntriesCounted(usage, blocks, filled) && Listed(blockList, filled)
      && (blockList == [] <==> filled == 0)
      && (blockList != [] ==> blockList[|blockList| - 1] == (filled - 1) / BLOCK_SIZE)
    }

    /** Logical row t is row t of the buffers, that is slot t mod 16 of block t / 16. */
    ghost predicate Valid()
      reads this, keys, values
    {
      && Filled(seqLen)
      && |writtenKeys| == |writtenValues| == seqLen
      && keys[..seqLen] == writtenKeys && values[..seqLen] == writtenValues
    }

    constructor (blocksCount: nat)
      ensures Valid() && seqLen == 0 && |blocks| == blocksCount && fresh(keys) && fresh(values)
    {
      usage := seq(blocksCount, _ => false);
      blocks := seq(blocksCount, _ => Block(-1, 0, 0));
      blockList := [];
      seqLen := 0;
      var ks := new Row[blocksCount * BLOCK_SIZE];
      var vs := new Row[blocksCount * BLOCK_SIZE];
      keys, values := ks, vs;
      writtenKeys, writtenValues := [], [];
    }

    /**
     Where everything is: logical row t is slot t mod 16 of block t / 16; the blocks in use
     are the first ones, all full but the last, which holds the rest.
     */
    lemma Layout(t: nat, b: nat)
      requires Valid() && t < seqLen && b < |blocks|
      ensures (t / 16) * 16 + t % 16 < keys.Length == values.Length == |blocks| * 16
      ensures keys[(t / 16) * 16 + t % 16] == writtenKeys[t] && values[(t / 16) * 16 + t % 16] == writtenValues[t]
      ensures |usage| == |blocks| && (usage[b] <==> 16 * b < seqLen)
      ensures usage[b] ==> blocks[b].numEntries == if 16 * b + 16 <= seqLen then 16 else seqLen - 16 * b
      ensures blockList != [] && blockList[|blockList| - 1] == (seqLen - 1) / 16
    {
      assert keys[..seqLen][t] == writtenKeys[t] && values[..seqLen][t] == writtenValues[t];
    }

    /** The first free block, now in use and empty; -1 when every block is taken. */
    method AllocBlock() returns (id: int)
      requires |usage| == |blocks|
      modifies this`usage, this`blocks
      ensures id == -1 <==> forall i :: 0 <= i < |old(usage)| ==> old(usage)[i]
      ensures id == -1 ==> usage == old(usage) && blocks == old(blocks)
      ensures id != -1 ==>
                && 0 <= id < |old(usage)| && !old(usage)[id] && (forall i :: 0 <= i < id ==> old(usage)[i])
                && usage == old(usage)[id := true] && blocks == old(blocks)[id := Block(-1, 0, 0)]
    {
      for i := 0 to |usage|
        invariant usage == old(usage) && blocks == old(blocks)
        invariant forall j :: 0 <= j < i ==> usage[j]
      {
        if !usage[i] {
          usage := usage[i := true];
          blocks := blocks[i := Block(-1, 0, 0)];
          return i;
        }
      }
      return -1;
    }

    /** Block `id` is the one that row number `filled` goes to, and is in use. */
    ghost predicate Taken(filled: nat, id: int)
      reads this
    {
      && |usage| == |blocks| && keys.Length == values.Length == |blocks| * BLOCK_SIZE && keys != values
      && 0 <= id < |blocks| && id == filled / BLOCK_SIZE
      && (forall i :: 0 <= i < |usage| ==> (usage[i] <==> i * BLOCK_SIZE < filled || i == id))
      && EntriesCounted(usage, blocks, filled) && Listed(blockList, filled)
    }

    /** The block to write next: the last one while it has room, else a new one. */
    method NextBlock(ghost filled: nat) returns (id: int)
      requires Filled(filled)
      modifies this`usage, this`blocks
      ensures id == -1 <==> filled == |blocks| * BLOCK_SIZE
      ensures |blocks| == |old(blocks)|
      ensures if id == -1 then Filled(filled) else Taken(filled, id)
    {
      id := -1;
      if |blockList| > 0 {
        var last := blockList[|blockList| - 1];
        if blocks[last].numEntries < BLOCK_SIZE {
          id := last;
        }
      }
      if id == -1 {
        assert filled % BLOCK_SIZE == 0;
        assert filled / BLOCK_SIZE < |usage| ==> !usage[filled / BLOCK_SIZE];
        assert forall i :: 0 <= i < filled / BLOCK_SIZE ==> usage[i];
        id := AllocBlock();
      }
    }

    /** The bookkeeping after a copy: the block's entry count, and its id once more in the list. */
    method RecordWrite(id: nat, len: nat, ghost filled: nat)
      requires Taken(filled, id) && 1 <= len <= BLOCK_SIZE - blocks[id].numEntries
      modifies this`blocks, this`blockList
      ensures Filled(filled + len) && |blocks| == |old(blocks)|
    {
      blocks := blocks[id := Block(0, seqLen, blocks[id].numEntries + len)];
      blockList := blockList + [id];
    }

    /** Copies `len` rows into the block's next slots. */
    method CopyRows(buffer: array<Row>, rows: seq<Row>, from: nat, at: nat, len: nat)
      requires from + len <= |rows| && at + len <= buffer.Length
      modifies buffer
      ensures buffer[..at + len] == old(buffer[..at]) + rows[from..from + len]
      ensures buffer[at + len..] == old(buffer[at + len..])
    {
      for j := 0 to len
        invariant buffer[..at] == old(buffer[..at])
        invariant buffer[at..at + j] == rows[from..from + j]
        invariant buffer[at + j..] == old(buffer[at + j..])
      {
        buffer[at + j] := rows[from + j];
        assert rows[from..from + j + 1] == rows[from..from + j] + [rows[from + j]];
        assert buffer[at..at + j + 1] == buffer[at..at + j] + [buffer[at + j]];
      }
      assert buffer[..at + len] == buffer[..at] + buffer[at..at + len];
    }

    /** The two copies of a round. */
    method CopyBoth(newKeys: seq<Row>, newValues: seq<Row>, stored: nat, at: nat, len: nat)
      requires keys != values && stored + len <= |newKeys| == |newValues| && at + len <= keys.Length == values.Length
      modifies keys, values
      ensures keys[..at + len] == old(keys[..at]) + newKeys[stored..stored + len]
      ensures values[..at + len] == old(values[..at]) + newValues[stored..stored + len]
    {
      CopyRows(keys, newKeys, stored, at, len);
      CopyRows(values, newValues, stored, at, len);
    }

    /** The next free slot of the block is the slot of row `filled`, and there is one. */
    lemma TakenRow(filled: nat, id: nat)
      requires Taken(filled, id)
      ensures blocks[id].numEntries == filled % BLOCK_SIZE && id * BLOCK_SIZE + blocks[id].numEntries == filled
    {
    }

    /** One round of the loop in block `id`: as many of the remaining rows as the block takes. */
    method WriteRound(newKeys: seq<Row>, newValues: seq<Row>, stored: nat, id: nat, ghost filled: nat)
      returns (len: nat)
      requires Taken(filled, id) && stored < |newKeys| == |newValues|
      modifies this`blocks, this`blockList, keys, values
      ensures var room, remaining := BLOCK_SIZE - filled % BLOCK_SIZE, |newKeys| - stored;
              len == if room < remaining then room else remaining
      ensures |blocks| == |old(blocks)| && 1 <= len <= |newKeys| - stored && Filled(filled + len)
      ensures keys[..filled + len] == old(keys[..filled]) + newKeys[stored..stored + len]
      ensures values[..filled + len] == old(values[..filled]) + newValues[stored..stored + len]
    {
      var used := blocks[id].numEntries;
      var remaining := |newKeys| - stored;
      len := if BLOCK_SIZE - used < remaining then BLOCK_SIZE - used else remaining;
      TakenRow(filled, id);
      CopyBoth(newKeys, newValues, stored, id * BLOCK_SIZE + used, len);
      RecordWrite(id, len, filled);
    }

    /** A block if there is one, and a round in it; no rows fit exactly when every block is full. */
    method StoreMore(newKeys: seq<Row>, newValues: seq<Row>, stored: nat, ghost filled: nat)
      returns (len: nat)
      requires Filled(filled) && stored < |newKeys| == |newValues|
      modifies this`usage, this`blocks, this`blockList, keys, values
      ensures len == 0 <==> filled == |blocks| * BLOCK_SIZE
      ensures |blocks| == |old(blocks)| && len <= |newKeys| - stored && Filled(filled + len)
      ensures keys[..filled + len] == old(keys[..filled]) + newKeys[stored..stored + len]
      ensures values[..filled + len] == old(values[..filled]) + newValues[stored..stored + len]
    {
      var id := NextBlock(filled);
      len := 0;
      if id != -1 {
        len := WriteRound(newKeys, newValues, stored, id, filled);
      }
    }

    /**
     Appends rows. It succeeds exactly when they fit; then logical row t of everything
     written so far is row t of the buffers. Rows written before are never overwritten.
     */
    method WriteKv(newKeys: seq<Row>, newValues: seq<Row>) returns (ok: bool)
      requires Valid() && |newKeys| == |newValues|
      modifies this, keys, values
      ensures ok <==> old(seqLen) + |newKeys| <= |old(blocks)| * 16
      ensures |blocks| == |old(blocks)|
      ensures ok ==>
                && Valid() && seqLen == old(seqLen) + |newKeys|
                && writtenKeys == old(writtenKeys) + newKeys && writtenValues == old(writtenValues) + newValues
      ensures old(seqLen) <= keys.Length == values.Length
              && keys[..old(seqLen)] == old(keys[..seqLen]) && values[..old(seqLen)] == old(values[..seqLen])
    {
      var stored := WriteRows(newKeys, newValues, seqLen, writtenKeys, writtenValues);
      StartKept(keys[..], old(writtenKeys), newKeys[..stored]);
      StartKept(values[..], old(writtenValues), newValues[..stored]);
      ok := stored == |newKeys|;
      if ok {
        assert newKeys[..stored] == newKeys && newValues[..stored] == newValues;
        seqLen := seqLen + stored;
        writtenKeys, writtenValues := writtenKeys + newKeys, writtenValues + newValues;
      }
    }

    /** The loop of `write_kv`: stops early only when every block is full. */
    method WriteRows(newKeys: seq<Row>, newValues: seq<Row>,
                     ghost start: nat, ghost baseKeys: seq<Row>, ghost baseValues: seq<Row>)
      returns (stored: nat)
      requires Filled(start) && |newKeys| == |newValues|
      requires keys[..start] == baseKeys && values[..start] == baseValues
      modifies this`usage, this`blocks, this`blockList, keys, values
      ensures stored <= |newKeys| && |blocks| == |old(blocks)| && Filled(start + stored)
      ensures stored == |newKeys| || start + stored == |blocks| * BLOCK_SIZE
      ensures keys[..start + stored] == baseKeys + newKeys[..stored]
      ensures values[..start + stored] == baseValues + newValues[..stored]
    {
      stored := 0;
      ghost var filled, soFarKeys, soFarValues := start, baseKeys, baseValues;
      var ok := true;
      while ok && stored < |newKeys|
        invariant 0 <= stored <= |newKeys| && filled == start + stored && |blocks| == |old(blocks)|
        invariant Filled(filled) && (ok || filled == |blocks| * BLOCK_SIZE)
        invariant keys[..filled] == soFarKeys && values[..filled] == soFarValues
        invariant Appended(soFarKeys, baseKeys, newKeys, stored)
        invariant Appended(soFarValues, baseValues, newValues, stored)
        decreases ok, |newKeys| - stored
      {
        var len := StoreMore(newKeys, newValues, stored, filled);
        AppendMore(soFarKeys, baseKeys, newKeys, stored, len);
        AppendMore(soFarValues, baseValues, newValues, stored, len);
        soFarKeys := soFarKeys + newKeys[stored..stored + len];
        soFarValues := soFarValues + newValues[stored..stored + len];
        stored := stored + len;
        filled := filled + len;
        ok := len > 0;
      }
    }
  }
}

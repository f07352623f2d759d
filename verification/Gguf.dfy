/**
 The GGUF loader: key-value entries, tensor infos, alignment of the data section, and
 where tensor pointers land.
 */
module Gguf {
  import opened Bytes
  import opened LittleEndian
  import opened Metadata

  datatype Entry = Entry(key: Text, value: Value)

  datatype Tensor = Tensor(name: Text, dims: seq<nat>, dtype: nat, offset: nat)

  // ---------- the format ----------

  predicate EntryWellFormed(e: Entry) {
    |e.key| < TWO_64 && WellFormed(e.value)
  }

  function EncodeEntry(e: Entry): (t: Text)
    requires EntryWellFormed(e)
  {
    EncodeString(e.key) + (Little(TypeCode(e.value), WORD) + Encode(e.value))
  }

  predicate TensorWellFormed(t: Tensor) {
    |t.name| < TWO_64 && |t.dims| < TWO_31 && t.dtype < TWO_32 && t.offset < TWO_64
    && forall i :: 0 <= i < |t.dims| ==> t.dims[i] < TWO_64
  }

  function EncodeDims(dims: seq<nat>): (t: Text)
    ensures |t| == 8 * |dims|
  {
    if dims == [] then [] else Little(dims[0], LONG) + EncodeDims(dims[1..])
  }

  /** What follows the name in an encoded tensor info. */
  function AfterName(t: Tensor): (bytes: Text) {
    Little(|t.dims|, WORD) + (EncodeDims(t.dims) + (Little(t.dtype, WORD) + Little(t.offset, LONG)))
  }

  function EncodeTensor(t: Tensor): (bytes: Text) {
    EncodeString(t.name) + AfterName(t)
  }

  predicate EntriesFit(es: seq<Entry>) {
    forall i :: 0 <= i < |es| ==> EntryWellFormed(es[i]) && |EncodeEntry(es[i])| < TWO_31
  }

  predicate TensorsFit(ts: seq<Tensor>) {
    forall i :: 0 <= i < |ts| ==> TensorWellFormed(ts[i]) && |EncodeTensor(ts[i])| < TWO_31
  }

  function EncodeEntries(es: seq<Entry>): (t: Text)
    requires forall i :: 0 <= i < |es| ==> EntryWellFormed(es[i])
  {
    if es == [] then [] else EncodeEntry(es[0]) + EncodeEntries(es[1..])
  }

  function EncodeTensors(ts: seq<Tensor>): (t: Text) {
    if ts == [] then [] else EncodeTensor(ts[0]) + EncodeTensors(ts[1..])
  }

  /** A file's parts; `data` holds the tensor data, from the data section's start on. */
  datatype File = File(magic: nat, version: nat, entries: seq<Entry>, tensors: seq<Tensor>, data: Text)

  /** Every entry encodes to fewer than 2^31 bytes, and there are fewer than 2^31 of each kind. */
  ghost predicate FileWellFormed(f: File) {
    && f.magic < TWO_32 && f.version < TWO_32
    && |f.entries| < TWO_31 && |f.tensors| < TWO_31
    && EntriesFit(f.entries) && TensorsFit(f.tensors)
  }

  function EncodeHeader(f: File): (t: Text)
    ensures |t| == 24
  {
    Little(f.magic, WORD) + (Little(f.version, WORD) + (Little(|f.tensors|, LONG) + Little(|f.entries|, LONG)))
  }

  /** Everything before the data section's padding. */
  ghost function EncodeInfo(f: File): (t: Text)
    requires FileWellFormed(f)
  {
    EncodeHeader(f) + (EncodeEntries(f.entries) + EncodeTensors(f.tensors))
  }

  /** The next multiple of `a`. */
  function AlignUp(x: nat, a: nat): (y: nat)
    requires a > 0
  {
    x + (a - x % a) % a
  }

  /** The file's bytes with the data section aligned to `a` within the file. */
  ghost function EncodeFile(f: File, a: nat): (t: Text)
    requires FileWellFormed(f) && a > 0
  {
    var info := EncodeInfo(f);
    info + (seq(AlignUp(|info|, a) - |info|, _ => 0) + f.data)
  }

  // ---------- the format, byte by byte ----------

  /** "GGUF", version 3, one tensor, two entries. */
  lemma HeaderBytes(f: File)
    requires f.magic == 0x4655_4747 && f.version == 3 && |f.tensors| == 1 && |f.entries| == 2
    ensures EncodeHeader(f)
         == [0x47, 0x47, 0x55, 0x46] + ([3, 0, 0, 0] + ([1, 0, 0, 0, 0, 0, 0, 0] + [2, 0, 0, 0, 0, 0, 0, 0]))
  {
    SmallBytes(1);
    SmallBytes(2);
    SmallBytes(3);
    MagicBytes();
  }

  lemma MagicBytes()
    ensures Little(0x4655_4747, WORD) == [0x47, 0x47, 0x55, 0x46]
  {
    SmallBytes(0x46);
    assert Little(0x4655, 2) == [0x55] + Little(0x46, 1);
    assert Little(0x46_5547, 3) == [0x47] + Little(0x4655, 2);
  }

  /** The entry "a" with the uint8 5. */
  lemma EntryBytes()
    ensures EncodeEntry(Entry([0x61], Prim(U8(5)))) == [1, 0, 0, 0, 0, 0, 0, 0, 0x61] + ([0, 0, 0, 0] + [5])
  {
    StringBytes(0x61);
    SmallBytes(0);
    SmallBytes(5);
  }

  /** The info of tensor "t" with one dimension of 2, type 1, offset 32. */
  lemma TensorBytes()
    ensures EncodeTensor(Tensor([0x74], [2], 1, 32))
         == [1, 0, 0, 0, 0, 0, 0, 0, 0x74]
            + ([1, 0, 0, 0] + ([2, 0, 0, 0, 0, 0, 0, 0] + ([1, 0, 0, 0] + [32, 0, 0, 0, 0, 0, 0, 0])))
  {
    StringBytes(0x74);
    SmallBytes(1);
    SmallBytes(2);
    SmallBytes(32);
    NothingMore(Little(2, LONG));
    assert [2][1..] == [] && EncodeDims([2]) == Little(2, LONG) + EncodeDims([]);
  }

  /** "general.alignment" */
  lemma AlignmentKeyBytes()
    ensures ALIGNMENT_KEY == [0x67, 0x65, 0x6E, 0x65, 0x72, 0x61, 0x6C, 0x2E,
                              0x61, 0x6C, 0x69, 0x67, 0x6E, 0x6D, 0x65, 0x6E, 0x74]
  {
  }

  // ---------- parsing one entry or tensor info ----------

  function EntrySize(e: Entry): (size: int) {
    Int32(StringSize(e.key) + Size(e.value) + 4)
  }

  /** The entry at `at` and its size; None where the code would leave memory. */
  function EntryAt(mem: Text, at: nat): (r: Option<(Entry, int)>) {
    var key := StringAt(mem, at);
    if key.None? || StringSize(key.value) < 0 then None
    else
      var cur := at + StringSize(key.value);
      if cur + 4 > |mem| then None
      else
        var value := ValueAt(mem, cur + 4, Load(mem, cur, WORD));
        if value.None? then None
        else
          var e := Entry(key.value, value.value);
          Some((e, EntrySize(e)))
  }

  function TensorSize(t: Tensor): (size: int) {
    Int32(StringSize(t.name) + (16 + 8 * |t.dims|))
  }

  function DimsAt(mem: Text, at: nat, count: nat): (dims: seq<nat>)
    requires at + 8 * count <= |mem|
    ensures |dims| == count
    decreases count
  {
    if count == 0 then [] else [Load(mem, at, LONG)] + DimsAt(mem, at + 8, count - 1)
  }

  /** What follows the name of a tensor info. */
  function TensorAfterName(mem: Text, at: nat, name: Text): (t: Option<Tensor>) {
    if at + 4 > |mem| then None
    else
      var n := Load(mem, at, WORD);
      var end := at + 4 + 8 * n;
      if end + 12 > |mem| then None
      else Some(Tensor(name, DimsAt(mem, at + 4, n), Load(mem, end, WORD), Load(mem, end + 4, LONG)))
  }

  function TensorAt(mem: Text, at: nat): (r: Option<(Tensor, int)>) {
    var name := StringAt(mem, at);
    if name.None? || StringSize(name.value) < 0 then None
    else
      var t := TensorAfterName(mem, at + StringSize(name.value), name.value);
      if t.None? then None else Some((t.value, TensorSize(t.value)))
  }

  // ---------- parsing the tables ----------

  /** A parser: the item at a position and how far its size moves the cursor. */
  type Parser<T> = nat -> Option<(T, int)>

  function EntryParser(mem: Text): Parser<Entry> {
    (at: nat) => EntryAt(mem, at)
  }

  function TensorParser(mem: Text): Parser<Tensor> {
    (at: nat) => TensorAt(mem, at)
  }

  /** `count` items one after another, each where the previous one's size ended it. */
  function Walk<T>(parse: Parser<T>, at: nat, count: int): (r: Option<(nat, seq<T>)>)
    decreases count
  {
    if count <= 0 then Some((at, []))
    else
      var item := parse(at);
      if item.None? || item.value.1 < 0 then None
      else
        var rest := Walk(parse, at + item.value.1, count - 1);
        if rest.None? then None else Some((rest.value.0, [item.value.0] + rest.value.1))
  }

  /** Inserting never replaces: the first item with a key stays. */
  function InsertNew<T>(key: T -> Text, m: map<Text, T>, item: T): (m': map<Text, T>) {
    if key(item) in m then m else m[key(item) := item]
  }

  /** The table after inserting the items in order. */
  function Table<T>(key: T -> Text, items: seq<T>): (m: map<Text, T>) {
    if items == [] then map[]
    else InsertNew(key, Table(key, items[..|items| - 1]), items[|items| - 1])
  }

  const KEY: Entry -> Text := (e: Entry) => e.key
  const NAME: Tensor -> Text := (t: Tensor) => t.name

  /** The bytes of an ASCII string. */
  function Ascii(s: string): (t: Text)
    ensures |t| == |s|
  {
    seq(|s|, i requires 0 <= i < |s| => s[i] as int % 256)
  }

  const ALIGNMENT_KEY: Text := Ascii("general.alignment")

  /**
   What a stored alignment means to the loader: 32 when it holds no number or holds zero.
   None is the bad_variant_access thrown for a number that is not a uint8.
   */
  function StoredAlignment(v: Value): (a: Option<nat>)
    ensures a.Some? ==> a.value > 0
  {
    match v
    case Prim(p) => if p.U8? then Some(if p.n == 0 then 32 else p.n) else None
    case _ => Some(32)
  }

  /** The alignment the loader uses: 32 when the key is absent. */
  function Alignment(m: map<Text, Entry>): (a: Option<nat>)
    ensures a.Some? ==> a.value > 0
  {
    if ALIGNMENT_KEY in m then StoredAlignment(m[ALIGNMENT_KEY].value) else Some(32)
  }

  datatype LoadError = OutOfMemoryBounds | BadVariant

  datatype Loaded =
    | Loader(entries: map<Text, Entry>, tensors: map<Text, Tensor>, cursor: nat, base: nat)
    | Failed(error: LoadError)

  /** What `load_gguf_file` builds from a file mapped at address `mapBase`. */
  function LoadFile(mem: Text, mapBase: nat): (r: Loaded) {
    if |mem| < 24 then Failed(OutOfMemoryBounds)
    else
      var tensorCount, kvCount := Load(mem, 8, LONG), Int32(Load(mem, 16, LONG));
      LoadTables(EntryParser(mem), TensorParser(mem), kvCount, tensorCount, mapBase)
  }

  function LoadTables(entry: Parser<Entry>, tensor: Parser<Tensor>, kvCount: int, tensorCount: nat, mapBase: nat)
    : (r: Loaded)
  {
    var es := Walk(entry, 24, kvCount);
    if es.None? then Failed(OutOfMemoryBounds)
    else
      var ts := Walk(tensor, es.value.0, tensorCount);
      if ts.None? then Failed(OutOfMemoryBounds)
      else Assembled(mapBase, Table(KEY, es.value.1), Table(NAME, ts.value.1), ts.value.0)
  }

  /** The loader object, once the tables are read: the data section starts at the next aligned address. */
  function Assembled(mapBase: nat, entries: map<Text, Entry>, tensors: map<Text, Tensor>, cursor: nat): (r: Loaded) {
    var a := Alignment(entries);
    if a.None? then Failed(BadVariant)
    else Loader(entries, tensors, cursor, AlignUp(mapBase + cursor, a.value))
  }

  /** The address handed out for a tensor's offset. */
  function TensorPtr(l: Loaded, offset: nat): (address: nat)
    requires l.Loader?
  {
    l.base + offset
  }

  // ---------- round trips of entries and tensor infos ----------

  lemma EntrySizeExact(e: Entry)
    requires EntryWellFormed(e) && |EncodeEntry(e)| < TWO_31
    ensures EntrySize(e) == |EncodeEntry(e)| && StringSize(e.key) == 8 + |e.key|
    ensures Size(e.value) == |Encode(e.value)| < TWO_31
  {
    SizeExactly(e.value);
    Int32Exact(8 + |e.key|);
    Int32Exact(8 + |e.key| + |Encode(e.value)| + 4);
  }

  lemma EntryFromParts(mem: Text, at: nat, e: Entry)
    requires StringAt(mem, at) == Some(e.key) && StringSize(e.key) == 8 + |e.key|
    requires at + 8 + |e.key| + 4 <= |mem| && Load(mem, at + 8 + |e.key|, WORD) == TypeCode(e.value)
    requires ValueAt(mem, at + 8 + |e.key| + 4, TypeCode(e.value)) == Some(e.value)
    ensures EntryAt(mem, at) == Some((e, EntrySize(e)))
  {
  }

  /** Where the parts of an encoded entry stand. */
  lemma EntryLayout(mem: Text, at: nat, e: Entry)
    requires EntryWellFormed(e) && Holds(mem, at, EncodeEntry(e))
    ensures Holds(mem, at, EncodeString(e.key))
    ensures Holds(mem, at + 8 + |e.key|, Little(TypeCode(e.value), WORD))
    ensures Holds(mem, at + 8 + |e.key| + 4, Encode(e.value))
  {
    var code, value := Little(TypeCode(e.value), WORD), Encode(e.value);
    HoldsParts(mem, at, EncodeString(e.key), code + value);
    HoldsParts(mem, at + 8 + |e.key|, code, value);
  }

  lemma CodeRoundTrip(mem: Text, at: nat, v: Value)
    requires WellFormed(v) && Holds(mem, at, Little(TypeCode(v), WORD))
    ensures at + 4 <= |mem| && Load(mem, at, WORD) == TypeCode(v)
  {
    Powers();
    LoadLittle(mem, at, TypeCode(v), WORD);
  }

  lemma EntryParts(mem: Text, at: nat, e: Entry)
    requires EntryWellFormed(e) && Holds(mem, at, EncodeEntry(e)) && |Encode(e.value)| < TWO_31
    ensures StringAt(mem, at) == Some(e.key)
    ensures at + 8 + |e.key| + 4 <= |mem| && Load(mem, at + 8 + |e.key|, WORD) == TypeCode(e.value)
    ensures ValueAt(mem, at + 8 + |e.key| + 4, TypeCode(e.value)) == Some(e.value)
  {
    EntryLayout(mem, at, e);
    assert StringAt(mem, at) == Some(e.key) by {
      StringRoundTrip(mem, at, e.key);
    }
    assert Load(mem, at + 8 + |e.key|, WORD) == TypeCode(e.value) by {
      CodeRoundTrip(mem, at + 8 + |e.key|, e.value);
    }
    assert ValueAt(mem, at + 8 + |e.key| + 4, TypeCode(e.value)) == Some(e.value) by {
      ValueRoundTrip(mem, at + 8 + |e.key| + 4, e.value);
    }
  }

  lemma EntryRoundTrip(mem: Text, at: nat, e: Entry)
    requires EntryWellFormed(e) && Holds(mem, at, EncodeEntry(e)) && |EncodeEntry(e)| < TWO_31
    ensures EntryAt(mem, at) == Some((e, |EncodeEntry(e)|))
  {
    EntrySizeExact(e);
    EntryParts(mem, at, e);
    EntryFromParts(mem, at, e);
  }

  lemma {:induction false} DimsRoundTrip(mem: Text, at: nat, dims: seq<nat>)
    requires Holds(mem, at, EncodeDims(dims)) && forall i :: 0 <= i < |dims| ==> dims[i] < TWO_64
    ensures DimsAt(mem, at, |dims|) == dims
    decreases dims
  {
    if dims != [] {
      HoldsParts(mem, at, Little(dims[0], LONG), EncodeDims(dims[1..]));
      Powers();
      LoadLittle(mem, at, dims[0], LONG);
      DimsRoundTrip(mem, at + 8, dims[1..]);
      assert [dims[0]] + dims[1..] == dims;
    }
  }

  lemma AfterNameRoundTrip(mem: Text, at: nat, t: Tensor)
    requires TensorWellFormed(t)
    requires Holds(mem, at, AfterName(t))
    ensures TensorAfterName(mem, at, t.name) == Some(t)
  {
    var n, dims := Little(|t.dims|, WORD), EncodeDims(t.dims);
    var code, offset := Little(t.dtype, WORD), Little(t.offset, LONG);
    var end := at + 4 + |dims|;
    assert Holds(mem, at, n) && Holds(mem, at + 4, dims) && Holds(mem, end, code) && Holds(mem, end + 4, offset) by {
      HoldsParts(mem, at, n, dims + (code + offset));
      HoldsParts(mem, at + 4, dims, code + offset);
      HoldsParts(mem, end, code, offset);
    }
    assert Load(mem, at, WORD) == |t.dims| && Load(mem, end, WORD) == t.dtype
           && Load(mem, end + 4, LONG) == t.offset by {
      Powers();
      LoadLittle(mem, at, |t.dims|, WORD);
      LoadLittle(mem, end, t.dtype, WORD);
      LoadLittle(mem, end + 4, t.offset, LONG);
    }
    assert DimsAt(mem, at + 4, |t.dims|) == t.dims by {
      DimsRoundTrip(mem, at + 4, t.dims);
    }
  }

  lemma TensorSizeExact(t: Tensor)
    requires |EncodeTensor(t)| < TWO_31
    ensures TensorSize(t) == |EncodeTensor(t)| && StringSize(t.name) == 8 + |t.name|
  {
    Int32Exact(8 + |t.name|);
    Int32Exact(8 + |t.name| + (16 + 8 * |t.dims|));
  }

  lemma TensorFromParts(mem: Text, at: nat, t: Tensor)
    requires StringAt(mem, at) == Some(t.name) && StringSize(t.name) == 8 + |t.name|
    requires TensorAfterName(mem, at + 8 + |t.name|, t.name) == Some(t)
    ensures TensorAt(mem, at) == Some((t, TensorSize(t)))
  {
  }

  lemma TensorLayout(mem: Text, at: nat, t: Tensor)
    requires Holds(mem, at, EncodeTensor(t))
    ensures Holds(mem, at, EncodeString(t.name)) && Holds(mem, at + 8 + |t.name|, AfterName(t))
  {
    HoldsParts(mem, at, EncodeString(t.name), AfterName(t));
  }

  lemma TensorRoundTrip(mem: Text, at: nat, t: Tensor)
    requires TensorWellFormed(t) && Holds(mem, at, EncodeTensor(t)) && |EncodeTensor(t)| < TWO_31
    ensures TensorAt(mem, at) == Some((t, |EncodeTensor(t)|))
  {
    TensorSizeExact(t);
    TensorLayout(mem, at, t);
    StringRoundTrip(mem, at, t.name);
    AfterNameRoundTrip(mem, at + 8 + |t.name|, t);
    TensorFromParts(mem, at, t);
  }

  // ---------- the tables ----------

  function Items<T>(coded: seq<(T, Text)>): (items: seq<T>)
    ensures |items| == |coded|
  {
    if coded == [] then [] else [coded[0].0] + Items(coded[1..])
  }

  function Codes<T>(coded: seq<(T, Text)>): (bytes: Text) {
    if coded == [] then [] else coded[0].1 + Codes(coded[1..])
  }

  /** Wherever memory holds the code of one of the items, the parser reads that item. */
  ghost predicate Reads<T>(parse: Parser<T>, mem: Text, coded: seq<(T, Text)>) {
    forall i, at: nat :: 0 <= i < |coded| && Holds(mem, at, coded[i].1) ==>
                           parse(at) == Some((coded[i].0, |coded[i].1|))
  }

  lemma WalkCons<T>(parse: Parser<T>, at: nat, item: T, size: nat, end: nat, items: seq<T>)
    requires parse(at) == Some((item, size)) && Walk(parse, at + size, |items|) == Some((end, items))
    ensures Walk(parse, at, |items| + 1) == Some((end, [item] + items))
  {
  }

  lemma ReadsRest<T>(parse: Parser<T>, mem: Text, coded: seq<(T, Text)>)
    requires Reads(parse, mem, coded) && coded != []
    ensures Reads(parse, mem, coded[1..])
  {
    assert forall i :: 0 <= i < |coded| - 1 ==> coded[1..][i] == coded[i + 1];
  }

  lemma {:induction false} WalkRoundTrip<T>(parse: Parser<T>, mem: Text, at: nat, coded: seq<(T, Text)>, end: nat)
    requires Reads(parse, mem, coded) && Holds(mem, at, Codes(coded)) && end == at + |Codes(coded)|
    ensures Walk(parse, at, |coded|) == Some((end, Items(coded)))
    decreases coded
  {
    if coded != [] {
      var item, code, rest := coded[0].0, coded[0].1, coded[1..];
      HoldsParts(mem, at, code, Codes(rest));
      assert parse(at) == Some((item, |code|));
      ReadsRest(parse, mem, coded);
      WalkRoundTrip(parse, mem, at + |code|, rest, end);
      WalkCons(parse, at, item, |code|, end, Items(rest));
    }
  }

  function CodedEntries(es: seq<Entry>): (coded: seq<(Entry, Text)>)
    requires forall i :: 0 <= i < |es| ==> EntryWellFormed(es[i])
    ensures |coded| == |es| && forall i :: 0 <= i < |es| ==> coded[i] == (es[i], EncodeEntry(es[i]))
    ensures Items(coded) == es && Codes(coded) == EncodeEntries(es)
  {
    if es == [] then [] else [(es[0], EncodeEntry(es[0]))] + CodedEntries(es[1..])
  }

  function CodedTensors(ts: seq<Tensor>): (coded: seq<(Tensor, Text)>)
    ensures |coded| == |ts| && forall i :: 0 <= i < |ts| ==> coded[i] == (ts[i], EncodeTensor(ts[i]))
    ensures Items(coded) == ts && Codes(coded) == EncodeTensors(ts)
  {
    if ts == [] then [] else [(ts[0], EncodeTensor(ts[0]))] + CodedTensors(ts[1..])
  }

  lemma EntriesRead(mem: Text, es: seq<Entry>)
    requires EntriesFit(es)
    ensures Reads(EntryParser(mem), mem, CodedEntries(es))
  {
    forall i, at: nat | 0 <= i < |es| && Holds(mem, at, CodedEntries(es)[i].1)
      ensures EntryParser(mem)(at) == Some((es[i], |EncodeEntry(es[i])|))
    {
      EntryRoundTrip(mem, at, es[i]);
    }
  }

  lemma TensorsRead(mem: Text, ts: seq<Tensor>)
    requires TensorsFit(ts)
    ensures Reads(TensorParser(mem), mem, CodedTensors(ts))
  {
    forall i, at: nat | 0 <= i < |ts| && Holds(mem, at, CodedTensors(ts)[i].1)
      ensures TensorParser(mem)(at) == Some((ts[i], |EncodeTensor(ts[i])|))
    {
      TensorRoundTrip(mem, at, ts[i]);
    }
  }

  lemma EntriesRoundTrip(mem: Text, at: nat, es: seq<Entry>, end: nat)
    requires EntriesFit(es) && Holds(mem, at, EncodeEntries(es)) && end == at + |EncodeEntries(es)|
    ensures Walk(EntryParser(mem), at, |es|) == Some((end, es))
  {
    EntriesRead(mem, es);
    WalkRoundTrip(EntryParser(mem), mem, at, CodedEntries(es), end);
  }

  lemma TensorsRoundTrip(mem: Text, at: nat, ts: seq<Tensor>, end: nat)
    requires TensorsFit(ts) && Holds(mem, at, EncodeTensors(ts)) && end == at + |EncodeTensors(ts)|
    ensures Walk(TensorParser(mem), at, |ts|) == Some((end, ts))
  {
    TensorsRead(mem, ts);
    WalkRoundTrip(TensorParser(mem), mem, at, CodedTensors(ts), end);
  }

  ghost predicate FirstOfKey<T>(key: T -> Text, items: seq<T>, i: int) {
    0 <= i < |items| && forall j :: 0 <= j < i ==> key(items[j]) != key(items[i])
  }

  /** Every key of the table is the key of the first item that has it. */
  lemma {:induction false} TableKeys<T>(key: T -> Text, items: seq<T>, k: Text)
    requires k in Table(key, items)
    ensures exists i :: FirstOfKey(key, items, i) && key(items[i]) == k
  {
    if items != [] {
      var n := |items| - 1;
      if k in Table(key, items[..n]) {
        TableKeys(key, items[..n], k);
        var i :| FirstOfKey(key, items[..n], i) && key(items[..n][i]) == k;
        assert forall j :: 0 <= j <= i ==> items[..n][j] == items[j];
        assert FirstOfKey(key, items, i);
      } else {
        assert forall j :: 0 <= j < n ==> items[..n][j] == items[j];
        forall j | 0 <= j < n
          ensures key(items[j]) != k
        {
          TableHasKeys(key, items[..n], j);
        }
        assert FirstOfKey(key, items, n);
      }
    }
  }

  lemma {:induction false} TableHasKeys<T>(key: T -> Text, items: seq<T>, i: nat)
    requires i < |items|
    ensures key(items[i]) in Table(key, items)
  {
    if i < |items| - 1 {
      TableHasKeys(key, items[..|items| - 1], i);
    }
  }

  /** The table holds, under each key, the first item of that key. */
  lemma {:induction false} TableHoldsFirst<T>(key: T -> Text, items: seq<T>, i: nat)
    requires FirstOfKey(key, items, i)
    ensures key(items[i]) in Table(key, items) && Table(key, items)[key(items[i])] == items[i]
  {
    var n := |items| - 1;
    if i < n {
      assert FirstOfKey(key, items[..n], i);
      TableHoldsFirst(key, items[..n], i);
    } else if key(items[i]) in Table(key, items[..n]) {
      TableKeys(key, items[..n], key(items[i]));
    }
  }

  lemma HeaderRoundTrip(mem: Text, f: File)
    requires FileWellFormed(f) && Holds(mem, 0, EncodeHeader(f))
    ensures Load(mem, 8, LONG) == |f.tensors| && Load(mem, 16, LONG) == |f.entries|
    ensures Int32(Load(mem, 16, LONG)) == |f.entries|
  {
    var tensors, entries := Little(|f.tensors|, LONG), Little(|f.entries|, LONG);
    HoldsParts(mem, 0, Little(f.magic, WORD), Little(f.version, WORD) + (tensors + entries));
    HoldsParts(mem, 4, Little(f.version, WORD), tensors + entries);
    HoldsParts(mem, 8, tensors, entries);
    Powers();
    LoadLittle(mem, 8, |f.tensors|, LONG);
    LoadLittle(mem, 16, |f.entries|, LONG);
    Int32Exact(|f.entries|);
  }

  lemma WalksLoad(entry: Parser<Entry>, tensor: Parser<Tensor>, es: seq<Entry>, ts: seq<Tensor>,
                  mid: nat, end: nat, mapBase: nat)
    requires Walk(entry, 24, |es|) == Some((mid, es)) && Walk(tensor, mid, |ts|) == Some((end, ts))
    ensures LoadTables(entry, tensor, |es|, |ts|, mapBase) == Assembled(mapBase, Table(KEY, es), Table(NAME, ts), end)
  {
  }

  lemma TablesLoad(mem: Text, es: seq<Entry>, ts: seq<Tensor>, mapBase: nat, mid: nat, end: nat)
    requires EntriesFit(es)
    requires TensorsFit(ts)
    requires Holds(mem, 24, EncodeEntries(es) + EncodeTensors(ts))
    requires mid == 24 + |EncodeEntries(es)| && end == mid + |EncodeTensors(ts)|
    ensures LoadTables(EntryParser(mem), TensorParser(mem), |es|, |ts|, mapBase)
         == Assembled(mapBase, Table(KEY, es), Table(NAME, ts), end)
  {
    HoldsParts(mem, 24, EncodeEntries(es), EncodeTensors(ts));
    EntriesRoundTrip(mem, 24, es, mid);
    TensorsRoundTrip(mem, mid, ts, end);
    WalksLoad(EntryParser(mem), TensorParser(mem), es, ts, mid, end, mapBase);
  }

  /**
   A well-formed file loads: the cursor ends right after the tensor infos and the tables
   hold the file's entries and tensors. It fails only for an alignment that is a number
   but not a uint8.
   */
  lemma FileLoads(f: File, mem: Text, mapBase: nat)
    requires FileWellFormed(f) && Holds(mem, 0, EncodeInfo(f))
    ensures LoadFile(mem, mapBase) == Assembled(mapBase, Table(KEY, f.entries), Table(NAME, f.tensors), |EncodeInfo(f)|)
  {
    HoldsParts(mem, 0, EncodeHeader(f), EncodeEntries(f.entries) + EncodeTensors(f.tensors));
    HeaderRoundTrip(mem, f);
    TablesLoad(mem, f.entries, f.tensors, mapBase, 24 + |EncodeEntries(f.entries)|, |EncodeInfo(f)|);
  }

  /** Entry `i` is the one that counts for the alignment. */
  ghost predicate StoresAlignment(es: seq<Entry>, i: int) {
    FirstOfKey(KEY, es, i) && es[i].key == ALIGNMENT_KEY
  }

  /** The first alignment entry holds a number other than a uint8, as the format itself asks for. */
  ghost predicate ForeignAlignment(es: seq<Entry>) {
    exists i :: StoresAlignment(es, i) && es[i].value.Prim? && !es[i].value.p.U8?
  }

  /**
   The file's alignment is `a`: a uint8 other than 0 stored in the first alignment entry, and
   32 when that entry holds 0 or no number, or when there is none.
   */
  ghost predicate AlignedTo(es: seq<Entry>, a: nat) {
    && (forall i :: StoresAlignment(es, i) ==>
          match es[i].value
          case Prim(U8(n)) => a == if n > 0 then n else 32
          case Prim(_) => false
          case _ => a == 32)
    && (a != 32 ==> exists i :: StoresAlignment(es, i))
  }

  lemma AlignmentFromTable(es: seq<Entry>)
    ensures ALIGNMENT_KEY in Table(KEY, es) <==> exists i :: StoresAlignment(es, i)
    ensures forall i :: StoresAlignment(es, i) ==> Alignment(Table(KEY, es)) == StoredAlignment(es[i].value)
  {
    if ALIGNMENT_KEY in Table(KEY, es) {
      TableKeys(KEY, es, ALIGNMENT_KEY);
      var i :| FirstOfKey(KEY, es, i) && KEY(es[i]) == ALIGNMENT_KEY;
      assert StoresAlignment(es, i);
    }
    forall i | StoresAlignment(es, i)
      ensures ALIGNMENT_KEY in Table(KEY, es) && Table(KEY, es)[ALIGNMENT_KEY] == es[i]
    {
      TableHoldsFirst(KEY, es, i);
    }
  }

  lemma AlignmentIs(es: seq<Entry>, a: nat)
    ensures AlignedTo(es, a) <==> Alignment(Table(KEY, es)) == Some(a)
  {
    AlignmentFromTable(es);
  }

  /** A well-formed file fails to load exactly when its alignment is stored as such a number. */
  lemma LoadFailsExactly(f: File, mem: Text, mapBase: nat)
    requires FileWellFormed(f) && Holds(mem, 0, EncodeInfo(f))
    ensures LoadFile(mem, mapBase).Failed? <==> ForeignAlignment(f.entries)
    ensures LoadFile(mem, mapBase).Failed? ==> LoadFile(mem, mapBase).error == BadVariant
  {
    FileLoads(f, mem, mapBase);
    AlignmentForeign(f.entries);
  }

  lemma AlignmentForeign(es: seq<Entry>)
    ensures Alignment(Table(KEY, es)) == None <==> ForeignAlignment(es)
  {
    AlignmentFromTable(es);
    if Alignment(Table(KEY, es)) == None {
      var i :| StoresAlignment(es, i);
    }
  }

  // ---------- where the pointers land ----------

  lemma MultipleBetween(k: int, a: nat)
    requires a > 0
    ensures k >= 1 ==> a * k >= a
    ensures k <= -1 ==> a * k + a <= 0
  {
  }

  lemma ModIs(x: int, q: int, r: int, a: nat)
    requires a > 0 && x == a * q + r && 0 <= r < a
    ensures x % a == r
  {
    var q', r' := x / a, x % a;
    assert x == a * q' + r';
    assert a * (q - q') == r' - r;
    MultipleBetween(q - q', a);
  }

  lemma AlignUpIsNextMultiple(x: nat, a: nat)
    requires a > 0
    ensures x <= AlignUp(x, a) < x + a && AlignUp(x, a) % a == 0
  {
    var q, r := x / a, x % a;
    assert x == a * q + r;
    if r == 0 {
      ModIs(a, 1, 0, a);
    } else {
      ModIs(a - r, 0, a - r, a);
      assert a * (q + 1) == a * q + a;
      ModIs(AlignUp(x, a), q + 1, 0, a);
    }
  }

  lemma ShiftMod(x: int, k: int, a: nat)
    requires a > 0
    ensures (x + a * k) % a == x % a
  {
    var q, q' := x / a, (x + a * k) / a;
    var r, r' := x % a, (x + a * k) % a;
    assert x == a * q + r;
    assert x + a * k == a * q' + r';
    assert a * (q + k - q') == r' - r;
    MultipleBetween(q + k - q', a);
  }

  /** Aligning the address agrees with aligning the file position exactly for an aligned base. */
  lemma AlignShift(mapBase: nat, x: nat, a: nat)
    requires a > 0
    ensures AlignUp(mapBase + x, a) == mapBase + AlignUp(x, a) <==> mapBase % a == 0
  {
    AlignUpIsNextMultiple(x, a);
    AlignUpIsNextMultiple(mapBase + x, a);
    AddMultiple(mapBase, AlignUp(x, a), a);
    if mapBase % a == 0 {
      MultiplesAgree(mapBase + AlignUp(x, a), AlignUp(mapBase + x, a), mapBase + x, a);
    }
  }

  lemma AddMultiple(x: nat, y: nat, a: nat)
    requires a > 0 && y % a == 0
    ensures (x + y) % a == x % a
  {
    assert y == a * (y / a);
    ShiftMod(x, y / a, a);
  }

  /** There is one multiple in a stretch of `a` numbers. */
  lemma MultiplesAgree(y: nat, z: nat, from: nat, a: nat)
    requires a > 0 && y % a == 0 && z % a == 0 && from <= y < from + a && from <= z < from + a
    ensures y == z
  {
    var p, q := y / a, z / a;
    assert y == a * p && z == a * q;
    assert y - z == a * (p - q);
    MultipleBetween(p - q, a);
  }

  lemma HoldsStart(a: Text, b: Text)
    ensures Holds(a + b, 0, a)
  {
    assert forall i :: 0 <= i < |a| ==> (a + b)[i] == a[i];
  }

  lemma HoldsEnd(a: Text, b: Text)
    ensures Holds(a + b, |a|, b)
  {
    assert forall i :: 0 <= i < |b| ==> (a + b)[|a| + i] == b[i];
  }

  lemma AssembledPointer(l: Loaded, mapBase: nat, es: seq<Entry>, ts: seq<Tensor>, cursor: nat, a: nat, i: nat)
    requires l == Assembled(mapBase, Table(KEY, es), Table(NAME, ts), cursor)
    requires AlignedTo(es, a) && FirstOfKey(NAME, ts, i)
    ensures l.Loader? && l.cursor == cursor && ts[i].name in l.tensors && l.tensors[ts[i].name] == ts[i]
    ensures mapBase % a == 0 <==> TensorPtr(l, ts[i].offset) == mapBase + AlignUp(cursor, a) + ts[i].offset
  {
    AlignmentIs(es, a);
    TableHoldsFirst(NAME, ts, i);
    AlignShift(mapBase, cursor, a);
  }

  lemma HoldsPadded(info: Text, padding: Text, data: Text)
    ensures Holds(info + (padding + data), 0, info)
    ensures Holds(info + (padding + data), |info| + |padding|, data)
  {
    HoldsStart(info, padding + data);
    Assoc(info, padding, data);
    HoldsEnd(info + padding, data);
  }

  /** The position of the data section in the file. */
  ghost function DataStart(f: File, a: nat): (at: nat)
    requires FileWellFormed(f) && a > 0
  {
    AlignUp(|EncodeInfo(f)|, a)
  }

  /** Memory holds the file from its first byte on; the padding and what follows do not matter. */
  ghost predicate IsFile(mem: Text, f: File, a: nat)
    requires FileWellFormed(f) && a > 0
  {
    Holds(mem, 0, EncodeInfo(f)) && Holds(mem, DataStart(f, a), f.data)
  }

  lemma EncodedIsFile(f: File, a: nat)
    requires FileWellFormed(f) && a > 0
    ensures IsFile(EncodeFile(f, a), f, a)
  {
    var info := EncodeInfo(f);
    var padding: Text := seq(AlignUp(|info|, a) - |info|, _ => 0);
    HoldsPadded(info, padding, f.data);
  }

  /**
   A tensor info that comes first under its name is the one in the table, and the pointer
   to its recorded offset is the address of its first data byte if and only if the
   alignment divides the address at which the file is mapped.
   */
  lemma TensorPointersExact(f: File, a: nat, mem: Text, mapBase: nat, i: nat, l: Loaded)
    requires FileWellFormed(f) && AlignedTo(f.entries, a) && FirstOfKey(NAME, f.tensors, i)
    requires IsFile(mem, f, a) && l == LoadFile(mem, mapBase)
    ensures l.Loader? && l.cursor == |EncodeInfo(f)|
    ensures f.tensors[i].name in l.tensors && l.tensors[f.tensors[i].name] == f.tensors[i]
    ensures mapBase % a == 0 <==>
            TensorPtr(l, f.tensors[i].offset) == mapBase + DataStart(f, a) + f.tensors[i].offset
  {
    FileLoads(f, mem, mapBase);
    AssembledPointer(l, mapBase, f.entries, f.tensors, |EncodeInfo(f)|, a, i);
  }

  /** The byte at an address of the mapping, which begins at `mapBase`. */
  function ByteAt(mem: Text, mapBase: nat, address: nat): (b: Option<byte>) {
    if mapBase <= address < mapBase + |mem| then Some(mem[address - mapBase]) else None
  }

  /** Dereferencing a tensor's pointer reads its own data, byte for byte. */
  lemma TensorPointersLand(f: File, a: nat, mem: Text, mapBase: nat, i: nat, k: nat, l: Loaded)
    requires FileWellFormed(f) && AlignedTo(f.entries, a) && FirstOfKey(NAME, f.tensors, i)
    requires IsFile(mem, f, a) && l == LoadFile(mem, mapBase) && mapBase % a == 0
    requires f.tensors[i].offset + k < |f.data|
    ensures l.Loader?
    ensures ByteAt(mem, mapBase, TensorPtr(l, f.tensors[i].offset) + k) == Some(f.data[f.tensors[i].offset + k])
  {
    assert l.Loader? && TensorPtr(l, f.tensors[i].offset) == mapBase + DataStart(f, a) + f.tensors[i].offset by {
      TensorPointersExact(f, a, mem, mapBase, i, l);
    }
    PointerByte(l, mem, DataStart(f, a), f.data, mapBase, f.tensors[i].offset, k);
  }

  lemma PointerByte(l: Loaded, mem: Text, at: nat, data: Text, mapBase: nat, offset: nat, k: nat)
    requires Holds(mem, at, data) && offset + k < |data|
    requires l.Loader? && TensorPtr(l, offset) == mapBase + at + offset
    ensures ByteAt(mem, mapBase, TensorPtr(l, offset) + k) == Some(data[offset + k])
  {
    assert mem[at + (offset + k)] == data[offset + k];
  }

  // ---------- the loops ----------

  ghost function Joined<T>(done: seq<T>, rest: Option<(nat, seq<T>)>): Option<(nat, seq<T>)> {
    if rest.None? then None else Some((rest.value.0, done + rest.value.1))
  }

  /** After `done`, the walk has `left` items to read from `at` on. */
  ghost predicate WalkGoesOn<T>(parse: Parser<T>, whole: Option<(nat, seq<T>)>, done: seq<T>, at: nat, left: int) {
    whole == Joined(done, Walk(parse, at, left))
  }

  lemma WalkBegins<T>(parse: Parser<T>, at: nat, count: int)
    ensures WalkGoesOn(parse, Walk(parse, at, count), [], at, count)
  {
    var walk := Walk(parse, at, count);
    assert walk.Some? ==> [] + walk.value.1 == walk.value.1;
  }

  lemma WalkReads<T>(parse: Parser<T>, whole: Option<(nat, seq<T>)>, done: seq<T>, at: nat, left: int,
                     item: T, size: nat)
    requires WalkGoesOn(parse, whole, done, at, left) && left > 0 && parse(at) == Some((item, size))
    ensures WalkGoesOn(parse, whole, done + [item], at + size, left - 1)
  {
    var rest := Walk(parse, at + size, left - 1);
    if rest.Some? {
      Assoc(done, [item], rest.value.1);
    }
  }

  lemma WalkBreaks<T>(parse: Parser<T>, whole: Option<(nat, seq<T>)>, done: seq<T>, at: nat, left: int)
    requires WalkGoesOn(parse, whole, done, at, left) && left > 0
    requires parse(at).None? || parse(at).value.1 < 0
    ensures whole == None
  {
  }

  lemma WalkEnds<T>(parse: Parser<T>, whole: Option<(nat, seq<T>)>, done: seq<T>, at: nat, left: int)
    requires WalkGoesOn(parse, whole, done, at, left) && left <= 0
    ensures whole == Some((at, done))
  {
    NothingMore(done);
  }

  lemma TableSnoc<T>(key: T -> Text, items: seq<T>, item: T)
    ensures Table(key, items + [item]) == InsertNew(key, Table(key, items), item)
  {
    assert (items + [item])[..|items|] == items;
  }

  /** `parse` is the entry parser of this memory. */
  ghost predicate ParsesEntries(parse: Parser<Entry>, mem: Text) {
    forall at: nat :: SameEntry(parse, mem, at)
  }

  ghost predicate SameEntry(parse: Parser<Entry>, mem: Text, at: nat) {
    parse(at) == EntryAt(mem, at)
  }

  /** `parse` is the tensor info parser of this memory. */
  ghost predicate ParsesTensors(parse: Parser<Tensor>, mem: Text) {
    forall at: nat :: SameTensor(parse, mem, at)
  }

  ghost predicate SameTensor(parse: Parser<Tensor>, mem: Text, at: nat) {
    parse(at) == TensorAt(mem, at)
  }

  /** `Metadata::from_ptr` and `size` */
  method ReadEntry(mem: Text, at: nat) returns (r: Option<(Entry, int)>)
    ensures r == EntryAt(mem, at)
  {
    var key := StringAt(mem, at);
    if key.None? || StringSize(key.value) < 0 {
      return None;
    }
    var cur := at + StringSize(key.value);
    if cur + 4 > |mem| {
      return None;
    }
    var value := ParseValue(mem, cur + 4, Load(mem, cur, WORD));
    if value.None? {
      return None;
    }
    var size := ValueSize(value.value);
    r := Some((Entry(key.value, value.value), Int32(StringSize(key.value) + size + 4)));
  }

  method NextEntry(mem: Text, at: nat, ghost parse: Parser<Entry>) returns (r: Option<(Entry, int)>)
    requires ParsesEntries(parse, mem)
    ensures r == parse(at)
  {
    assert SameEntry(parse, mem, at);
    r := ReadEntry(mem, at);
  }

  /** `TensorInfo::from_ptr`, from the dimension count on. */
  method ReadAfterName(mem: Text, at: nat, name: Text) returns (t: Option<Tensor>)
    ensures t == TensorAfterName(mem, at, name)
  {
    if at + 4 > |mem| {
      return None;
    }
    var n := Load(mem, at, WORD);
    if at + 4 + 8 * n + 12 > |mem| {
      return None;
    }
    var dims, cur := ReadDims(mem, at + 4, n);
    t := Some(Tensor(name, dims, Load(mem, cur, WORD), Load(mem, cur + 4, LONG)));
  }

  /** After `dims`, there are `left` dimensions to read from `cur` on. */
  ghost predicate DimsGoOn(mem: Text, whole: seq<nat>, dims: seq<nat>, cur: nat, left: nat) {
    cur + 8 * left <= |mem| && whole == dims + DimsAt(mem, cur, left)
  }

  lemma DimsMore(mem: Text, whole: seq<nat>, dims: seq<nat>, cur: nat, left: nat)
    requires left > 0 && DimsGoOn(mem, whole, dims, cur, left)
    ensures DimsGoOn(mem, whole, dims + [Load(mem, cur, LONG)], cur + 8, left - 1)
  {
    Assoc(dims, [Load(mem, cur, LONG)], DimsAt(mem, cur + 8, left - 1));
  }

  method ReadDims(mem: Text, at: nat, count: nat) returns (dims: seq<nat>, cur: nat)
    requires at + 8 * count <= |mem|
    ensures dims == DimsAt(mem, at, count) && cur == at + 8 * count
  {
    dims := [];
    cur := at;
    ghost var whole := DimsAt(mem, at, count);
    assert [] + whole == whole;
    for i := 0 to count
      invariant cur == at + 8 * i && DimsGoOn(mem, whole, dims, cur, count - i)
    {
      DimsMore(mem, whole, dims, cur, count - i);
      dims := dims + [Load(mem, cur, LONG)];
      cur := cur + 8;
    }
    NothingMore(dims);
  }

  /** `TensorInfo::from_ptr` and `size` */
  method ReadTensor(mem: Text, at: nat) returns (r: Option<(Tensor, int)>)
    ensures r == TensorAt(mem, at)
  {
    var name := StringAt(mem, at);
    if name.None? || StringSize(name.value) < 0 {
      return None;
    }
    var t := ReadAfterName(mem, at + StringSize(name.value), name.value);
    r := if t.None? then None else Some((t.value, TensorSize(t.value)));
  }

  method NextTensor(mem: Text, at: nat, ghost parse: Parser<Tensor>) returns (r: Option<(Tensor, int)>)
    requires ParsesTensors(parse, mem)
    ensures r == parse(at)
  {
    assert SameTensor(parse, mem, at);
    r := ReadTensor(mem, at);
  }

  /** The table and the cursor that a walk over the items leaves. */
  ghost function TableOf<T>(key: T -> Text, walk: Option<(nat, seq<T>)>): (r: Option<(nat, map<Text, T>)>) {
    if walk.None? then None else Some((walk.value.0, Table(key, walk.value.1)))
  }

  /** The loop of `gguf_metadata`: parse at the cursor, advance by the entry's own size, insert. */
  method ReadEntries(mem: Text, at: nat, count: int, ghost parse: Parser<Entry>)
    returns (r: Option<(nat, map<Text, Entry>)>)
    requires ParsesEntries(parse, mem)
    ensures r == TableOf(KEY, Walk(parse, at, count))
  {
    ghost var whole, read := Walk(parse, at, count), [];
    var ptr: nat, entries: map<Text, Entry>, i := at, map[], 0;
    WalkBegins(parse, at, count);
    while i < count
      invariant WalkGoesOn(parse, whole, read, ptr, count - i) && entries == Table(KEY, read)
    {
      var entry := NextEntry(mem, ptr, parse);
      if entry.None? || entry.value.1 < 0 {
        WalkBreaks(parse, whole, read, ptr, count - i);
        return None;
      }
      WalkReads(parse, whole, read, ptr, count - i, entry.value.0, entry.value.1);
      ptr := ptr + entry.value.1;
      entries := InsertNew(KEY, entries, entry.value.0);
      TableSnoc(KEY, read, entry.value.0);
      read := read + [entry.value.0];
      i := i + 1;
    }
    WalkEnds(parse, whole, read, ptr, count - i);
    r := Some((ptr, entries));
  }

  /** The loop of `gguf_tensors_info`. */
  method ReadTensors(mem: Text, at: nat, count: nat, ghost parse: Parser<Tensor>)
    returns (r: Option<(nat, map<Text, Tensor>)>)
    requires ParsesTensors(parse, mem)
    ensures r == TableOf(NAME, Walk(parse, at, count))
  {
    ghost var whole, read := Walk(parse, at, count), [];
    var ptr: nat, tensors: map<Text, Tensor>, i := at, map[], 0;
    WalkBegins(parse, at, count);
    while i < count
      invariant WalkGoesOn(parse, whole, read, ptr, count - i) && tensors == Table(NAME, read)
    {
      var tensor := NextTensor(mem, ptr, parse);
      if tensor.None? || tensor.value.1 < 0 {
        WalkBreaks(parse, whole, read, ptr, count - i);
        return None;
      }
      WalkReads(parse, whole, read, ptr, count - i, tensor.value.0, tensor.value.1);
      ptr := ptr + tensor.value.1;
      tensors := InsertNew(NAME, tensors, tensor.value.0);
      TableSnoc(NAME, read, tensor.value.0);
      read := read + [tensor.value.0];
      i := i + 1;
    }
    WalkEnds(parse, whole, read, ptr, count - i);
    r := Some((ptr, tensors));
  }

  /** `load_gguf_file` */
  method LoadGguf(mem: Text, mapBase: nat) returns (r: Loaded)
    ensures r == LoadFile(mem, mapBase)
  {
    if |mem| < 24 {
      return Failed(OutOfMemoryBounds);
    }
    var entries := ReadEntries(mem, 24, Int32(Load(mem, 16, LONG)), EntryParser(mem));
    if entries.None? {
      return Failed(OutOfMemoryBounds);
    }
    var tensors := ReadTensors(mem, entries.value.0, Load(mem, 8, LONG), TensorParser(mem));
    if tensors.None? {
      return Failed(OutOfMemoryBounds);
    }
    r := Assembled(mapBase, entries.value.1, tensors.value.1, tensors.value.0);
  }
}

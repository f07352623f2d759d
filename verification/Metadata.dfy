/**
 GGUF metadata values: the encoding of the format's "File Structure" section, and the
 loader's cursor parser, which advances by each value's own 32-bit `size()`.
 */
module Metadata {
  import opened Bytes
  import opened LittleEndian

  const STRING := 8
  const ARRAY := 9

  /** A fixed-size value; floats are their bit patterns. */
  datatype Primitive =
    | U8(n: nat) | I8(i: int) | U16(n: nat) | I16(i: int) | U32(n: nat) | I32(i: int)
    | F32(bits: nat) | Bool(b: bool) | U64(n: nat) | I64(i: int) | F64(bits: nat)

  /** `Unknown` is what the loader makes of an unknown type code: no bytes, value zero. */
  datatype Value =
    | Prim(p: Primitive)
    | Str(text: Text)
    | Arr(elemType: nat, elems: seq<Value>)
    | Unknown

  function PrimCode(p: Primitive): (code: nat) {
    match p
    case U8(_) => 0
    case I8(_) => 1
    case U16(_) => 2
    case I16(_) => 3
    case U32(_) => 4
    case I32(_) => 5
    case F32(_) => 6
    case Bool(_) => 7
    case U64(_) => 10
    case I64(_) => 11
    case F64(_) => 12
  }

  function TypeCode(v: Value): (code: nat) {
    match v
    case Prim(p) => PrimCode(p)
    case Str(_) => STRING
    case Arr(_, _) => ARRAY
    case Unknown => 13
  }

  /** Bytes of a fixed-size value by its type code; 0 for every other code. */
  function Width(code: nat): (w: nat)
    ensures w == 0 || w == 1 || w == 2 || w == 4 || w == 8
  {
    if code == 0 || code == 1 || code == 7 then 1
    else if code == 2 || code == 3 then 2
    else if code == 4 || code == 5 || code == 6 then 4
    else if code == 10 || code == 11 || code == 12 then 8
    else 0
  }

  /** Two's complement. */
  function Unsigned(i: int, w: nat): (n: nat)
    requires FitsSigned(i, w)
  {
    if i < 0 then i + Pow256(w) else i
  }

  function Signed(n: nat, w: nat): (i: int) {
    if 2 * n < Pow256(w) then n else n - Pow256(w)
  }

  predicate FitsSigned(i: int, w: nat) {
    0 <= 2 * i + Pow256(w) < 2 * Pow256(w)
  }

  predicate InRange(p: Primitive) {
    match p
    case U8(n) => n < Pow256(1)
    case U16(n) => n < Pow256(2)
    case U32(n) => n < Pow256(4)
    case U64(n) => n < Pow256(8)
    case F32(bits) => bits < Pow256(4)
    case F64(bits) => bits < Pow256(8)
    case I8(i) => FitsSigned(i, 1)
    case I16(i) => FitsSigned(i, 2)
    case I32(i) => FitsSigned(i, 4)
    case I64(i) => FitsSigned(i, 8)
    case Bool(_) => true
  }

  /** The bits of a fixed-size value. */
  function Bits(p: Primitive): (n: nat)
    requires InRange(p)
  {
    match p
    case U8(n) => n
    case U16(n) => n
    case U32(n) => n
    case U64(n) => n
    case F32(bits) => bits
    case F64(bits) => bits
    case I8(i) => Unsigned(i, 1)
    case I16(i) => Unsigned(i, 2)
    case I32(i) => Unsigned(i, 4)
    case I64(i) => Unsigned(i, 8)
    case Bool(b) => if b then 1 else 0
  }

  /** The value a typed load makes of the bits. */
  function FromBits(code: nat, n: nat): (p: Primitive)
    requires Width(code) > 0
  {
    if code == 0 then U8(n)
    else if code == 1 then I8(Signed(n, 1))
    else if code == 2 then U16(n)
    else if code == 3 then I16(Signed(n, 2))
    else if code == 4 then U32(n)
    else if code == 5 then I32(Signed(n, 4))
    else if code == 6 then F32(n)
    else if code == 7 then Bool(n != 0)
    else if code == 10 then U64(n)
    else if code == 11 then I64(Signed(n, 8))
    else F64(n)
  }

  /** A value that can stand in a file: numbers fit, array elements have the array's type. */
  predicate WellFormed(v: Value) {
    match v
    case Prim(p) => InRange(p)
    case Str(text) => |text| < TWO_64
    case Arr(elemType, elems) =>
      elemType < TWO_32 && |elems| < TWO_64
      && forall i :: 0 <= i < |elems| ==> WellFormed(elems[i]) && TypeCode(elems[i]) == elemType
    case Unknown => false
  }

  function EncodeString(text: Text): (t: Text) {
    Little(|text|, LONG) + text
  }

  function Encode(v: Value): (t: Text)
    requires WellFormed(v)
    decreases v, 0
  {
    match v
    case Prim(p) => Little(Bits(p), Width(PrimCode(p)))
    case Str(text) => EncodeString(text)
    case Arr(elemType, elems) => Little(elemType, WORD) + (Little(|elems|, LONG) + EncodeAll(elems))
  }

  function EncodeAll(vs: seq<Value>): (t: Text)
    requires forall i :: 0 <= i < |vs| ==> WellFormed(vs[i])
    decreases vs, 1
  {
    if vs == [] then [] else Encode(vs[0]) + EncodeAll(vs[1..])
  }

  // ---------- size(), as computed in 32-bit int ----------

  function StringSize(text: Text): (size: int) {
    Int32(8 + |text|)
  }

  function Size(v: Value): (size: int)
    decreases v, 0
  {
    match v
    case Prim(p) => Width(PrimCode(p))
    case Str(text) => StringSize(text)
    case Arr(_, elems) => Int32(SizeSum(elems) + 12)
    case Unknown => 0
  }

  /** The running total of an array's element sizes, wrapping like the code's counter. */
  function SizeSum(vs: seq<Value>): (size: int)
    decreases vs, 1
  {
    if vs == [] then 0 else Int32(SizeSum(vs[..|vs| - 1]) + Size(vs[|vs| - 1]))
  }

  // ---------- the parser ----------

  /** Bytes from `at` to the end of memory; every nested value starts further on. */
  function Room(mem: Text, at: nat): (n: nat) {
    if at <= |mem| then |mem| - at else 0
  }

  function StringAt(mem: Text, at: nat): (text: Option<Text>) {
    if at + 8 > |mem| then None
    else
      var len := Load(mem, at, LONG);
      if at + 8 + len > |mem| then None else Some(mem[at + 8..at + 8 + len])
  }

  /** None when the code would read outside memory, or step backwards by a negative size. */
  function ValueAt(mem: Text, at: nat, code: nat): (v: Option<Value>)
    decreases Room(mem, at), 0, 0
  {
    if code == STRING then
      var text := StringAt(mem, at);
      if text.None? then None else Some(Str(text.value))
    else if code == ARRAY then
      if at + 12 > |mem| then None
      else
        var elemType, len := Load(mem, at, WORD), Load(mem, at + 4, LONG);
        var elems := ElementsAt(mem, at + 12, elemType, len);
        if elems.None? then None else Some(Arr(elemType, elems.value))
    else if Width(code) == 0 then Some(Unknown)
    else if at + Width(code) > |mem| then None
    else Some(Prim(FromBits(code, Load(mem, at, Width(code)))))
  }

  function ElementsAt(mem: Text, at: nat, code: nat, count: nat): (vs: Option<seq<Value>>)
    decreases Room(mem, at), 1, count
  {
    if count == 0 then Some([])
    else
      var first := ValueAt(mem, at, code);
      if first.None? || Size(first.value) < 0 then None
      else
        var rest := ElementsAt(mem, at + Size(first.value), code, count - 1);
        if rest.None? then None else Some([first.value] + rest.value)
  }

  // ---------- the type codes of the format ----------

  /** What each type code of a fixed-size value makes of the bytes. */
  lemma ByteLayout(mem: Text, at: nat)
    requires at + 1 <= |mem|
    ensures ValueAt(mem, at, 0) == Some(Prim(U8(mem[at])))
    ensures ValueAt(mem, at, 1) == Some(Prim(I8(if mem[at] < 0x80 then mem[at] else mem[at] as int - 0x100)))
    ensures ValueAt(mem, at, 7) == Some(Prim(Bool(mem[at] != 0)))
  {
    LoadBytes(mem, at);
    SignedLiteral(mem[at]);
  }

  lemma ShortLayout(mem: Text, at: nat, n: nat)
    requires at + 2 <= |mem| && n == Load(mem, at, 2)
    ensures ValueAt(mem, at, 2) == Some(Prim(U16(n)))
    ensures ValueAt(mem, at, 3) == Some(Prim(I16(if n < 0x8000 then n else n - 0x1_0000)))
  {
    SignedLiteral(n);
  }

  lemma WordLayout(mem: Text, at: nat, n: nat)
    requires at + 4 <= |mem| && n == Load(mem, at, 4)
    ensures ValueAt(mem, at, 4) == Some(Prim(U32(n))) && ValueAt(mem, at, 6) == Some(Prim(F32(n)))
    ensures ValueAt(mem, at, 5) == Some(Prim(I32(if n < 0x8000_0000 then n else n - 0x1_0000_0000)))
  {
    SignedLiteral(n);
  }

  lemma LongLayout(mem: Text, at: nat, n: nat)
    requires at + 8 <= |mem| && n == Load(mem, at, 8)
    ensures ValueAt(mem, at, 10) == Some(Prim(U64(n))) && ValueAt(mem, at, 12) == Some(Prim(F64(n)))
    ensures ValueAt(mem, at, 11)
         == Some(Prim(I64(if n < 0x8000_0000_0000_0000 then n else n - 0x1_0000_0000_0000_0000)))
  {
    SignedLiteral(n);
  }

  lemma SignedLiteral(n: nat)
    ensures Signed(n, 1) == if n < 0x80 then n else n - 0x100
    ensures Signed(n, 2) == if n < 0x8000 then n else n - 0x1_0000
    ensures Signed(n, 4) == if n < 0x8000_0000 then n else n - 0x1_0000_0000
    ensures Signed(n, 8) == if n < 0x8000_0000_0000_0000 then n else n - 0x1_0000_0000_0000_0000
  {
    Powers();
  }

  /** Code 8 is a string behind its 64-bit length, and 9 an array behind its type code and length. */
  lemma CompoundLayout(mem: Text, at: nat, len: nat)
    requires at + 8 <= |mem| && len == Load(mem, at, 8)
    ensures ValueAt(mem, at, 8) == if at + 8 + len <= |mem| then Some(Str(mem[at + 8..at + 8 + len])) else None
    ensures at + 12 <= |mem| && Load(mem, at + 4, 8) == 0 ==> ValueAt(mem, at, 9) == Some(Arr(Load(mem, at, 4), []))
  {
  }

  /** A string of one byte, and the array of strings that holds it alone. */
  lemma StringBytes(c: byte)
    ensures EncodeString([c]) == [1, 0, 0, 0, 0, 0, 0, 0, c]
  {
    SmallBytes(1);
  }

  lemma ArrayBytes(c: byte)
    ensures Encode(Arr(8, [Str([c])])) == [8, 0, 0, 0] + ([1, 0, 0, 0, 0, 0, 0, 0] + [1, 0, 0, 0, 0, 0, 0, 0, c])
  {
    StringBytes(c);
    SmallBytes(1);
    SmallBytes(8);
    var s: Value := Str([c]);
    NothingMore(Encode(s));
    assert [s][1..] == [] && EncodeAll([s]) == Encode(s) + EncodeAll([]);
  }

  /** An unknown code takes no bytes. */
  lemma UnknownTakesNothing(mem: Text, at: nat, code: nat)
    requires code > 12
    ensures ValueAt(mem, at, code) == Some(Unknown) && Size(Unknown) == 0
  {
  }

  // ---------- sizes are the encoded lengths, modulo 2^32 ----------

  lemma {:induction false} EncodeAllSnoc(vs: seq<Value>)
    requires vs != [] && forall i :: 0 <= i < |vs| ==> WellFormed(vs[i])
    ensures EncodeAll(vs) == EncodeAll(vs[..|vs| - 1]) + Encode(vs[|vs| - 1])
  {
    var n := |vs| - 1;
    if n == 0 {
      assert vs[..0] == [] && vs[1..] == [];
    } else {
      EncodeAllSnoc(vs[1..]);
      assert vs[1..][..n - 1] == vs[..n][1..];
      Assoc(Encode(vs[0]), EncodeAll(vs[..n][1..]), Encode(vs[n]));
    }
  }

  lemma {:induction false} SizeIsLength(v: Value)
    requires WellFormed(v)
    ensures Size(v) == Int32(|Encode(v)|)
    decreases v, 0
  {
    match v
    case Prim(p) => Int32Exact(Width(PrimCode(p)));
    case Str(text) =>
    case Arr(_, elems) =>
      SizeSumIsLength(elems);
      ArrayLength(v);
  }

  lemma ArrayLength(v: Value)
    requires v.Arr? && WellFormed(v) && SizeSum(v.elems) == Int32(|EncodeAll(v.elems)|)
    ensures Size(v) == Int32(|Encode(v)|)
  {
    var a := |EncodeAll(v.elems)|;
    assert |Encode(v)| == a + 12;
    Int32Sum(a, 12);
  }

  lemma {:induction false} SizeSumIsLength(vs: seq<Value>)
    requires forall i :: 0 <= i < |vs| ==> WellFormed(vs[i])
    ensures SizeSum(vs) == Int32(|EncodeAll(vs)|)
    decreases vs, 1
  {
    if vs == [] {
      Int32Exact(0);
    } else {
      var n := |vs| - 1;
      SizeSumIsLength(vs[..n]);
      SizeIsLength(vs[n]);
      EncodeAllSnoc(vs);
      SumSnoc(vs, |EncodeAll(vs[..n])|, |Encode(vs[n])|);
    }
  }

  lemma SumSnoc(vs: seq<Value>, a: nat, b: nat)
    requires vs != [] && SizeSum(vs[..|vs| - 1]) == Int32(a) && Size(vs[|vs| - 1]) == Int32(b)
    ensures SizeSum(vs) == Int32(a + b)
  {
    Int32Parts(a, b);
  }

  /** `size()` is the number of encoded bytes exactly when that number is below 2^31. */
  lemma SizeExactly(v: Value)
    requires WellFormed(v)
    ensures Size(v) == |Encode(v)| <==> |Encode(v)| < TWO_31
  {
    SizeIsLength(v);
    Int32Exact(|Encode(v)|);
  }

  // ---------- parsing undoes encoding ----------

  lemma StringRoundTrip(mem: Text, at: nat, text: Text)
    requires |text| < TWO_64 && Holds(mem, at, EncodeString(text))
    ensures StringAt(mem, at) == Some(text)
  {
    HoldsParts(mem, at, Little(|text|, LONG), text);
    HoldsSlice(mem, at + 8, text);
    Powers();
    LoadLittle(mem, at, |text|, LONG);
  }

  lemma PrimitiveRoundTrip(p: Primitive)
    requires InRange(p)
    ensures Width(PrimCode(p)) > 0
    ensures Bits(p) < Pow256(Width(PrimCode(p))) && FromBits(PrimCode(p), Bits(p)) == p
  {
    Powers();
  }

  /** An encoded value anywhere in memory parses to itself, whatever follows it. */
  lemma {:induction false} ValueRoundTrip(mem: Text, at: nat, v: Value)
    requires WellFormed(v) && Holds(mem, at, Encode(v)) && |Encode(v)| < TWO_31
    ensures ValueAt(mem, at, TypeCode(v)) == Some(v)
    decreases v, 0
  {
    match v
    case Prim(p) =>
      PrimitiveRoundTrip(p);
      LoadLittle(mem, at, Bits(p), Width(PrimCode(p)));
    case Str(text) => StringRoundTrip(mem, at, text);
    case Arr(elemType, elems) =>
      HoldsParts(mem, at, Little(elemType, WORD), Little(|elems|, LONG) + EncodeAll(elems));
      HoldsParts(mem, at + 4, Little(|elems|, LONG), EncodeAll(elems));
      Powers();
      LoadLittle(mem, at, elemType, WORD);
      LoadLittle(mem, at + 4, |elems|, LONG);
      ElementsRoundTrip(mem, at + 12, elemType, elems);
  }

  /** These can be the elements of an array whose type code is `code`. */
  predicate AllTyped(vs: seq<Value>, code: nat) {
    forall i :: 0 <= i < |vs| ==> WellFormed(vs[i]) && TypeCode(vs[i]) == code
  }

  lemma {:induction false} ElementsRoundTrip(mem: Text, at: nat, code: nat, vs: seq<Value>)
    requires AllTyped(vs, code) && Holds(mem, at, EncodeAll(vs)) && |EncodeAll(vs)| < TWO_31
    ensures ElementsAt(mem, at, code, |vs|) == Some(vs)
    decreases vs, 1
  {
    if vs != [] {
      var first, rest, next := vs[0], vs[1..], at + |Encode(vs[0])|;
      HeadAndTail(vs, code);
      ElementsHead(mem, at, code, vs);
      ElementsRoundTrip(mem, next, code, rest);
      assert |rest| == |vs| - 1;
      ElementsCons(mem, at, code, |vs|, first, rest, next, vs);
    }
  }

  /** The first element parses, and its size leads to where the others stand. */
  lemma {:induction false} ElementsHead(mem: Text, at: nat, code: nat, vs: seq<Value>)
    requires vs != [] && AllTyped(vs, code) && Holds(mem, at, EncodeAll(vs)) && |EncodeAll(vs)| < TWO_31
    ensures ValueAt(mem, at, code) == Some(vs[0]) && Size(vs[0]) == |Encode(vs[0])|
    ensures AllTyped(vs[1..], code)
    ensures Holds(mem, at + |Encode(vs[0])|, EncodeAll(vs[1..])) && |EncodeAll(vs[1..])| < TWO_31
    decreases vs, 0
  {
    HeadAndTail(vs, code);
    HoldsParts(mem, at, Encode(vs[0]), EncodeAll(vs[1..]));
    ValueRoundTrip(mem, at, vs[0]);
    SizeExactly(vs[0]);
  }

  lemma HeadAndTail(vs: seq<Value>, code: nat)
    requires vs != [] && AllTyped(vs, code)
    ensures [vs[0]] + vs[1..] == vs && AllTyped(vs[1..], code)
  {
  }

  lemma ElementsCons(mem: Text, at: nat, code: nat, count: nat, first: Value, rest: seq<Value>,
                     next: nat, all: seq<Value>)
    requires ValueAt(mem, at, code) == Some(first) && Size(first) >= 0 && next == at + Size(first)
    requires count > 0 && ElementsAt(mem, next, code, count - 1) == Some(rest) && all == [first] + rest
    ensures ElementsAt(mem, at, code, count) == Some(all)
  {
  }

  // ---------- the loops ----------

  /** The sum over an array's elements; the total is computed in `int`. */
  method ArraySize(elems: seq<Value>) returns (size: int)
    ensures size == Int32(SizeSum(elems) + 12)
    decreases elems, 1
  {
    var valSize := 0;
    for k := 0 to |elems|
      invariant valSize == SizeSum(elems[..k])
    {
      assert elems[..k + 1][..k] == elems[..k];
      var size := ValueSize(elems[k]);
      valSize := Int32(valSize + size);
    }
    assert elems[..|elems|] == elems;
    size := Int32(valSize + 12);
  }

  /** `size()` of whatever value this is. */
  method ValueSize(v: Value) returns (size: int)
    ensures size == Size(v)
    decreases v, 0
  {
    match v
    case Prim(p) => size := Width(PrimCode(p));
    case Str(text) => size := StringSize(text);
    case Arr(_, elems) => size := ArraySize(elems);
    case Unknown => size := 0;
  }

  method ParseValue(mem: Text, at: nat, code: nat) returns (v: Option<Value>)
    ensures v == ValueAt(mem, at, code)
    decreases Room(mem, at), 0
  {
    if code == STRING {
      var text := StringAt(mem, at);
      v := if text.None? then None else Some(Str(text.value));
    } else if code == ARRAY {
      v := ParseArray(mem, at);
    } else if Width(code) == 0 {
      v := Some(Unknown);
    } else {
      v := if at + Width(code) > |mem| then None else Some(Prim(FromBits(code, Load(mem, at, Width(code)))));
    }
  }

  ghost function Joined(done: seq<Value>, rest: Option<seq<Value>>): Option<seq<Value>> {
    if rest.None? then None else Some(done + rest.value)
  }

  lemma ElementsStep(mem: Text, done: seq<Value>, cur: nat, code: nat, count: nat, v: Value)
    requires count > 0 && ValueAt(mem, cur, code) == Some(v)
    ensures Size(v) < 0 ==> ElementsAt(mem, cur, code, count) == None
    ensures Size(v) >= 0 ==>
              Joined(done, ElementsAt(mem, cur, code, count))
              == Joined(done + [v], ElementsAt(mem, cur + Size(v), code, count - 1))
  {
    if Size(v) >= 0 && ElementsAt(mem, cur + Size(v), code, count - 1).Some? {
      Assoc(done, [v], ElementsAt(mem, cur + Size(v), code, count - 1).value);
    }
  }

  /** The array parser: the cursor moves by the size that each element reports. */
  method ParseArray(mem: Text, at: nat) returns (v: Option<Value>)
    ensures v == ValueAt(mem, at, ARRAY)
    decreases Room(mem, at), 0, 0
  {
    if at + 12 > |mem| {
      return None;
    }
    var elemType, len := Load(mem, at, WORD), Load(mem, at + 4, LONG);
    var cur := at + 12;
    var elems: seq<Value> := [];
    ghost var all := ElementsAt(mem, at + 12, elemType, len);
    assert all.Some? ==> [] + all.value == all.value;
    for i := 0 to len
      invariant at + 12 <= cur
      invariant Joined(elems, ElementsAt(mem, cur, elemType, len - i)) == all
    {
      var element := ParseValue(mem, cur, elemType);
      if element.None? {
        return None;
      }
      ElementsStep(mem, elems, cur, elemType, len - i, element.value);
      var step := ValueSize(element.value);
      if step < 0 {
        return None;
      }
      cur := cur + step;
      elems := elems + [element.value];
    }
    assert elems + [] == elems;
    v := Some(Arr(elemType, elems));
  }
}

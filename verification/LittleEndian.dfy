/** Little-endian integers in memory, and what it means that memory holds some bytes. */
module LittleEndian {
  import opened Bytes

  /** Bytes of a 32-bit and of a 64-bit integer. */
  const WORD: nat := 4
  const LONG: nat := 8

  function Pow256(w: nat): (p: nat)
    ensures p > 0
  {
    if w == 0 then 1 else 256 * Pow256(w - 1)
  }

  /** The `w` bytes of `n`, lowest first. */
  function Little(n: nat, w: nat): (t: Text)
    ensures |t| == w
  {
    if w == 0 then [] else [n % 256] + Little(n / 256, w - 1)
  }

  function Number(t: Text): (n: nat) {
    if t == [] then 0 else t[0] + 256 * Number(t[1..])
  }

  /** What a `w`-byte load at `at` yields. */
  function Load(mem: Text, at: nat, w: nat): (n: nat)
    requires at + w <= |mem|
  {
    Number(mem[at..at + w])
  }

  ghost predicate Holds(mem: Text, at: nat, bytes: Text) {
    at + |bytes| <= |mem| && forall i :: 0 <= i < |bytes| ==> mem[at + i] == bytes[i]
  }

  lemma HoldsSlice(mem: Text, at: nat, bytes: Text)
    requires Holds(mem, at, bytes)
    ensures mem[at..at + |bytes|] == bytes
  {
  }

  lemma HoldsParts(mem: Text, at: nat, a: Text, b: Text)
    requires Holds(mem, at, a + b)
    ensures Holds(mem, at, a) && Holds(mem, at + |a|, b)
  {
    forall i | 0 <= i < |a|
      ensures mem[at + i] == a[i]
    {
      assert (a + b)[i] == a[i];
    }
    forall i | 0 <= i < |b|
      ensures mem[at + |a| + i] == b[i]
    {
      assert (a + b)[|a| + i] == b[i];
    }
  }

  lemma {:induction false} NumberOfLittle(n: nat, w: nat)
    requires n < Pow256(w)
    ensures Number(Little(n, w)) == n
  {
    if w > 0 {
      NumberOfLittle(n / 256, w - 1);
      assert Little(n, w)[1..] == Little(n / 256, w - 1);
    }
  }

  lemma LoadLittle(mem: Text, at: nat, n: nat, w: nat)
    requires Holds(mem, at, Little(n, w)) && n < Pow256(w)
    ensures Load(mem, at, w) == n
  {
    NumberOfLittle(n, w);
    HoldsSlice(mem, at, Little(n, w));
  }

  /** Numbers below 256 in one, four and eight bytes. */
  lemma SmallBytes(n: byte)
    ensures Little(n, 1) == [n]
    ensures Little(n, WORD) == [n, 0, 0, 0]
    ensures Little(n, LONG) == [n, 0, 0, 0, 0, 0, 0, 0]
  {
    assert Little(0, 3) == [0, 0, 0] by {
      assert Little(0, 1) == [0] && Little(0, 2) == [0, 0];
    }
    assert Little(0, 7) == [0, 0, 0, 0, 0, 0, 0] by {
      assert Little(0, 4) == [0, 0, 0, 0] && Little(0, 5) == [0, 0, 0, 0, 0];
      assert Little(0, 6) == [0, 0, 0, 0, 0, 0];
    }
    assert n as int / 256 == 0 && n as int % 256 == n;
    assert Little(n, 1) == [n] + Little(0, 0);
    assert Little(n, 4) == [n] + Little(0, 3);
    assert Little(n, 8) == [n] + Little(0, 7);
  }

  function FourBytes(a: int, b: int, c: int, d: int): (n: int) {
    a + 0x100 * b + 0x1_0000 * c + 0x100_0000 * d
  }

  /** A load reads the lowest byte first. */
  lemma LoadBytes(mem: Text, at: nat)
    ensures at + 1 <= |mem| ==> Load(mem, at, 1) == mem[at]
    ensures at + 2 <= |mem| ==> Load(mem, at, 2) == mem[at] as int + 0x100 * (mem[at + 1] as int)
    ensures at + 4 <= |mem| ==> Load(mem, at, 4) == FourBytes(mem[at], mem[at + 1], mem[at + 2], mem[at + 3])
    ensures at + 8 <= |mem| ==> Load(mem, at, 8) == Load(mem, at, 4) + 0x1_0000_0000 * Load(mem, at + 4, 4)
  {
    if at + 1 <= |mem| {
      LoadFirst(mem, at, 0);
    }
    if at + 2 <= |mem| {
      LoadFirst(mem, at, 1);
      LoadFirst(mem, at + 1, 0);
    }
    if at + 4 <= |mem| {
      LoadFour(mem, at);
    }
    if at + 8 <= |mem| {
      LoadFour(mem, at + 4);
      LoadFirst(mem, at, 7);
      LoadFirst(mem, at + 1, 6);
      LoadFirst(mem, at + 2, 5);
      LoadFirst(mem, at + 3, 4);
    }
  }

  lemma LoadFour(mem: Text, at: nat)
    requires at + 4 <= |mem|
    ensures Load(mem, at, 4) == FourBytes(mem[at], mem[at + 1], mem[at + 2], mem[at + 3])
  {
    LoadFirst(mem, at, 3);
    LoadFirst(mem, at + 1, 2);
    LoadFirst(mem, at + 2, 1);
    LoadFirst(mem, at + 3, 0);
  }

  lemma LoadFirst(mem: Text, at: nat, w: nat)
    requires at + w + 1 <= |mem|
    ensures Load(mem, at, w + 1) == mem[at] + 256 * Load(mem, at + 1, w)
  {
    var t := mem[at..at + w + 1];
    assert t[0] == mem[at] && t[1..] == mem[at + 1..at + 1 + w];
  }

  const TWO_31: nat := 0x8000_0000
  const TWO_32: nat := 0x1_0000_0000
  const TWO_64: nat := 0x1_0000_0000_0000_0000

  lemma Powers()
    ensures Pow256(1) == 0x100 && Pow256(2) == 0x1_0000
    ensures Pow256(4) == TWO_32 && Pow256(8) == TWO_64
  {
    assert Pow256(3) == 0x100_0000;
    assert Pow256(5) == 0x100_0000_0000;
    assert Pow256(6) == 0x1_0000_0000_0000;
    assert Pow256(7) == 0x100_0000_0000_0000;
  }

  /** Conversion to a 32-bit `int`: the integer of that range congruent modulo 2^32. */
  function Int32(x: int): (i: int)
    ensures -0x8000_0000 <= i < 0x8000_0000
  {
    (x + 0x8000_0000) % 0x1_0000_0000 - 0x8000_0000
  }

  lemma Int32Shift(x: int, k: int)
    ensures Int32(x + 0x1_0000_0000 * k) == Int32(x)
  {
    var q, q' := (x + 0x8000_0000) / 0x1_0000_0000, (x + 0x1_0000_0000 * k + 0x8000_0000) / 0x1_0000_0000;
    assert q' == q + k;
  }

  lemma Int32Sum(a: int, b: int)
    ensures Int32(Int32(a) + b) == Int32(a + b)
  {
    var q := (a + 0x8000_0000) / 0x1_0000_0000;
    assert Int32(a) + b == (a + b) + 0x1_0000_0000 * (0 - q);
    Int32Shift(a + b, 0 - q);
  }

  /** Wrapping the parts of a sum first changes nothing. */
  lemma Int32Parts(a: int, b: int)
    ensures Int32(Int32(a) + Int32(b)) == Int32(a + b)
  {
    Int32Sum(a, Int32(b));
    Int32Sum(b, a);
  }

  /** The converted number differs from the original by a multiple of 2^32. */
  lemma Int32Congruent(x: int)
    ensures (x - Int32(x)) % 0x1_0000_0000 == 0
  {
  }

  lemma Int32Exact(a: nat)
    ensures Int32(a) == a <==> a < TWO_31
  {
  }
}

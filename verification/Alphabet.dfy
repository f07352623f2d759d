/**
 The byte alphabet of the tokenizer: every byte is written as one printable Unicode
 character (a "glyph"), stored as UTF-8.
 */
module Alphabet {
  import opened Bytes

  const SPACE: byte := 0x20

  /** The bytes that stand for themselves: '!'..'~', U+00A1..U+00AC, U+00AE..U+00FF. */
  predicate Printable(b: byte) {
    0x21 <= b <= 0x7E || 0xA1 <= b <= 0xAC || 0xAE <= b
  }

  /** UTF-8 of a code point below 0x800; the code produces the empty string above. */
  function Utf8(cp: nat): (t: Text) {
    if cp <= 0x7F then [cp]
    else if cp <= 0x7FF then [0xC0 + cp / 64, 0x80 + cp % 64]
    else []
  }

  /** How many bytes below `b` were shifted; the recursion is the loop's counter. */
  function Shifted(b: nat): (n: nat)
    requires b <= 256
    ensures n == if b <= 0x21 then b else if b <= 0x7F then 33
                 else if b <= 0xA1 then b - 94 else if b <= 0xAD then 67 else 68
  {
    if b == 0 then 0 else Shifted(b - 1) + (if Printable(b - 1) then 0 else 1)
  }

  function CodePoint(b: byte): (cp: nat) {
    if Printable(b) then b else 256 + Shifted(b)
  }

  function Glyph(b: byte): (t: Text) {
    Utf8(CodePoint(b))
  }

  /** The glyphs of a byte string, one token each: the start of every merge. */
  function GlyphTokens(bytes: Text): (ts: seq<Text>)
    ensures |ts| == |bytes|
    ensures forall i :: 0 <= i < |bytes| ==> ts[i] == Glyph(bytes[i])
  {
    seq(|bytes|, i requires 0 <= i < |bytes| => Glyph(bytes[i]))
  }

  function Glyphs(bytes: Text): (t: Text) {
    if bytes == [] then [] else Glyph(bytes[0]) + Glyphs(bytes[1..])
  }

  predicate SpaceFree(t: Text) {
    SPACE !in t
  }

  /** `toByte` is exactly the inverse of `Glyph`. */
  ghost predicate InvertsGlyphs(toByte: map<Text, byte>) {
    && (forall b: byte :: Glyph(b) in toByte && toByte[Glyph(b)] == b)
    && (forall t :: t in toByte ==> t == Glyph(toByte[t]))
  }

  /** Length of the UTF-8 sequence announced by its first byte, as the decoder reads it. */
  function PieceLength(c: byte): (n: nat)
    ensures 1 <= n <= 4
  {
    if 0xC0 <= c <= 0xDF then 2
    else if 0xE0 <= c <= 0xEF then 3
    else if 0xF0 <= c <= 0xF7 then 4
    else 1
  }

  /** The next piece, cut short at the end of the token. */
  function Piece(t: Text): (p: Text)
    requires t != []
    ensures 1 <= |p| <= |t| && p == t[..|p|]
  {
    if PieceLength(t[0]) <= |t| then t[..PieceLength(t[0])] else t
  }

  /** What decoding a token yields: glyphs become bytes, every other piece stays. */
  function Unglyph(toByte: map<Text, byte>, t: Text): (bytes: Text) {
    if t == [] then []
    else
      var p := Piece(t);
      (if p in toByte then [toByte[p]] else p) + Unglyph(toByte, t[|p|..])
  }

  // ---------- the alphabet ----------

  /** A glyph is one visible ASCII byte, or a two-byte sequence led by 0xC2..0xC5. */
  lemma GlyphShape(b: byte)
    ensures |Glyph(b)| == 1 || |Glyph(b)| == 2
    ensures |Glyph(b)| == 1 ==> Glyph(b) == [b] && 0x21 <= b <= 0x7E
    ensures |Glyph(b)| == 2 ==> 0xC2 <= Glyph(b)[0] <= 0xC5 && 0x80 <= Glyph(b)[1] <= 0xBF
    ensures SpaceFree(Glyph(b))
  {
  }

  /** The whole alphabet, byte by byte: GPT-2's table of printable characters. */
  lemma GlyphTable(b: byte)
    ensures 0x00 <= b <= 0x20 ==> Glyph(b) == [0xC4, 0x80 + b]
    ensures 0x21 <= b <= 0x7E ==> Glyph(b) == [b]
    ensures 0x7F <= b <= 0x9D ==> Glyph(b) == [0xC4, b + 0x22]
    ensures 0x9E <= b <= 0xA0 ==> Glyph(b) == [0xC5, b - 0x1E]
    ensures 0xA1 <= b <= 0xBF && b != 0xAD ==> Glyph(b) == [0xC2, b]
    ensures b == 0xAD ==> Glyph(b) == [0xC5, 0x83]
    ensures 0xC0 <= b <= 0xFF ==> Glyph(b) == [0xC3, b - 0x40]
  {
    var cp := CodePoint(b);
    assert b <= 0x20 ==> cp == 0x100 + b;
    assert 0x7F <= b <= 0xA0 ==> cp == 0x121 + (b - 0x7F);
    assert b == 0xAD ==> cp == 0x143;
  }

  lemma CodePointInjective(a: byte, b: byte)
    requires CodePoint(a) == CodePoint(b)
    ensures a == b
  {
  }

  lemma GlyphInjective(a: byte, b: byte)
    requires Glyph(a) == Glyph(b)
    ensures a == b
  {
    var x, y := CodePoint(a), CodePoint(b);
    GlyphShape(a);
    GlyphShape(b);
    if |Glyph(a)| == 2 {
      assert Glyph(a)[0] == 0xC0 + x / 64 && Glyph(a)[1] == 0x80 + x % 64;
      assert Glyph(b)[0] == 0xC0 + y / 64 && Glyph(b)[1] == 0x80 + y % 64;
      assert x == y;
      CodePointInjective(a, b);
    }
  }

  lemma {:induction false} GlyphsAppend(xs: Text, ys: Text)
    ensures Glyphs(xs + ys) == Glyphs(xs) + Glyphs(ys)
  {
    if xs == [] {
      assert xs + ys == ys;
    } else {
      assert (xs + ys)[1..] == xs[1..] + ys;
      GlyphsAppend(xs[1..], ys);
    }
  }

  lemma {:induction false} GlyphsFlattenTokens(bytes: Text)
    ensures Flatten(GlyphTokens(bytes)) == Glyphs(bytes)
  {
    if bytes != [] {
      assert GlyphTokens(bytes)[1..] == GlyphTokens(bytes[1..]);
      GlyphsFlattenTokens(bytes[1..]);
    }
  }

  // ---------- decoding undoes the alphabet ----------

  lemma UnglyphStep(toByte: map<Text, byte>, b: byte, rest: Text)
    requires InvertsGlyphs(toByte)
    ensures Unglyph(toByte, Glyph(b) + rest) == [b] + Unglyph(toByte, rest)
  {
    GlyphShape(b);
    var t := Glyph(b) + rest;
    assert Piece(t) == Glyph(b);
    assert t[|Glyph(b)|..] == rest;
  }

  /** A whole UTF-8 piece of one to four bytes that is no glyph is kept as it is. */
  lemma ForeignPieceKept(toByte: map<Text, byte>, piece: Text, rest: Text)
    requires InvertsGlyphs(toByte) && piece != [] && (forall b: byte :: Glyph(b) != piece)
    requires |piece| == if piece[0] < 0xC0 || piece[0] >= 0xF8 then 1
                        else if piece[0] < 0xE0 then 2 else if piece[0] < 0xF0 then 3 else 4
    ensures Unglyph(toByte, piece + rest) == piece + Unglyph(toByte, rest)
  {
    var t := piece + rest;
    assert t[0] == piece[0];
    assert Piece(t) == piece;
    assert t[|piece|..] == rest;
  }

  lemma {:induction false} UnglyphGlyphs(toByte: map<Text, byte>, bytes: Text)
    requires InvertsGlyphs(toByte)
    ensures Unglyph(toByte, Glyphs(bytes)) == bytes
  {
    if bytes != [] {
      UnglyphGlyphs(toByte, bytes[1..]);
      UnglyphStep(toByte, bytes[0], Glyphs(bytes[1..]));
    }
  }

  function UnglyphAll(toByte: map<Text, byte>, tokens: seq<Text>): (bytes: Text) {
    if tokens == [] then [] else Unglyph(toByte, tokens[0]) + UnglyphAll(toByte, tokens[1..])
  }

  lemma {:induction false} UnglyphAllAppend(toByte: map<Text, byte>, xs: seq<Text>, ys: seq<Text>)
    ensures UnglyphAll(toByte, xs + ys) == UnglyphAll(toByte, xs) + UnglyphAll(toByte, ys)
  {
    if xs == [] {
      assert xs + ys == ys;
    } else {
      assert (xs + ys)[1..] == xs[1..] + ys;
      UnglyphAllAppend(toByte, xs[1..], ys);
    }
  }

  /** Some piece on the decoder's walk through `t` is a two-byte glyph. */
  predicate HasGlyphPair(t: Text) {
    t != [] &&
    (var p := Piece(t);
     (|p| == 2 && exists b: byte :: Glyph(b) == p) || HasGlyphPair(t[|p|..]))
  }

  lemma {:induction false} UnglyphLength(toByte: map<Text, byte>, t: Text)
    requires InvertsGlyphs(toByte)
    ensures |Unglyph(toByte, t)| <= |t|
    ensures HasGlyphPair(t) ==> |Unglyph(toByte, t)| < |t|
  {
    if t != [] {
      UnglyphLength(toByte, t[|Piece(t)|..]);
    }
  }

  /** The character "é" is the glyph of one byte, so a token with it decodes to something else. */
  lemma AccentIsLost(toByte: map<Text, byte>)
    requires InvertsGlyphs(toByte)
    ensures HasGlyphPair([0xC3, 0xA9])
    ensures Unglyph(toByte, [0xC3, 0xA9]) == [0xE9]
  {
    var e: byte := 0xE9;
    assert Shifted(e) == 68 && Glyph(e) == [0xC3, 0xA9];
    assert Piece([0xC3, 0xA9]) == [0xC3, 0xA9];
    UnglyphStep(toByte, e, []);
    NothingMore(Glyph(e));
  }

  /**
   A token that is not made of glyphs (a special token) decodes to itself exactly when
   the walk meets no two-byte glyph. ASCII tokens never do; "é" does.
   */
  lemma {:induction false} UnglyphIdentity(toByte: map<Text, byte>, t: Text)
    requires InvertsGlyphs(toByte)
    ensures Unglyph(toByte, t) == t <==> !HasGlyphPair(t)
  {
    if t != [] {
      var p := Piece(t);
      UnglyphLength(toByte, t);
      UnglyphIdentity(toByte, t[|p|..]);
      if !HasGlyphPair(t) {
        if p in toByte {
          GlyphShape(toByte[p]);
        }
        assert t == p + t[|p|..];
      }
    }
  }

  lemma {:induction false} AsciiHasNoGlyphPair(t: Text)
    requires forall i :: 0 <= i < |t| ==> t[i] < 0x80
    ensures !HasGlyphPair(t)
  {
    if t != [] {
      assert |Piece(t)| == 1;
      AsciiHasNoGlyphPair(t[1..]);
    }
  }
}

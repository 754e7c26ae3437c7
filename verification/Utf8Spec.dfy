/** UTF-8 and UTF-16 as RFC 3629 and RFC 2781 define them: the reference the
    transcoders of `Transcode` are proved against. Nothing here follows the
    table-driven code; it follows the grammar of section 4 of RFC 3629 and
    sections 2.1 and 2.2 of RFC 2781. */
module Utf8Spec {
  type Byte = bv8
  type Unit = bv16
  type Code = bv32

  /** A Unicode scalar value: at most 0x10FFFF and no surrogate. */
  predicate Scalar(u: Code) {
    u <= 0xD7FF || (0xE000 <= u && u <= 0x10FFFF)
  }

  predicate Scalars(cs: seq<Code>) {
    forall i | 0 <= i < |cs| :: Scalar(cs[i])
  }

  // ---- UTF-8, section 4 of RFC 3629 ----

  predicate Tail(b: Byte) { 0x80 <= b && b <= 0xBF }

  predicate Is2(a: Byte, b: Byte) { 0xC2 <= a && a <= 0xDF && Tail(b) }

  predicate Is3(a: Byte, b: Byte, c: Byte) {
    && Tail(c)
    && ( || (a == 0xE0 && 0xA0 <= b && b <= 0xBF)
         || (0xE1 <= a && a <= 0xEC && Tail(b))
         || (a == 0xED && 0x80 <= b && b <= 0x9F)
         || (0xEE <= a && a <= 0xEF && Tail(b)))
  }

  predicate Is4(a: Byte, b: Byte, c: Byte, d: Byte) {
    && Tail(c) && Tail(d)
    && ( || (a == 0xF0 && 0x90 <= b && b <= 0xBF)
         || (0xF1 <= a && a <= 0xF3 && Tail(b))
         || (a == 0xF4 && 0x80 <= b && b <= 0x8F))
  }

  /** One character of the UTF8-char production. */
  predicate Char8(t: seq<Byte>) {
    if |t| == 1 then t[0] <= 0x7F
    else if |t| == 2 then Is2(t[0], t[1])
    else if |t| == 3 then Is3(t[0], t[1], t[2])
    else if |t| == 4 then Is4(t[0], t[1], t[2], t[3])
    else false
  }

  function Low(b: Byte, mask: Byte): (r: Code) { (b & mask) as Code }

  function Val2(a: Byte, b: Byte): (r: Code) { (Low(a, 0x1F) << 6) | Low(b, 0x3F) }

  function Val3(a: Byte, b: Byte, c: Byte): (r: Code) {
    (Low(a, 0x0F) << 12) | (Low(b, 0x3F) << 6) | Low(c, 0x3F)
  }

  function Val4(a: Byte, b: Byte, c: Byte, d: Byte): (r: Code) {
    (Low(a, 0x07) << 18) | (Low(b, 0x3F) << 12) | (Low(c, 0x3F) << 6) | Low(d, 0x3F)
  }

  /** The code point of one character. */
  function Val8(t: seq<Byte>): (r: Code)
    requires Char8(t)
  {
    if |t| == 1 then t[0] as Code
    else if |t| == 2 then Val2(t[0], t[1])
    else if |t| == 3 then Val3(t[0], t[1], t[2])
    else Val4(t[0], t[1], t[2], t[3])
  }

  function Lead(u: Code, sh: bv5, mark: Code): (r: Byte)
  {
    ((mark | (u >> sh)) & 0xFF) as Byte
  }

  function Cont(u: Code, sh: bv5): (r: Byte)
  {
    (0x80 | ((u >> sh) & 0x3F)) as Byte
  }

  /** The encoding of one code point, by the bit-distribution table of section 3 of RFC 3629. */
  function Enc8(u: Code): (t: seq<Byte>)
    ensures 1 <= |t| <= 4
  {
    if u <= 0x7F then [Lead(u, 0, 0)]
    else if u <= 0x7FF then [Lead(u, 6, 0xC0), Cont(u, 0)]
    else if u <= 0xFFFF then [Lead(u, 12, 0xE0), Cont(u, 6), Cont(u, 0)]
    else [Lead(u, 18, 0xF0), Cont(u, 12), Cont(u, 6), Cont(u, 0)]
  }

  // The bit-level facts behind the two inverse laws, one character length each.

  lemma Join2(a: Byte, b: Byte)
    requires Is2(a, b)
    ensures 0x80 <= Val2(a, b) && Val2(a, b) <= 0x7FF
    ensures Lead(Val2(a, b), 6, 0xC0) == a && Cont(Val2(a, b), 0) == b
  {
  }

  lemma Join3(a: Byte, b: Byte, c: Byte)
    requires Is3(a, b, c)
    ensures 0x800 <= Val3(a, b, c) && Val3(a, b, c) <= 0xFFFF && Scalar(Val3(a, b, c))
    ensures Lead(Val3(a, b, c), 12, 0xE0) == a
    ensures Cont(Val3(a, b, c), 6) == b && Cont(Val3(a, b, c), 0) == c
  {
  }

  lemma Join4(a: Byte, b: Byte, c: Byte, d: Byte)
    requires Is4(a, b, c, d)
    ensures 0x10000 <= Val4(a, b, c, d) && Val4(a, b, c, d) <= 0x10FFFF
    ensures Lead(Val4(a, b, c, d), 18, 0xF0) == a && Cont(Val4(a, b, c, d), 12) == b
    ensures Cont(Val4(a, b, c, d), 6) == c && Cont(Val4(a, b, c, d), 0) == d
  {
  }

  lemma LowCont(u: Code, sh: bv5)
    ensures Low(Cont(u, sh), 0x3F) == (u >> sh) & 0x3F && Tail(Cont(u, sh))
  {
  }

  lemma Chunks3(u: Code)
    requires u <= 0xFFFF
    ensures ((u >> 12) << 12) | (((u >> 6) & 0x3F) << 6) | (u & 0x3F) == u
  {
  }

  lemma Chunks4(u: Code)
    requires u <= 0x1FFFFF
    ensures ((u >> 18) << 18) | (((u >> 12) & 0x3F) << 12) | (((u >> 6) & 0x3F) << 6) | (u & 0x3F) == u
  {
  }

  lemma Grammar3(u: Code)
    requires 0x800 <= u && u <= 0xFFFF && Scalar(u)
    ensures Is3(Lead(u, 12, 0xE0), Cont(u, 6), Cont(u, 0))
    ensures Low(Lead(u, 12, 0xE0), 0x0F) == u >> 12
  {
  }

  lemma Grammar4(u: Code)
    requires 0x10000 <= u && u <= 0x10FFFF
    ensures Is4(Lead(u, 18, 0xF0), Cont(u, 12), Cont(u, 6), Cont(u, 0))
    ensures Low(Lead(u, 18, 0xF0), 0x07) == u >> 18
  {
  }

  lemma Split2(u: Code)
    requires 0x80 <= u && u <= 0x7FF
    ensures Is2(Lead(u, 6, 0xC0), Cont(u, 0)) && Val2(Lead(u, 6, 0xC0), Cont(u, 0)) == u
  {
  }

  lemma Split3(u: Code)
    requires 0x800 <= u && u <= 0xFFFF && Scalar(u)
    ensures Is3(Lead(u, 12, 0xE0), Cont(u, 6), Cont(u, 0))
    ensures Val3(Lead(u, 12, 0xE0), Cont(u, 6), Cont(u, 0)) == u
  {
    Grammar3(u); Chunks3(u);
    LowCont(u, 6); LowCont(u, 0);
  }

  lemma Split4(u: Code)
    requires 0x10000 <= u && u <= 0x10FFFF
    ensures Is4(Lead(u, 18, 0xF0), Cont(u, 12), Cont(u, 6), Cont(u, 0))
    ensures Val4(Lead(u, 18, 0xF0), Cont(u, 12), Cont(u, 6), Cont(u, 0)) == u
  {
    Grammar4(u); Chunks4(u);
    LowCont(u, 12); LowCont(u, 6); LowCont(u, 0);
  }

  /** Decoding then encoding one character gives it back. */
  lemma EncodeDecode(t: seq<Byte>)
    requires Char8(t)
    ensures Scalar(Val8(t)) && Enc8(Val8(t)) == t
  {
    if |t| == 2 { Join2(t[0], t[1]); }
    if |t| == 3 { Join3(t[0], t[1], t[2]); }
    if |t| == 4 { Join4(t[0], t[1], t[2], t[3]); }
  }

  /** Encoding then decoding one scalar value gives it back. */
  lemma DecodeEncode(u: Code)
    requires Scalar(u)
    ensures Char8(Enc8(u)) && Val8(Enc8(u)) == u
  {
    if 0x80 <= u && u <= 0x7FF { Split2(u); }
    if 0x800 <= u && u <= 0xFFFF { Split3(u); }
    if 0x10000 <= u { Split4(u); }
  }

  // ---- whole strings ----

  function EncAll8(cs: seq<Code>): (r: seq<Byte>) {
    if cs == [] then [] else Enc8(cs[0]) + EncAll8(cs[1..])
  }

  /** The length of the character `a` starts with, or 0 when it starts with none. */
  function CharLen(a: seq<Byte>): (k: nat)
    ensures k <= 4 && k <= |a| && (k > 0 ==> Char8(a[..k]))
  {
    if |a| >= 1 && Char8(a[..1]) then 1
    else if |a| >= 2 && Char8(a[..2]) then 2
    else if |a| >= 3 && Char8(a[..3]) then 3
    else if |a| >= 4 && Char8(a[..4]) then 4
    else 0
  }

  /** The longest run of whole characters at the front, and whether it is everything. */
  datatype Parsed = Parsed(chars: seq<Code>, whole: bool)

  function Parse8(t: seq<Byte>): (r: Parsed)
    decreases |t|
  {
    if t == [] then Parsed([], true)
    else if CharLen(t) == 0 then Parsed([], false)
    else
      var rest := Parse8(t[CharLen(t)..]);
      Parsed([Val8(t[..CharLen(t)])] + rest.chars, rest.whole)
  }

  /** What precedes the first zero element. */
  function BeforeNul8(s: seq<Byte>): (t: seq<Byte>)
    ensures t <= s && 0 !in t
    ensures |t| < |s| ==> s[|t|] == 0
  {
    if s == [] || s[0] == 0 then [] else [s[0]] + BeforeNul8(s[1..])
  }

  /** The grammar is prefix-free, so the first character of a string is unambiguous. */
  lemma CharLenUnique(t: seq<Byte>, rest: seq<Byte>)
    requires Char8(t)
    ensures CharLen(t + rest) == |t|
  {
    var a := t + rest;
    assert a[..|t|] == t;
    assert a[0] == t[0];
  }

  /** `Parse8` succeeds on exactly the well-formed strings, and inverts the encoder. */
  lemma {:induction false} ParseEncoded(cs: seq<Code>)
    requires Scalars(cs)
    ensures Parse8(EncAll8(cs)) == Parsed(cs, true)
  {
    if cs != [] {
      var t, rest := Enc8(cs[0]), EncAll8(cs[1..]);
      DecodeEncode(cs[0]);
      CharLenUnique(t, rest);
      assert (t + rest)[..|t|] == t && (t + rest)[|t|..] == rest;
      ParseEncoded(cs[1..]);
      assert cs == [cs[0]] + cs[1..];
    }
  }

  lemma EncAllCons(u: Code, cs: seq<Code>)
    ensures EncAll8([u] + cs) == Enc8(u) + EncAll8(cs)
  {
    assert ([u] + cs)[1..] == cs;
  }

  lemma CancelFront(c: seq<Byte>, e: seq<Byte>, r: seq<Byte>)
    requires e <= r
    ensures c + e <= c + r && (c + e == c + r <==> e == r)
  {
    if c + e == c + r { assert (c + e)[|c|..] == e && (c + r)[|c|..] == r; }
  }

  lemma ParseStep(c: seq<Byte>, r: seq<Byte>)
    requires Char8(c)
    ensures Parse8(c + r) == Parsed([Val8(c)] + Parse8(r).chars, Parse8(r).whole)
  {
    CharLenUnique(c, r);
    assert (c + r)[..|c|] == c && (c + r)[|c|..] == r;
  }

  /** A decomposition of what `Parse8` sees: nothing left, nothing recognised, or a character and the rest. */
  lemma FrontChar(t: seq<Byte>) returns (c: seq<Byte>, r: seq<Byte>)
    ensures t == c + r
    ensures c == [] ==> Parse8(t) == Parsed([], t == [])
    ensures c != [] ==> Char8(c)
  {
    if t == [] || CharLen(t) == 0 { return [], t; }
    c, r := t[..CharLen(t)], t[CharLen(t)..];
  }

  /** What `Parse8` returns encodes to a prefix of its input, to all of it exactly on success. */
  lemma {:induction false} EncodeParsed(t: seq<Byte>)
    ensures Scalars(Parse8(t).chars) && EncAll8(Parse8(t).chars) <= t
    ensures Parse8(t).whole <==> EncAll8(Parse8(t).chars) == t
    decreases |t|
  {
    var c, r := FrontChar(t);
    if c != [] {
      ParseStep(c, r);
      EncodeDecode(c);
      EncodeParsed(r);
      EncAllCons(Val8(c), Parse8(r).chars);
      CancelFront(c, EncAll8(Parse8(r).chars), r);
    }
  }

  // ---- UTF-16, sections 2.1 and 2.2 of RFC 2781 ----

  predicate High(w: Unit) { 0xD800 <= w && w <= 0xDBFF }

  predicate LowSur(w: Unit) { 0xDC00 <= w && w <= 0xDFFF }

  function Enc16(u: Code): (t: seq<Unit>)
    ensures 1 <= |t| <= 2
  {
    if u < 0x10000 then [(u & 0xFFFF) as Unit]
    else [HighOf(u), LowOf(u)]
  }

  function HighOf(u: Code): (r: Unit) { (0xD800 | (((u - 0x10000) >> 10) & 0x3FF)) as Unit }

  function LowOf(u: Code): (r: Unit) { (0xDC00 | ((u - 0x10000) & 0x3FF)) as Unit }

  function Pair(h: Unit, l: Unit): (r: Code) {
    0x10000 + ((((h & 0x3FF) as Code) << 10) + ((l & 0x3FF) as Code))
  }

  function EncAll16(cs: seq<Code>): (r: seq<Unit>) {
    if cs == [] then [] else Enc16(cs[0]) + EncAll16(cs[1..])
  }

  /** The scalar values of a UTF-16 string up to its first NUL. A surrogate that is not
      half of a pair stands for no scalar value and is passed over. */
  function Scalars16(w: seq<Unit>): (r: seq<Code>)
    decreases |w|
  {
    if w == [] || w[0] == 0 then []
    else if High(w[0]) && |w| >= 2 && LowSur(w[1]) then [Pair(w[0], w[1])] + Scalars16(w[2..])
    else if High(w[0]) || LowSur(w[0]) then Scalars16(w[1..])
    else [w[0] as Code] + Scalars16(w[1..])
  }

  lemma PairSplit(u: Code)
    requires 0x10000 <= u && u <= 0x10FFFF
    ensures High(HighOf(u)) && LowSur(LowOf(u)) && Pair(HighOf(u), LowOf(u)) == u
  {
  }

  lemma PairJoin(h: Unit, l: Unit)
    requires High(h) && LowSur(l)
    ensures 0x10000 <= Pair(h, l) && Pair(h, l) <= 0x10FFFF
    ensures HighOf(Pair(h, l)) == h && LowOf(Pair(h, l)) == l
  {
  }

  lemma SingleUnit(u: Code)
    requires Scalar(u) && u < 0x10000 && u != 0
    ensures var w := (u & 0xFFFF) as Unit; w != 0 && !High(w) && !LowSur(w) && w as Code == u
  {
  }

  lemma SingleScalar(w: Unit)
    requires !High(w) && !LowSur(w)
    ensures Scalar(w as Code) && w as Code < 0x10000 && ((w as Code) & 0xFFFF) as Unit == w
  {
  }

  /** Everything decoded from UTF-16 is a scalar value, and none is NUL. */
  lemma {:induction false} ScalarsOf16(w: seq<Unit>)
    ensures Scalars(Scalars16(w)) && 0 !in Scalars16(w)
    decreases |w|
  {
    if w != [] && w[0] != 0 {
      if High(w[0]) && |w| >= 2 && LowSur(w[1]) {
        PairJoin(w[0], w[1]);
        ScalarsOf16(w[2..]);
      } else {
        if !High(w[0]) && !LowSur(w[0]) { SingleScalar(w[0]); }
        ScalarsOf16(w[1..]);
      }
    }
  }

  lemma FirstScalar(u: Code, rest: seq<Unit>)
    requires Scalar(u) && u != 0
    ensures Scalars16(Enc16(u) + rest) == [u] + Scalars16(rest)
  {
    var w := Enc16(u) + rest;
    if u < 0x10000 {
      SingleUnit(u);
      assert w[1..] == rest;
    } else {
      PairSplit(u);
      assert w[2..] == rest && w[0] != 0;
    }
  }

  /** Decoding the UTF-16 form of a NUL-free text gives the text back. */
  lemma {:induction false} DecodeEncoded16(cs: seq<Code>)
    requires Scalars(cs) && 0 !in cs
    ensures Scalars16(EncAll16(cs)) == cs
  {
    if cs != [] {
      DecodeEncoded16(cs[1..]);
      FirstScalar(cs[0], EncAll16(cs[1..]));
    }
  }
}

/** The table-driven transcoders of common/usb_common.c, proved against `Utf8Spec`. */
module Transcode {
  import opened Utf8Spec

  const EINVAL := 522

  const UNICODE_MAX: Code := 0x0010FFFF
  const PLANE_SIZE: Code := 0x00010000
  const SURROGATE_MASK: Code := 0xFFFFF800
  const SURROGATE_PAIR: Code := 0x0000D800
  const SURROGATE_LOW: Code := 0x00000400
  const SURROGATE_BITS: Code := 0x000003FF

  datatype Row = Row(cmask: Code, cval: Code, shift: bv5, lmask: Code, lval: Code)

  const ROWS := 6

  /** The conversion table: one row for each sequence length from 1 to 6. */
  function Table(i: nat): (r: Row)
    requires i < ROWS
  {
    if i == 0 then Row(0x80, 0x00, 0, 0x7F, 0)
    else if i == 1 then Row(0xE0, 0xC0, 6, 0x7FF, 0x80)
    else if i == 2 then Row(0xF0, 0xE0, 12, 0xFFFF, 0x800)
    else if i == 3 then Row(0xF8, 0xF0, 18, 0x1FFFFF, 0x10000)
    else if i == 4 then Row(0xFC, 0xF8, 24, 0x3FFFFFF, 0x200000)
    else Row(0xFE, 0xFC, 30, 0x7FFFFFFF, 0x4000000)
  }

  predicate Illegal(l: Code) {
    l > UNICODE_MAX || (l & SURROGATE_MASK) == SURROGATE_PAIR
  }

  lemma IllegalIsNoScalar(l: Code)
    ensures Illegal(l) <==> !Scalar(l)
  {
  }

  // ---- decoding one character ----

  /** The bytes a decoder told it may use `len` bytes from position `p` can look at. */
  function Window(s: seq<Byte>, p: nat, len: int): (r: seq<Byte>)
    requires p <= |s| && len >= 0
  {
    if p + len <= |s| then s[p..p + len] else s[p..]
  }

  /** What the C code needs of its input pointer: the byte after the `len` is readable,
      or a NUL comes first. */
  predicate Readable(s: seq<Byte>, p: nat, len: int) {
    p < |s| && (p + len < |s| || s[|s| - 1] == 0)
  }

  /** `l = (l << 6) | c`, with `c` the byte whose continuation bit was flipped. */
  function Push(l: Code, b: Byte): (r: Code) { (l << 6) | ((b ^ 0x80) as Code) }

  /** The accumulator after `i` continuation bytes. */
  function Acc(a: seq<Byte>, i: nat): (r: Code)
    requires i < |a|
  {
    if i == 0 then a[0] as Code else Push(Acc(a, i - 1), a[i])
  }

  predicate Tails(a: seq<Byte>, i: nat)
    requires i < |a|
  {
    forall j | 1 <= j <= i :: Tail(a[j])
  }

  /** `(c0 & t->cmask) == t->cval` */
  predicate Matches(c0: Byte, i: nat)
    requires i < ROWS
  {
    (c0 as Code) & Table(i).cmask == Table(i).cval
  }

  /** `c & 0xC0`, the test that a byte continues a character. */
  predicate Continues(b: Byte) {
    (b ^ 0x80) & 0xC0 == 0
  }

  /** The accumulator cut down to the row's value bits. */
  function Cut(l: Code, i: nat): (r: Code)
    requires i < ROWS
  {
    l & Table(i).lmask
  }

  /** The row's range test: overlong, above 0x10FFFF, or a surrogate. */
  predicate Rejected(l: Code, i: nat)
    requires i < ROWS
  {
    l < Table(i).lval || Illegal(l)
  }

  lemma ContinuationTest(b: Byte)
    ensures Continues(b) <==> Tail(b)
  {
  }

  // What a matching row means, one row at a time, in bit-vector arithmetic only.

  lemma Row0(a: Byte)
    requires Matches(a, 0)
    ensures a <= 0x7F && Cut(a as Code, 0) == a as Code && !Rejected(a as Code, 0)
  {
  }

  lemma Row1(a: Byte, b: Byte)
    requires Matches(a, 1) && Tail(b)
    ensures var l := Cut(Push(a as Code, b), 1); (Rejected(l, 1) <==> !Is2(a, b)) && l == Val2(a, b)
  {
  }

  lemma Row2(a: Byte, b: Byte, c: Byte)
    requires Matches(a, 2) && Tail(b) && Tail(c)
    ensures var l := Cut(Push(Push(a as Code, b), c), 2); (Rejected(l, 2) <==> !Is3(a, b, c)) && l == Val3(a, b, c)
  {
  }

  lemma Row3(a: Byte, b: Byte, c: Byte, d: Byte)
    requires Matches(a, 3) && Tail(b) && Tail(c) && Tail(d)
    ensures var l := Cut(Push(Push(Push(a as Code, b), c), d), 3);
      (Rejected(l, 3) <==> !Is4(a, b, c, d)) && l == Val4(a, b, c, d)
  {
  }

  lemma LongRows(l: Code)
    ensures Rejected(l, 4) && Rejected(l, 5)
  {
  }

  lemma LeadBytes(a: Byte)
    ensures Matches(a, 0) <==> a <= 0x7F
    ensures Matches(a, 1) <==> 0xC0 <= a && a <= 0xDF
    ensures Matches(a, 2) <==> 0xE0 <= a && a <= 0xEF
    ensures Matches(a, 3) <==> 0xF0 <= a && a <= 0xF7
    ensures Matches(a, 4) || Matches(a, 5) ==> 0xF8 <= a
  {
  }

  lemma LeadRange(t: seq<Byte>)
    requires Char8(t)
    ensures |t| == 1 ==> t[0] <= 0x7F
    ensures |t| == 2 ==> 0xC0 <= t[0] && t[0] <= 0xDF
    ensures |t| == 3 ==> 0xE0 <= t[0] && t[0] <= 0xEF
    ensures |t| == 4 ==> 0xF0 <= t[0] && t[0] <= 0xF7
    ensures forall j | 1 <= j < |t| :: Tail(t[j])
  {
  }

  lemma OneRow(a: Byte, k: nat, i: nat)
    requires k < 4 && i < ROWS && Matches(a, i)
    requires k == 0 ==> a <= 0x7F
    requires k == 1 ==> 0xC0 <= a && a <= 0xDF
    requires k == 2 ==> 0xE0 <= a && a <= 0xEF
    requires k == 3 ==> 0xF0 <= a && a <= 0xF7
    ensures i == k
  {
    hide Matches;
    LeadBytes(a);
  }

  /** The first byte of a character fixes the row that will match. */
  lemma LeadFixesRow(a: seq<Byte>, k: nat)
    requires 1 <= k <= 4 && k <= |a| && Char8(a[..k])
    ensures Matches(a[0], k - 1) && Tails(a, k - 1)
    ensures forall i: nat | i < ROWS && Matches(a[0], i) :: i == k - 1
  {
    hide Matches, Char8;
    LeadRange(a[..k]);
    LeadBytes(a[0]);
    forall i: nat | i < ROWS && Matches(a[0], i) ensures i == k - 1 { OneRow(a[0], k - 1, i); }
    forall j | 1 <= j <= k - 1 ensures Tail(a[j]) { assert a[..k][j] == a[j]; }
  }

  lemma NoChar(a: seq<Byte>)
    requires forall k | 1 <= k <= 4 && k <= |a| :: !Char8(a[..k])
    ensures CharLen(a) == 0
  {
    hide Char8;
  }

  lemma IsChar(a: seq<Byte>, k: nat)
    requires 1 <= k <= 4 && k <= |a| && Char8(a[..k])
    ensures CharLen(a) == k
  {
    hide Char8, CharLen;
    CharLenUnique(a[..k], a[k..]);
    assert a == a[..k] + a[k..];
  }

  predicate RowIsRight(a: seq<Byte>, i: nat)
    requires i < ROWS && i < |a|
  {
    && (Rejected(Cut(Acc(a, i), i), i) <==> !(i < 4 && Char8(a[..i + 1])))
    && (i < 4 && Char8(a[..i + 1]) ==> Cut(Acc(a, i), i) == Val8(a[..i + 1]))
  }

  lemma RowTest0(a: seq<Byte>)
    requires |a| > 0 && Matches(a[0], 0)
    ensures RowIsRight(a, 0)
  {
    hide Matches, Cut, Rejected;
    Row0(a[0]);
  }

  lemma RowTest1(a: seq<Byte>)
    requires |a| > 1 && Tails(a, 1) && Matches(a[0], 1)
    ensures RowIsRight(a, 1)
  {
    hide Matches, Tail, Cut, Rejected, Push, Is2, Val2;
    assert Acc(a, 1) == Push(Acc(a, 0), a[1]);
    Row1(a[0], a[1]);
  }

  lemma RowTest2(a: seq<Byte>)
    requires |a| > 2 && Tails(a, 2) && Matches(a[0], 2)
    ensures RowIsRight(a, 2)
  {
    hide Matches, Tail, Cut, Rejected, Push, Is3, Val3;
    Acc2(a);
    Row2(a[0], a[1], a[2]);
  }

  lemma RowTest3(a: seq<Byte>)
    requires |a| > 3 && Tails(a, 3) && Matches(a[0], 3)
    ensures RowIsRight(a, 3)
  {
    hide Matches, Tail, Cut, Rejected, Push, Is4, Val4;
    Acc2(a);
    assert Acc(a, 3) == Push(Acc(a, 2), a[3]);
    Row3(a[0], a[1], a[2], a[3]);
  }

  lemma RowTest(a: seq<Byte>, i: nat)
    requires i < ROWS && i < |a| && Tails(a, i) && Matches(a[0], i)
    ensures RowIsRight(a, i)
  {
    hide Matches, Tail, Cut, Rejected, Push, Acc, Char8, Val8;
    if i == 0 { RowTest0(a); }
    else if i == 1 { RowTest1(a); }
    else if i == 2 { RowTest2(a); }
    else if i == 3 { RowTest3(a); }
    else { LongRows(Cut(Acc(a, i), i)); }
  }

  lemma Acc2(a: seq<Byte>)
    requires |a| > 2
    ensures Acc(a, 2) == Push(Push(a[0] as Code, a[1]), a[2])
  {
    hide Push;
    assert Acc(a, 1) == Push(Acc(a, 0), a[1]);
  }

  /** When row `i` matches after `i` good continuation bytes, the range tests on the
      accumulator decide exactly whether `a` starts with a character, and which one. */
  lemma RowDecides(a: seq<Byte>, i: nat)
    requires i < ROWS && i < |a| && Tails(a, i) && Matches(a[0], i)
    ensures var l := Cut(Acc(a, i), i);
      if Rejected(l, i) then CharLen(a) == 0
      else CharLen(a) == i + 1 && i < 4 && l == Val8(a[..i + 1])
  {
    hide Matches, Tails, Cut, Rejected, Acc, Char8, Val8, CharLen;
    RowTest(a, i);
    if Rejected(Cut(Acc(a, i), i), i) {
      forall k | 1 <= k <= 4 && k <= |a|
        ensures !Char8(a[..k])
      {
        if Char8(a[..k]) { LeadFixesRow(a, k); }
      }
      NoChar(a);
    } else {
      IsChar(a, i + 1);
    }
  }

  /** No row up to `i` matches, and the character cannot go on. */
  lemma Stuck(a: seq<Byte>, i: nat)
    requires i < ROWS && |a| > 0
    requires forall j: nat | j <= i :: !Matches(a[0], j)
    requires i + 1 < ROWS && i + 1 < |a| ==> !Tail(a[i + 1])
    ensures CharLen(a) == 0
  {
    hide Matches, Char8, CharLen, Tail;
    forall k | 1 <= k <= 4 && k <= |a|
      ensures !Char8(a[..k])
    {
      if Char8(a[..k]) {
        LeadFixesRow(a, k);
      }
    }
    NoChar(a);
  }

  /** `__utf8_to_utf32`: accepts exactly the characters of section 4 of RFC 3629. */
  method Utf8ToUtf32(s: seq<Byte>, p: nat, len: int) returns (nc: int, u: Code)
    requires len >= 1 && Readable(s, p, len)
    ensures var a := Window(s, p, len); var k := CharLen(a);
      && nc == (if k == 0 then -1 else k)
      && (k > 0 ==> u == Val8(a[..k]) && Scalar(u))
  {
    hide Matches, Cut, Rejected, Push, Continues, Char8, Val8, CharLen, Scalar, Enc8, Table;
    ghost var a := Window(s, p, len);
    u := 0;
    nc := 0;
    var q := p;
    var c0 := s[q];
    var l := c0 as Code;
    var t := 0;
    while t < ROWS
      invariant t <= ROWS && nc == t && t < |a|
      invariant q == p + t && Tails(a, t) && l == Acc(a, t)
      invariant forall j: nat | j < t :: !Matches(a[0], j)
    {
      nc := nc + 1;
      if Matches(c0, t) {
        RowDecides(a, t);
        l := Cut(l, t);
        if Rejected(l, t) {
          return -1, u;
        }
        EncodeDecode(a[..t + 1]);
        return nc, l;
      }
      if len <= nc {
        Stuck(a, t);
        return -1, u;
      }
      InsideWindow(s, p, len, t);
      q := q + 1;
      var c := s[q];
      ContinuationTest(c);
      if !Continues(c) {
        Stuck(a, t);
        return -1, u;
      }
      l := Push(l, c);
      t := t + 1;
    }
    Stuck(a, ROWS - 1);
    return -1, u;
  }

  /** A NUL never continues a character, so the decoder stops at a terminator. */
  lemma InsideWindow(s: seq<Byte>, p: nat, len: int, t: nat)
    requires len >= 1 && Readable(s, p, len) && t + 1 < len && t < ROWS
    requires t < |Window(s, p, len)| && Tails(Window(s, p, len), t) && !Matches(s[p], 0)
    ensures t + 1 < |Window(s, p, len)|
  {
    hide Matches;
    LeadBytes(s[p]);
    if t > 0 { assert Tail(Window(s, p, len)[t]); }
  }

  // ---- encoding one character ----

  function Sh(n: nat): (r: bv5) { if n == 0 then 0 else if n == 1 then 6 else if n == 2 then 12 else 18 }

  /** `t->cval | (l >> c)` */
  function First(l: Code, i: nat): (r: Byte)
    requires i < ROWS
  {
    ((Table(i).cval | (l >> Table(i).shift)) & 0xFF) as Byte
  }

  predicate FitsRow(l: Code, i: nat)
    requires i < ROWS
  {
    l <= Table(i).lmask
  }

  lemma RowLimits(l: Code)
    ensures FitsRow(l, 0) <==> l <= 0x7F
    ensures FitsRow(l, 1) <==> l <= 0x7FF
    ensures FitsRow(l, 2) <==> l <= 0xFFFF
    ensures FitsRow(l, 3) <==> l <= 0x1FFFFF
    ensures Scalar(l) ==> FitsRow(l, 3)
  {
  }

  lemma FirstIsLead(l: Code)
    ensures First(l, 0) == Lead(l, 0, 0) && First(l, 1) == Lead(l, 6, 0xC0)
    ensures First(l, 2) == Lead(l, 12, 0xE0) && First(l, 3) == Lead(l, 18, 0xF0)
  {
  }

  /** The first row a scalar value fits is the row of its encoding. */
  lemma RowOfEncoding(l: Code, i: nat)
    requires Scalar(l) && i < ROWS && FitsRow(l, i) && forall j: nat | j < i :: !FitsRow(l, j)
    ensures i < 4 && |Enc8(l)| == i + 1 && Enc8(l)[0] == First(l, i) && Table(i).shift == Sh(i)
    ensures forall j | 1 <= j <= i :: Enc8(l)[j] == Cont(l, Sh(i - j))
  {
    hide Scalar, FitsRow, First, Lead, Cont;
    RowLimits(l);
    FirstIsLead(l);
    assert i <= 3;
    if i > 2 { assert !FitsRow(l, 2); }
    if i > 1 { assert !FitsRow(l, 1); }
    if i > 0 { assert !FitsRow(l, 0); }
  }

  lemma SmallFits(l: Code, i: nat)
    requires Scalar(l) && i < ROWS && |Enc8(l)| == i + 1
    ensures FitsRow(l, i)
  {
  }

  /** `__utf32s_to_utf8s`: writes the encoding of a scalar value when it fits, and
      otherwise reports -1 and writes nothing. */
  method Utf32ToUtf8(u: Code, out: array<Byte>, off: nat, maxout: nat) returns (nc: int)
    requires off + maxout <= out.Length
    modifies out
    ensures nc == if Scalar(u) && |Enc8(u)| <= maxout then |Enc8(u)| else -1
    ensures nc > 0 ==> out[..] == old(out[..off]) + Enc8(u) + old(out[off + nc..])
    ensures nc == -1 ==> out[..] == old(out[..])
  {
    hide Scalar, Illegal, Enc8, First, Cont, FitsRow, Table, Sh;
    IllegalIsNoScalar(u);
    if Illegal(u) {
      return -1;
    }
    nc := 0;
    var t, left := 0, maxout;
    while t < ROWS && left != 0
      invariant t <= ROWS && nc == t && left + t == maxout && 0 <= left
      invariant forall j: nat | j < t :: !FitsRow(u, j)
      invariant out[..] == old(out[..])
    {
      nc := nc + 1;
      if FitsRow(u, t) {
        RowOfEncoding(u, t);
        var c, q := Table(t).shift, off;
        out[q] := First(u, t);
        while c > 0
          invariant off <= q < off + nc && c == Sh(nc - 1 - (q - off))
          invariant forall k | 0 <= k < out.Length ::
            out[k] == if off <= k <= q then Enc8(u)[k - off] else old(out[k])
          decreases off + nc - q
        {
          ShDown(nc - 1 - (q - off), c);
          c := c - 6;
          q := q + 1;
          out[q] := Cont(u, c);
        }
        ShZero(nc - 1 - (q - off));
        assert out[..] == old(out[..off]) + Enc8(u) + old(out[off + nc..]);
        return nc;
      }
      t, left := t + 1, left - 1;
    }
    if Scalar(u) && |Enc8(u)| <= maxout {
      SmallFits(u, |Enc8(u)| - 1);
    }
    return -1;
  }

  lemma ShDown(n: nat, c: bv5)
    requires n < 4 && c == Sh(n) && c > 0
    ensures n > 0 && c - 6 == Sh(n - 1)
  {
  }

  lemma ShZero(n: nat)
    requires n < 4 && !(Sh(n) > 0)
    ensures n == 0
  {
  }
}

/** `usb_utf16s_to_utf8s` and `usb_utf8s_to_utf16s`, and the laws that hold between them. */
module TranscodeStrings {
  import opened Utf8Spec
  import opened Transcode

  // ---- what the two functions compute ----

  /** The characters that still fit when each one too long for the space left is dropped. */
  function Greedy(cs: seq<Code>, room: nat): (r: seq<Code>) {
    if cs == [] then []
    else if |Enc8(cs[0])| <= room then [cs[0]] + Greedy(cs[1..], room - |Enc8(cs[0])|)
    else Greedy(cs[1..], room)
  }

  /** The UTF-8 text written for the UTF-16 units `w` into `room` bytes. */
  function ToUtf8(w: seq<Unit>, room: nat): (r: seq<Byte>) {
    EncAll8(Greedy(Scalars16(w), room))
  }

  /** The UTF-16 text for the bytes of `t` that precede a NUL; defined on well-formed UTF-8. */
  function ToUtf16(t: seq<Byte>): (w: seq<Unit>)
    requires Parse8(BeforeNul8(t)).whole
  {
    EncAll16(Parse8(BeforeNul8(t)).chars)
  }

  function BeforeNul16(w: seq<Unit>): (t: seq<Unit>)
    ensures t <= w && 0 !in t
    ensures |t| < |w| ==> w[|t|] == 0
  {
    if w == [] || w[0] == 0 then [] else [w[0]] + BeforeNul16(w[1..])
  }

  /** Surrogates occur in pairs only, high before low: section 2.1 of RFC 2781. */
  predicate WellFormed16(w: seq<Unit>)
    decreases |w|
  {
    || w == []
    || (High(w[0]) && |w| >= 2 && LowSur(w[1]) && WellFormed16(w[2..]))
    || (!High(w[0]) && !LowSur(w[0]) && WellFormed16(w[1..]))
  }

  /** `a` arises from `b` by leaving characters out. */
  predicate Subsequence(a: seq<Code>, b: seq<Code>)
    decreases |b|
  {
    || a == []
    || (b != [] && a[0] == b[0] && Subsequence(a[1..], b[1..]))
    || (b != [] && Subsequence(a, b[1..]))
  }

  // ---- laws ----

  lemma {:induction false} GreedyIsSubsequence(cs: seq<Code>, room: nat)
    ensures Subsequence(Greedy(cs, room), cs)
    ensures |EncAll8(Greedy(cs, room))| <= room
    ensures Scalars(cs) ==> Scalars(Greedy(cs, room))
  {
    hide Enc8;
    if cs != [] {
      var n := |Enc8(cs[0])|;
      if n <= room {
        GreedyIsSubsequence(cs[1..], room - n);
        EncAllCons(cs[0], Greedy(cs[1..], room - n));
        assert Greedy(cs, room)[1..] == Greedy(cs[1..], room - n);
      } else {
        GreedyIsSubsequence(cs[1..], room);
      }
    }
  }

  lemma {:induction false} GreedyTakesAll(cs: seq<Code>, room: nat)
    requires |EncAll8(cs)| <= room
    ensures Greedy(cs, room) == cs
  {
    hide Enc8;
    if cs != [] {
      GreedyTakesAll(cs[1..], room - |Enc8(cs[0])|);
    }
  }

  lemma {:induction false} GreedyShrinks(cs: seq<Code>, room: nat)
    ensures |EncAll8(Greedy(cs, room))| <= |EncAll8(cs)|
  {
    hide Enc8;
    if cs != [] {
      if |Enc8(cs[0])| <= room {
        GreedyShrinks(cs[1..], room - |Enc8(cs[0])|);
        EncAllCons(cs[0], Greedy(cs[1..], room - |Enc8(cs[0])|));
      } else {
        GreedyShrinks(cs[1..], room);
      }
    }
  }

  lemma UnitBytes(w: Unit)
    ensures |Enc8(w as Code)| <= 3
  {
  }

  /** What the first one or two units stand for: at most one character, of at most three
      bytes a unit. */
  lemma FirstChar(w: seq<Unit>) returns (n: nat, cs: seq<Code>)
    requires w != [] && w[0] != 0
    ensures 1 <= n <= |w| && Scalars16(w) == cs + Scalars16(w[n..])
    ensures cs == [] || (|cs| == 1 && |Enc8(cs[0])| <= 3 * n)
  {
    hide Enc8, Pair;
    if High(w[0]) && |w| >= 2 && LowSur(w[1]) {
      return 2, [Pair(w[0], w[1])];
    } else if High(w[0]) || LowSur(w[0]) {
      return 1, [];
    }
    UnitBytes(w[0]);
    return 1, [w[0] as Code];
  }

  /** A unit yields at most three bytes. */
  lemma {:induction false} ThreePerUnit(w: seq<Unit>)
    ensures |EncAll8(Scalars16(w))| <= 3 * |w|
    decreases |w|
  {
    hide Enc8;
    if w != [] && w[0] != 0 {
      var n, cs := FirstChar(w);
      ThreePerUnit(w[n..]);
      if cs == [] {
        assert [] + Scalars16(w[n..]) == Scalars16(w[n..]);
      } else {
        EncAllCons(cs[0], Scalars16(w[n..]));
        assert cs == [cs[0]];
      }
    }
  }

  lemma {:induction false} ScalarsStopAtNul(w: seq<Unit>)
    ensures Scalars16(w) == Scalars16(BeforeNul16(w))
    decreases |w|
  {
    hide Pair;
    var t := BeforeNul16(w);
    if w != [] && w[0] != 0 {
      assert t == [w[0]] + BeforeNul16(w[1..]);
      if High(w[0]) && |w| >= 2 && LowSur(w[1]) {
        NotNul(w[1]);
        ScalarsStopAtNul(w[2..]);
        assert t == [w[0], w[1]] + BeforeNul16(w[2..]);
        assert t[2..] == BeforeNul16(w[2..]);
      } else {
        ScalarsStopAtNul(w[1..]);
        assert t[1..] == BeforeNul16(w[1..]);
      }
    }
  }

  lemma NotNul(w: Unit)
    requires High(w) || LowSur(w)
    ensures w != 0
  {
  }

  /** Whatever the input and the limit: the output is bounded by the limit and by three bytes a
      unit, counting the units before the NUL and only as many as yield this output already; it
      is well-formed UTF-8, and it holds a subsequence of the scalar values before the first
      NUL, so no character is ever split. */
  lemma AnyInputAnyLimit(w: seq<Unit>, room: nat)
    ensures |ToUtf8(w, room)| <= room && |ToUtf8(w, room)| <= 3 * |BeforeNul16(w)|
    ensures forall k | 0 <= k <= |w| && ToUtf8(w[..k], room) == ToUtf8(w, room) :: |ToUtf8(w, room)| <= 3 * k
    ensures Parse8(ToUtf8(w, room)).whole
    ensures Subsequence(Parse8(ToUtf8(w, room)).chars, Scalars16(BeforeNul16(w)))
  {
    var t := BeforeNul16(w);
    ScalarsStopAtNul(w);
    var cs := Scalars16(w);
    ScalarsOf16(w);
    GreedyIsSubsequence(cs, room);
    GreedyShrinks(cs, room);
    ThreePerUnit(t);
    ParseEncoded(Greedy(cs, room));
    forall k | 0 <= k <= |w| && ToUtf8(w[..k], room) == ToUtf8(w, room) ensures |ToUtf8(w, room)| <= 3 * k {
      ScalarsOf16(w[..k]);
      GreedyShrinks(Scalars16(w[..k]), room);
      ThreePerUnit(w[..k]);
    }
  }

  lemma FirstUnits(u: Code, h: Unit, l: Unit)
    ensures High(h) && LowSur(l) && u == Pair(h, l) ==> Enc16(u) == [h, l]
    ensures !High(h) && !LowSur(h) && u == h as Code ==> Enc16(u) == [h]
  {
    if High(h) && LowSur(l) { PairJoin(h, l); }
    if !High(h) && !LowSur(h) { SingleScalar(h); }
  }

  /** On well-formed UTF-16 decoding loses nothing. */
  lemma {:induction false} EncodeDecoded16(w: seq<Unit>)
    requires WellFormed16(w) && 0 !in w
    ensures EncAll16(Scalars16(w)) == w
    decreases |w|
  {
    hide Enc16, Pair;
    if w != [] {
      if High(w[0]) && |w| >= 2 && LowSur(w[1]) {
        EncodeDecoded16(w[2..]);
        FirstUnits(Pair(w[0], w[1]), w[0], w[1]);
        assert w == [w[0], w[1]] + w[2..];
      } else {
        EncodeDecoded16(w[1..]);
        FirstUnits(w[0] as Code, w[0], 0);
        assert w == [w[0]] + w[1..];
      }
    }
  }

  lemma NulOnlyFromNul(u: Code)
    requires Scalar(u) && u != 0
    ensures 0 !in Enc8(u)
  {
    assert u <= 0x7F ==> Enc8(u)[0] != 0;
  }

  lemma {:induction false} NulFree8(cs: seq<Code>)
    requires Scalars(cs) && 0 !in cs
    ensures 0 !in EncAll8(cs)
  {
    hide Enc8;
    if cs != [] {
      NulOnlyFromNul(cs[0]);
      NulFree8(cs[1..]);
    }
  }

  lemma {:induction false} NoNulNoCut(t: seq<Byte>)
    requires 0 !in t
    ensures BeforeNul8(t) == t
  {
    if t != [] { NoNulNoCut(t[1..]); }
  }

  lemma {:induction false} EncodedIsWellFormed16(cs: seq<Code>)
    requires Scalars(cs) && 0 !in cs
    ensures WellFormed16(EncAll16(cs)) && 0 !in EncAll16(cs)
  {
    if cs != [] {
      var u, rest := cs[0], EncAll16(cs[1..]);
      var w := EncAll16(cs);
      EncodedIsWellFormed16(cs[1..]);
      if u < 0x10000 {
        SingleUnit(u);
        assert w[1..] == rest;
      } else {
        PairSplit(u);
        NotNul(HighOf(u));
        NotNul(LowOf(u));
        assert w[2..] == rest;
      }
    }
  }

  lemma Written(w: seq<Unit>, room: nat)
    ensures var cs := Greedy(Scalars16(w), room);
      && Scalars(cs) && 0 !in cs
      && Parse8(BeforeNul8(ToUtf8(w, room))) == Parsed(cs, true)
  {
    var cs := Greedy(Scalars16(w), room);
    ScalarsOf16(w);
    GreedyIsSubsequence(Scalars16(w), room);
    GreedyKeepsOut(Scalars16(w), room, 0);
    NulFree8(cs);
    NoNulNoCut(EncAll8(cs));
    ParseEncoded(cs);
  }

  lemma {:induction false} GreedyKeepsOut(cs: seq<Code>, room: nat, u: Code)
    requires u !in cs
    ensures u !in Greedy(cs, room)
  {
    hide Enc8;
    if cs != [] {
      GreedyKeepsOut(cs[1..], if |Enc8(cs[0])| <= room then room - |Enc8(cs[0])| else room, u);
    }
  }

  /** UTF-16 to UTF-8 and back is the identity exactly when the input is well-formed, holds
      no NUL and its UTF-8 form fits the output. */
  lemma RoundTrip16(w: seq<Unit>, room: nat)
    ensures Parse8(BeforeNul8(ToUtf8(w, room))).whole
    ensures ToUtf16(ToUtf8(w, room)) == w <==>
      WellFormed16(w) && 0 !in w && |EncAll8(Scalars16(w))| <= room
  {
    var cs := Scalars16(w);
    Written(w, room);
    if WellFormed16(w) && 0 !in w && |EncAll8(cs)| <= room {
      GreedyTakesAll(cs, room);
      EncodeDecoded16(w);
    }
    if ToUtf16(ToUtf8(w, room)) == w {
      EncodedIsWellFormed16(Greedy(cs, room));
      DecodeEncoded16(Greedy(cs, room));
      GreedyIsSubsequence(cs, room);
    }
  }

  lemma {:induction false} ParsedNulFree(t: seq<Byte>)
    requires 0 !in t && Parse8(t).whole
    ensures 0 !in Parse8(t).chars
  {
    EncodeParsed(t);
    var cs := Parse8(t).chars;
    if 0 in cs {
      var i :| 0 <= i < |cs| && cs[i] == 0;
      NulEncodesToNul(cs, i);
    }
  }

  lemma {:induction false} NulEncodesToNul(cs: seq<Code>, i: nat)
    requires i < |cs| && cs[i] == 0
    ensures 0 in EncAll8(cs)
  {
    if i == 0 {
      assert Enc8(0)[0] == 0;
    } else {
      NulEncodesToNul(cs[1..], i - 1);
    }
  }

  /** UTF-8 to UTF-16 and back: a text that is well-formed up to its first NUL, as decoding asks
      for, comes back exactly when it holds no NUL and fits the output. */
  lemma RoundTrip8(t: seq<Byte>, room: nat)
    requires Parse8(BeforeNul8(t)).whole
    ensures ToUtf8(ToUtf16(t), room) == t <==> 0 !in t && |t| <= room
  {
    if 0 !in t && |t| <= room {
      NoNulNoCut(t);
      EncodeParsed(t);
      ParsedNulFree(t);
      DecodeEncoded16(Parse8(t).chars);
      GreedyTakesAll(Parse8(t).chars, room);
    }
    if ToUtf8(ToUtf16(t), room) == t {
      var cs := Scalars16(ToUtf16(t));
      ScalarsOf16(ToUtf16(t));
      GreedyIsSubsequence(cs, room);
      GreedyShrinks(cs, room);
      GreedyKeepsOut(cs, room, 0);
      NulFree8(Greedy(cs, room));
    }
  }

  // ---- known texts ----

  /** Characters of one to four bytes, from both sides of each limit. */
  lemma KnownChars()
    ensures Enc8(0x41) == [0x41] && Enc8(0x7F) == [0x7F]
    ensures Enc8(0x80) == [0xC2, 0x80] && Enc8(0x391) == [0xCE, 0x91] && Enc8(0x7FF) == [0xDF, 0xBF]
    ensures Enc8(0x800) == [0xE0, 0xA0, 0x80] && Enc8(0x2262) == [0xE2, 0x89, 0xA2]
    ensures Enc8(0xFFFF) == [0xEF, 0xBF, 0xBF]
    ensures Enc8(0x10000) == [0xF0, 0x90, 0x80, 0x80] && Enc8(0x233B4) == [0xF0, 0xA3, 0x8E, 0xB4]
    ensures Enc8(0x10FFFF) == [0xF4, 0x8F, 0xBF, 0xBF]
  {
  }

  lemma KnownPairs()
    ensures Enc16(0xFFFF) == [0xFFFF] && Enc16(0x10000) == [0xD800, 0xDC00]
    ensures Enc16(0x233B4) == [0xD84C, 0xDFB4] && Enc16(0x10FFFF) == [0xDBFF, 0xDFFF]
    ensures Pair(0xD84C, 0xDFB4) == 0x233B4
  {
  }

  lemma TwoChars(a: Code, b: Code, room: nat)
    ensures var x, y := Enc8(a), Enc8(b);
      && (|x| + |y| <= room ==> EncAll8(Greedy([a, b], room)) == x + y)
      && (|x| <= room < |x| + |y| ==> EncAll8(Greedy([a, b], room)) == x)
      && (|y| <= room < |x| ==> EncAll8(Greedy([a, b], room)) == y)
  {
    hide Enc8;
    assert [a, b][1..] == [b] && [b][1..] == [] && [a][1..] == [];
    assert EncAll8([b]) == Enc8(b) && EncAll8([a]) == Enc8(a) && EncAll8([a, b]) == Enc8(a) + Enc8(b);
    assert forall r: nat :: Greedy([b], r) == if |Enc8(b)| <= r then [b] else [];
  }

  /** The last text of section 7 of RFC 3629 with a NUL behind it that ends it. */
  lemma KnownText()
    ensures ToUtf8([0xFEFF, 0xD84C, 0xDFB4, 0, 0x41], 9) == [0xEF, 0xBB, 0xBF, 0xF0, 0xA3, 0x8E, 0xB4]
  {
    KnownChars();
    KnownPairs();
    assert Enc8(0xFEFF) == [0xEF, 0xBB, 0xBF];
    TwoChars(0xFEFF, 0x233B4, 9);
    hide Enc8, Pair;
    var w: seq<Unit> := [0xD84C, 0xDFB4, 0, 0x41];
    assert Scalars16(w) == [0x233B4] by { assert w[2..] == [0, 0x41]; }
    assert ([0xFEFF] + w)[1..] == w && [0xFEFF] + w == [0xFEFF, 0xD84C, 0xDFB4, 0, 0x41];
  }

  /** A character that is left out for want of room, and surrogates that are no pair. */
  lemma KnownGaps()
    ensures ToUtf8([0x391, 0x41], 1) == [0x41] && ToUtf8([0x391, 0x41], 2) == [0xCE, 0x91]
    ensures ToUtf8([0xDC00, 0x41, 0xD800, 0x42, 0xD800], 9) == [0x41, 0x42]
  {
    KnownChars();
    assert Enc8(0x42) == [0x42];
    TwoChars(0x391, 0x41, 1);
    TwoChars(0x391, 0x41, 2);
    TwoChars(0x41, 0x42, 9);
    hide Enc8, Pair;
    assert Scalars16([0x391, 0x41]) == [0x391, 0x41] by { assert [0x391, 0x41][1..] == [0x41] && [0x41][1..] == []; }
    Lone();
  }

  lemma Lone()
    ensures Scalars16([0xDC00, 0x41, 0xD800, 0x42, 0xD800]) == [0x41, 0x42]
  {
    assert Scalars16([0xD800]) == [];
    assert [0x42, 0xD800][1..] == [0xD800];
    assert Scalars16([0x42, 0xD800]) == [0x42];
    assert [0xD800, 0x42, 0xD800][1..] == [0x42, 0xD800];
    assert Scalars16([0xD800, 0x42, 0xD800]) == [0x42];
    assert [0x41, 0xD800, 0x42, 0xD800][1..] == [0xD800, 0x42, 0xD800];
    assert [0xDC00, 0x41, 0xD800, 0x42, 0xD800][1..] == [0x41, 0xD800, 0x42, 0xD800];
  }

  // ---- the code ----

  function Widen(w: Unit): (r: Code) { w as Code }

  predicate IsSurrogate(u: Code) { u & SURROGATE_MASK == SURROGATE_PAIR }

  predicate Wide(u: Code) { u > 0x7F }

  predicate HasLowBit(u: Code) { u & SURROGATE_LOW != 0 }

  function Combine(u: Code, v: Code): (r: Code) {
    PLANE_SIZE + ((u & SURROGATE_BITS) << 10) + (v & SURROGATE_BITS)
  }

  lemma CombineIsPair(h: Unit, l: Unit)
    ensures Combine(Widen(h), Widen(l)) == Pair(h, l)
  {
  }

  lemma ClassifyUnit(w: Unit)
    ensures IsSurrogate(Widen(w)) <==> High(w) || LowSur(w)
    ensures High(w) || LowSur(w) ==> (HasLowBit(Widen(w)) <==> LowSur(w))
    ensures !(High(w) && LowSur(w))
  {
  }

  /** The units given: `inLen` of them, or all when a NUL is known to come first. */
  function Given(w: seq<Unit>, inLen: int): (r: seq<Unit>) {
    if inLen <= 0 then [] else if inLen <= |w| then w[..inLen] else w
  }

  lemma GreedyStep(u: Code, cs: seq<Code>, room: nat)
    ensures |Enc8(u)| <= room ==> EncAll8(Greedy([u] + cs, room)) == Enc8(u) + EncAll8(Greedy(cs, room - |Enc8(u)|))
    ensures |Enc8(u)| > room ==> Greedy([u] + cs, room) == Greedy(cs, room)
  {
    hide Enc8;
    assert ([u] + cs)[1..] == cs;
    if |Enc8(u)| <= room { EncAllCons(u, Greedy(cs, room - |Enc8(u)|)); }
  }

  /** With no room left nothing more is written. */
  lemma {:induction false} NoRoom(cs: seq<Code>)
    ensures Greedy(cs, 0) == []
  {
    hide Enc8;
    if cs != [] { NoRoom(cs[1..]); }
  }

  lemma AsciiCode(u: Code)
    requires u <= 0x7F
    ensures Enc8(u) == [(u & 0xFF) as Byte]
  {
  }

  /** The text `rest` is the scalar value `u` and then the text `rest'`. */
  ghost predicate Heads(u: Code, rest: seq<Unit>, rest': seq<Unit>) {
    Scalars16(rest) == [u] + Scalars16(rest')
  }

  lemma HeadPair(w: seq<Unit>, p: nat, u: Code)
    requires p + 1 < |w| && High(w[p]) && LowSur(w[p + 1]) && u == Pair(w[p], w[p + 1])
    ensures Heads(u, w[p..], w[p + 2..]) && |Enc8(u)| <= 6
  {
    hide Pair;
    NotNul(w[p]);
    assert w[p..][2..] == w[p + 2..];
  }

  lemma WidenBytes(w: Unit)
    ensures |Enc8(Widen(w))| <= 3
  {
    UnitBytes(w);
    hide Enc8;
  }

  lemma HeadUnit(w: seq<Unit>, p: nat, u: Code)
    requires p < |w| && w[p] != 0 && !High(w[p]) && !LowSur(w[p]) && u == Widen(w[p])
    ensures Heads(u, w[p..], w[p + 1..])
  {
    assert w[p..][1..] == w[p + 1..];
  }

  lemma NoHead(w: seq<Unit>, p: nat)
    requires p < |w| && w[p] != 0
    requires LowSur(w[p]) || (High(w[p]) && !(p + 1 < |w| && LowSur(w[p + 1])))
    ensures Scalars16(w[p..]) == Scalars16(w[p + 1..])
  {
    hide Pair;
    ClassifyUnit(w[p]);
    assert w[p..][1..] == w[p + 1..];
  }

  ghost predicate Remains(goal: seq<Byte>, done: seq<Byte>, rest: seq<Unit>, room: nat) {
    goal == done + ToUtf8(rest, room)
  }

  lemma Written1(goal: seq<Byte>, done: seq<Byte>, u: Code, rest: seq<Unit>, rest': seq<Unit>, room: nat)
    requires Heads(u, rest, rest') && Remains(goal, done, rest, room)
    ensures |Enc8(u)| <= room ==> Remains(goal, done + Enc8(u), rest', room - |Enc8(u)|)
    ensures |Enc8(u)| > room ==> Remains(goal, done, rest', room)
  {
    hide Enc8;
    GreedyStep(u, Scalars16(rest'), room);
  }

  lemma NothingWritten(w: seq<Unit>, room: nat)
    ensures Remains(ToUtf8(w, room), [], w, room)
  {
  }

  lemma Skipped(goal: seq<Byte>, done: seq<Byte>, rest: seq<Unit>, rest': seq<Unit>, room: nat)
    requires Scalars16(rest) == Scalars16(rest') && Remains(goal, done, rest, room)
    ensures Remains(goal, done, rest', room)
  {
  }

  lemma NothingRemains(goal: seq<Byte>, done: seq<Byte>, rest: seq<Unit>, room: nat)
    requires Remains(goal, done, rest, room)
    requires rest == [] || rest[0] == 0 || room == 0
    ensures goal == done
  {
    hide Enc8;
    if room == 0 { NoRoom(Scalars16(rest)); }
  }

  /** One character that needs more than a byte: written when it fits, else passed over. */
  method PutScalar(u: Code, out: array<Byte>, op: nat, room: nat,
                   ghost goal: seq<Byte>, ghost rest: seq<Unit>, ghost rest': seq<Unit>)
    returns (op': nat, room': nat)
    requires op + room <= out.Length && Remains(goal, out[..op], rest, room)
    requires Heads(u, rest, rest')
    modifies out
    ensures op <= op' <= op + |Enc8(u)| && op' + room' == op + room && Remains(goal, out[..op'], rest', room')
    ensures forall k | op' <= k < out.Length :: out[k] == old(out[k])
  {
    hide Enc8, Remains, Scalars16, Scalar;
    ScalarsOf16(rest);
    assert Scalars16(rest)[0] == u;
    ghost var done := out[..op];
    Written1(goal, done, u, rest, rest', room);
    op', room' := op, room;
    var size := Utf32ToUtf8(u, out, op, room);
    if size == -1 {
      assert out[..op] == done;
    } else {
      op', room' := op + size, room - size;
      assert out[..op'] == done + Enc8(u);
    }
  }

  /** A character that is one byte. */
  method PutAscii(u: Code, out: array<Byte>, op: nat, room: nat,
                  ghost goal: seq<Byte>, ghost rest: seq<Unit>, ghost rest': seq<Unit>)
    returns (op': nat, room': nat)
    requires op + room <= out.Length && Remains(goal, out[..op], rest, room)
    requires room > 0 && !Wide(u) && Heads(u, rest, rest')
    modifies out
    ensures op' == op + 1 && op' + room' == op + room && Remains(goal, out[..op'], rest', room')
    ensures forall k | op' <= k < out.Length :: out[k] == old(out[k])
  {
    hide Enc8, Remains, Scalars16;
    AsciiCode(u);
    ghost var done := out[..op];
    Written1(goal, done, u, rest, rest', room);
    out[op] := (u & 0xFF) as Byte;
    op', room' := op + 1, room - 1;
    assert out[..op'] == done + Enc8(u);
  }

  /** The length claimed is really there, or a NUL ends the text before it. */
  ghost predicate Ahead(g: seq<Unit>, pos: nat, left: int, claimed: bool) {
    && pos <= |g|
    && if claimed then left == |g| - pos
       else left > |g| - pos && exists z | pos <= z < |g| :: g[z] == 0
  }

  lemma StillAhead(g: seq<Unit>, pos: nat, left: int, claimed: bool)
    requires Ahead(g, pos, left, claimed) && left > 0 && pos < |g| && g[pos] != 0
    ensures Ahead(g, pos + 1, left - 1, claimed)
    ensures left - 1 > 0 ==> pos + 1 < |g|
  {
  }

  /** Reads the unit at `pos`, and its partner if it is half of a pair. */
  method TakeScalar(w: seq<Unit>, pos: nat, left: int, ghost claimed: bool)
    returns (take: bool, u: Code, pos': nat, left': int)
    requires Ahead(w, pos, left, claimed) && left > 0 && pos < |w| && w[pos] != 0
    ensures Ahead(w, pos', left', claimed) && left' < left && pos' <= |w|
    ensures pos < pos' && (forall k | pos <= k < pos' :: w[k] != 0)
    ensures take ==> Heads(u, w[pos..], w[pos'..]) && |Enc8(u)| <= 3 * (pos' - pos)
    ensures !take ==> Scalars16(w[pos..]) == Scalars16(w[pos'..])
  {
    hide Enc8, Widen, Pair, Combine, IsSurrogate, HasLowBit, High, LowSur, Heads, Scalars16, Ahead;
    u := Widen(w[pos]);
    ClassifyUnit(w[pos]);
    StillAhead(w, pos, left, claimed);
    pos', left' := pos + 1, left - 1;
    if IsSurrogate(u) {
      if HasLowBit(u) {
        NoHead(w, pos);
        return false, u, pos', left';
      }
      if left' <= 0 {
        AtEnd(w, pos', left', claimed);
        NoHead(w, pos);
        return false, u, pos', left';
      }
      var v := Widen(w[pos']);
      ClassifyUnit(w[pos']);
      if !IsSurrogate(v) || !HasLowBit(v) {
        NoHead(w, pos);
        return false, u, pos', left';
      }
      CombineIsPair(w[pos], w[pos']);
      u := Combine(u, v);
      HeadPair(w, pos, u);
      NotNul(w[pos']);
      StillAhead(w, pos', left', claimed);
      return true, u, pos' + 1, left' - 1;
    }
    HeadUnit(w, pos, u);
    WidenBytes(w[pos]);
    return true, u, pos', left';
  }

  lemma AtEnd(g: seq<Unit>, pos: nat, left: int, claimed: bool)
    requires Ahead(g, pos, left, claimed) && left <= 0
    ensures pos == |g|
  {
  }

  /** `usb_utf16s_to_utf8s`: every scalar value that still fits, in order, up to a NUL or `inLen`
      units; at most three bytes for each of the `used` units it has read. */
  method Utf16sToUtf8s(w: seq<Unit>, inLen: int, out: array<Byte>, maxout: int) returns (n: nat, ghost used: nat)
    requires inLen <= |w| || 0 in w
    requires maxout <= out.Length
    modifies out
    ensures var t := ToUtf8(Given(w, inLen), if maxout > 0 then maxout else 0);
      n == |t| && n <= out.Length && out[..] == t + old(out[n..])
    ensures n <= 3 * used && used <= |Given(w, inLen)| && 0 !in Given(w, inLen)[..used]
    ensures used < |Given(w, inLen)| && Given(w, inLen)[used] != 0 ==> n >= maxout
  {
    hide Enc8, ToUtf8, Remains, Heads, Scalars16, Wide, Ahead;
    var g := Given(w, inLen);
    ghost var claimed := inLen <= |w|;
    var pos: nat, left, op := 0, if inLen > 0 then inLen else 0, 0;
    var room: nat := if maxout > 0 then maxout else 0;
    ghost var goal := ToUtf8(g, room);
    NothingWritten(g, room);
    StartAhead(w, inLen);
    assert out[..0] == [] && g[0..] == g;
    while left > 0 && room > 0
      invariant Ahead(g, pos, left, claimed) && pos <= |g|
      invariant 0 <= op && op + room <= out.Length && op + room == (if maxout > 0 then maxout else 0)
      invariant op <= 3 * pos && 0 !in g[..pos]
      invariant Remains(goal, out[..op], g[pos..], room)
      invariant forall k | op <= k < out.Length :: out[k] == old(out[k])
    {
      Readable16(g, pos, left, claimed);
      if g[pos] == 0 {
        break;
      }
      ghost var rest := g[pos..];
      var take, u;
      take, u, pos, left := TakeScalar(g, pos, left, claimed);
      if !take {
        Skipped(goal, out[..op], rest, g[pos..], room);
        continue;
      }
      if Wide(u) {
        op, room := PutScalar(u, out, op, room, goal, rest, g[pos..]);
      } else {
        op, room := PutAscii(u, out, op, room, goal, rest, g[pos..]);
      }
    }
    if left <= 0 { AtEnd(g, pos, left, claimed); }
    NothingRemains(goal, out[..op], g[pos..], room);
    n, used := op, pos;
  }

  lemma StartAhead(w: seq<Unit>, inLen: int)
    requires inLen <= |w| || 0 in w
    ensures Ahead(Given(w, inLen), 0, if inLen > 0 then inLen else 0, inLen <= |w|)
  {
  }

  lemma Readable16(g: seq<Unit>, pos: nat, left: int, claimed: bool)
    requires Ahead(g, pos, left, claimed) && left > 0
    ensures pos < |g|
  {
  }

  // ---- UTF-8 to UTF-16 ----

  function SurHigh(u: Code): (r: Unit)
  {
    ((SURROGATE_PAIR | (((u - PLANE_SIZE) >> 10) & SURROGATE_BITS)) & 0xFFFF) as Unit
  }

  function SurLow(u: Code): (r: Unit)
  {
    ((SURROGATE_PAIR | SURROGATE_LOW | ((u - PLANE_SIZE) & SURROGATE_BITS)) & 0xFFFF) as Unit
  }

  function Narrow(u: Code): (r: Unit) { (u & 0xFFFF) as Unit }

  predicate Supplementary(u: Code) { u >= PLANE_SIZE }

  function WidenByte(b: Byte): (r: Unit) { b as Unit }

  predicate HighBit(b: Byte) { b & 0x80 != 0 }

  lemma SurrogateHalves(u: Code)
    ensures SurHigh(u) == HighOf(u) && SurLow(u) == LowOf(u)
  {
  }

  lemma UnitsWritten(u: Code)
    ensures Supplementary(u) ==> Enc16(u) == [SurHigh(u), SurLow(u)]
    ensures !Supplementary(u) ==> Enc16(u) == [Narrow(u)]
  {
    hide SurHigh, SurLow, HighOf, LowOf;
    SurrogateHalves(u);
  }

  /** The text to convert: what lies before a NUL, at most `len` bytes. */
  function Text(s: seq<Byte>, len: int): (r: seq<Byte>)
  {
    BeforeNul8(Window(s, 0, if len > 0 then len else 0))
  }

  lemma TextAt(s: seq<Byte>, len: int, p: nat)
    requires Readable(s, 0, len) && p <= |Text(s, len)|
    ensures p < |s| && (p < |Text(s, len)| <==> s[p] != 0 && len - p > 0)
    ensures p < |Text(s, len)| ==> s[p] == Text(s, len)[p] && Readable(s, p, len - p)
  {
    var win := Window(s, 0, if len > 0 then len else 0);
    var t := Text(s, len);
    if p < |t| { assert t[p] == win[p] && t[p] != 0; }
  }

  /** A zero byte belongs to no character longer than itself. */
  lemma CharLenCut(t: seq<Byte>, a: seq<Byte>)
    requires t != [] && t <= a && 0 !in t && (|t| < |a| ==> a[|t|] == 0)
    ensures CharLen(t) == CharLen(a)
  {
    hide Char8;
    forall k | 1 <= k <= 4 && k <= |a| && k > |t| ensures !Char8(a[..k]) {
      NoZeroInside(a[..k], |t|);
    }
    assert forall k | 1 <= k <= |t| :: t[..k] == a[..k];
  }

  lemma NoZeroInside(t: seq<Byte>, j: nat)
    requires 1 <= j < |t| && t[j] == 0
    ensures !Char8(t)
  {
  }

  /** The decoder, given the remaining length, sees the same first character as the text has. */
  lemma SameFirstChar(s: seq<Byte>, len: int, p: nat)
    requires Readable(s, 0, len) && p < |Text(s, len)|
    ensures p <= |s| && len - p > 0
    ensures CharLen(Window(s, p, len - p)) == CharLen(Text(s, len)[p..])
    ensures Text(s, len)[p..] <= Window(s, p, len - p)
  {
    TextAt(s, len, p);
    var t, a := Text(s, len)[p..], Window(s, p, len - p);
    assert t <= a;
    assert forall b | b in t :: b in Text(s, len);
    if |t| < |a| { TextAt(s, len, |Text(s, len)|); }
    CharLenCut(t, a);
  }

  ghost predicate Decoded(t: seq<Byte>, chars: seq<Code>, p: nat)
    requires p <= |t|
  {
    Parse8(t) == Parsed(chars + Parse8(t[p..]).chars, Parse8(t[p..]).whole)
  }

  lemma DecodedMore(t: seq<Byte>, chars: seq<Code>, p: nat)
    requires p < |t| && CharLen(t[p..]) > 0 && Decoded(t, chars, p)
    ensures var k := CharLen(t[p..]); p + k <= |t| && Decoded(t, chars + [Val8(t[p..][..k])], p + k)
  {
    hide Val8, CharLen;
    var k := CharLen(t[p..]);
    assert t[p..][k..] == t[p + k..];
  }

  lemma DecodedEnd(t: seq<Byte>, chars: seq<Code>, p: nat)
    requires p <= |t| && Decoded(t, chars, p) && (p == |t| || CharLen(t[p..]) == 0)
    ensures Parse8(t) == Parsed(chars, p == |t|)
  {
  }

  lemma {:induction false} EncAll16Snoc(cs: seq<Code>, u: Code)
    ensures EncAll16(cs + [u]) == EncAll16(cs) + Enc16(u)
  {
    hide Enc16;
    if cs == [] {
      assert [u][1..] == [];
    } else {
      EncAll16Snoc(cs[1..], u);
      assert (cs + [u])[1..] == cs[1..] + [u];
    }
  }

  lemma {:induction false} EncAll16Monotone(cs: seq<Code>, ds: seq<Code>)
    ensures |EncAll16(cs + ds)| == |EncAll16(cs)| + |EncAll16(ds)|
  {
    hide Enc16;
    if cs == [] {
      assert cs + ds == ds;
    } else {
      EncAll16Monotone(cs[1..], ds);
      assert (cs + ds)[1..] == cs[1..] + ds;
    }
  }

  lemma RoomForMore(t: seq<Byte>, chars: seq<Code>, p: nat)
    requires p <= |t| && Decoded(t, chars, p)
    ensures |EncAll16(chars)| <= |EncAll16(Parse8(t).chars)|
  {
    EncAll16Monotone(chars, Parse8(t[p..]).chars);
  }

  lemma AsciiChar(a: seq<Byte>)
    requires a != [] && !HighBit(a[0])
    ensures CharLen(a) == 1 && Enc16(Val8(a[..1])) == [WidenByte(a[0])]
  {
    NoHighBit(a[0]);
  }

  lemma NoHighBit(b: Byte)
    requires !HighBit(b)
    ensures b <= 0x7F && ((b as Code) & 0xFFFF) as Unit == b as Unit
  {
  }

  ghost predicate HoldsUnits(out: array<Unit>, op: nat, chars: seq<Code>)
    reads out
  {
    op <= out.Length && out[..op] == EncAll16(chars)
  }

  method PutUnits(u: Code, out: array<Unit>, op: nat, ghost chars: seq<Code>) returns (op': nat)
    requires HoldsUnits(out, op, chars) && |EncAll16(chars + [u])| <= out.Length
    modifies out
    ensures op <= op' && HoldsUnits(out, op', chars + [u])
    ensures forall k | op' <= k < out.Length :: out[k] == old(out[k])
  {
    hide Enc16, SurHigh, SurLow, Narrow, Supplementary;
    EncAll16Snoc(chars, u);
    UnitsWritten(u);
    ghost var done := out[..op];
    if Supplementary(u) {
      out[op] := SurHigh(u);
      out[op + 1] := SurLow(u);
      op' := op + 2;
    } else {
      out[op] := Narrow(u);
      op' := op + 1;
    }
    assert out[..op'] == done + Enc16(u);
  }

  method PutByte(b: Byte, out: array<Unit>, op: nat, ghost chars: seq<Code>, ghost u: Code) returns (op': nat)
    requires HoldsUnits(out, op, chars) && |EncAll16(chars + [u])| <= out.Length
    requires Enc16(u) == [WidenByte(b)]
    modifies out
    ensures op <= op' && HoldsUnits(out, op', chars + [u])
    ensures forall k | op' <= k < out.Length :: out[k] == old(out[k])
  {
    hide Enc16, WidenByte;
    EncAll16Snoc(chars, u);
    ghost var done := out[..op];
    out[op] := WidenByte(b);
    op' := op + 1;
    assert out[..op'] == done + [WidenByte(b)];
  }

  /** `usb_utf8s_to_utf16s`: converts the text, or reports -USB_EINVAL exactly when it is not UTF-8. */
  method Utf8sToUtf16s(s: seq<Byte>, len: int, out: array<Unit>) returns (n: int)
    requires Readable(s, 0, len)
    requires |EncAll16(Parse8(Text(s, len)).chars)| <= out.Length
    modifies out
    ensures var r := Parse8(Text(s, len)); var e := EncAll16(r.chars);
      && n == (if r.whole then |e| else -EINVAL)
      && out[..] == e + old(out[|e|..])
  {
    hide Char8, CharLen, Val8, Enc16, Parse8, Decoded, WidenByte, HighBit, Scalar, EncAll16, Text, HoldsUnits, Window;
    ghost var t := Text(s, len);
    ghost var chars: seq<Code> := [];
    var pos: nat, left, op: nat := 0, len, 0;
    DecodedNone(t);
    NoUnits(out);
    TextAt(s, len, 0);
    while s[pos] != 0 && left > 0
      invariant pos <= |t| && pos < |s| && left == len - pos && Decoded(t, chars, pos)
      invariant pos < |t| <==> s[pos] != 0 && left > 0
      invariant op <= out.Length && HoldsUnits(out, op, chars)
      invariant forall k | op <= k < out.Length :: out[k] == old(out[k])
      decreases left
    {
      SameFirstChar(s, len, pos);
      TextAt(s, len, pos);
      ghost var a := t[pos..];
      if HighBit(s[pos]) {
        var size, u := Utf8ToUtf32(s, pos, left);
        if size < 0 {
          DecodedEnd(t, chars, pos);
          Held(out, op, chars);
          return -EINVAL;
        }
        assert a[..size] == Window(s, pos, left)[..size];
        DecodedMore(t, chars, pos);
        RoomForMore(t, chars + [u], pos + size);
        op := PutUnits(u, out, op, chars);
        chars := chars + [u];
        pos, left := pos + size, left - size;
      } else {
        AsciiChar(a);
        ghost var u := Val8(a[..1]);
        DecodedMore(t, chars, pos);
        RoomForMore(t, chars + [u], pos + 1);
        op := PutByte(s[pos], out, op, chars, u);
        chars := chars + [u];
        pos, left := pos + 1, left - 1;
      }
      TextAt(s, len, pos);
      Held(out, op, chars);
    }
    DecodedEnd(t, chars, pos);
    Held(out, op, chars);
    n := op;
  }

  lemma Held(out: array<Unit>, op: nat, chars: seq<Code>)
    requires HoldsUnits(out, op, chars)
    ensures op <= out.Length && op == |EncAll16(chars)| && out[..op] == EncAll16(chars)
  {
  }

  lemma NoUnits(out: array<Unit>)
    ensures HoldsUnits(out, 0, [])
  {
  }

  lemma DecodedNone(t: seq<Byte>)
    ensures Decoded(t, [], 0)
  {
    assert t[0..] == t;
  }
}

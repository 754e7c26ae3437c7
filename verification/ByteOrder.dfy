/** Loading and storing numbers in a given byte order: common/usb_common.c. */
module ByteOrder {
  import opened Descriptors

  type U32 = i: int | 0 <= i < 0x1_0000_0000
  type U16 = i: int | 0 <= i < 0x1_0000

  function Wrap32(x: int): (r: U32) { x % 0x1_0000_0000 }

  function Be16(s: seq<Octet>, p: nat): (r: U16)
    requires p + 2 <= |s|
  {
    s[p] as int * 0x100 + s[p + 1] as int
  }

  function Be32(s: seq<Octet>, p: nat): (r: U32)
    requires p + 4 <= |s|
  {
    s[p] as int * 0x100_0000 + s[p + 1] as int * 0x1_0000 + s[p + 2] as int * 0x100 + s[p + 3] as int
  }

  function Le32(s: seq<Octet>, p: nat): (r: U32)
    requires p + 4 <= |s|
  {
    s[p + 3] as int * 0x100_0000 + s[p + 2] as int * 0x1_0000 + s[p + 1] as int * 0x100 + s[p] as int
  }

  /** Byte `k` of a number, the least significant one first. */
  function Part(v: U32, k: nat): (r: Octet)
    requires k < 4
  {
    (match k
     case 0 => v as int
     case 1 => v as int / 0x100
     case 2 => v as int / 0x1_0000
     case _ => v as int / 0x100_0000) % 0x100
  }

  function Be16Bytes(v: U16): (b: seq<Octet>)
    ensures |b| == 2
  {
    [Part(v, 1), Part(v, 0)]
  }

  function Be32Bytes(v: U32): (b: seq<Octet>)
    ensures |b| == 4
  {
    [Part(v, 3), Part(v, 2), Part(v, 1), Part(v, 0)]
  }

  function Le32Bytes(v: U32): (b: seq<Octet>)
    ensures |b| == 4
  {
    [Part(v, 0), Part(v, 1), Part(v, 2), Part(v, 3)]
  }

  lemma Parts32(v: U32)
    ensures Part(v, 3) as int * 0x100_0000 + Part(v, 2) as int * 0x1_0000
            + Part(v, 1) as int * 0x100 + Part(v, 0) as int == v as int
  {
    var x := v as int;
    var a, b, c := x / 0x100, x / 0x1_0000, x / 0x100_0000;
    assert x == a * 0x100 + x % 0x100;
    assert a / 0x100 == b && b / 0x100 == c;
    assert a == b * 0x100 + a % 0x100 && b == c * 0x100 + b % 0x100;
    assert c % 0x100 == c;
  }

  /** Storing a number and loading it back gives the number, in either byte order. */
  lemma StoreLoad(v: U32, w: U16, pre: seq<Octet>, post: seq<Octet>)
    ensures Be32(pre + Be32Bytes(v) + post, |pre|) == v && Le32(pre + Le32Bytes(v) + post, |pre|) == v
    ensures Be16(pre + Be16Bytes(w) + post, |pre|) == w
  {
    Parts32(v);
    SmallParts(w);
    hide Part;
  }

  lemma SmallParts(w: U16)
    ensures Part(w, 1) as int * 0x100 + Part(w, 0) as int == w as int
  {
  }

  lemma FourDigits(a: Octet, b: Octet, c: Octet, d: Octet, v: U32)
    requires v as int == a as int * 0x100_0000 + b as int * 0x1_0000 + c as int * 0x100 + d as int
    ensures Part(v, 3) == a && Part(v, 2) == b && Part(v, 1) == c && Part(v, 0) == d
  {
    var x, y, z := a as int * 0x100 + b as int, (a as int * 0x100 + b as int) * 0x100 + c as int, v as int;
    assert z == y * 0x100 + d as int && z / 0x100 == y && z % 0x100 == d as int;
    assert y / 0x100 == x && y % 0x100 == c as int;
    assert x / 0x100 == a as int && x % 0x100 == b as int;
    assert z / 0x1_0000 == x && z / 0x100_0000 == a as int;
  }

  /** Loading a number and storing it again gives the bytes. */
  lemma LoadStore(s: seq<Octet>, p: nat)
    requires p + 4 <= |s|
    ensures Be32Bytes(Be32(s, p)) == s[p..p + 4] && Le32Bytes(Le32(s, p)) == s[p..p + 4]
  {
    FourDigits(s[p], s[p + 1], s[p + 2], s[p + 3], Be32(s, p));
    FourDigits(s[p + 3], s[p + 2], s[p + 1], s[p], Le32(s, p));
  }

  /** A number stored in place: `usb_be32_stor`. */
  method Be32Store(v: U32, buf: array<Octet>, p: nat)
    requires p + 4 <= buf.Length
    modifies buf
    ensures buf[p] == Part(v, 3) && buf[p + 1] == Part(v, 2) && buf[p + 2] == Part(v, 1) && buf[p + 3] == Part(v, 0)
    ensures forall k | 0 <= k < buf.Length && (k < p || p + 4 <= k) :: buf[k] == old(buf[k])
  {
    buf[p] := Part(v, 3);
    buf[p + 1] := Part(v, 2);
    buf[p + 2] := Part(v, 1);
    buf[p + 3] := Part(v, 0);
  }

  /** `usb_le32_stor`. */
  method Le32Store(v: U32, buf: array<Octet>, p: nat)
    requires p + 4 <= buf.Length
    modifies buf
    ensures buf[p] == Part(v, 0) && buf[p + 1] == Part(v, 1) && buf[p + 2] == Part(v, 2) && buf[p + 3] == Part(v, 3)
    ensures forall k | 0 <= k < buf.Length && (k < p || p + 4 <= k) :: buf[k] == old(buf[k])
  {
    buf[p] := Part(v, 0);
    buf[p + 1] := Part(v, 1);
    buf[p + 2] := Part(v, 2);
    buf[p + 3] := Part(v, 3);
  }

  /** `usb_be16_stor`. */
  method Be16Store(v: U16, buf: array<Octet>, p: nat)
    requires p + 2 <= buf.Length
    modifies buf
    ensures buf[p] == Part(v, 1) && buf[p + 1] == Part(v, 0)
    ensures forall k | 0 <= k < buf.Length && (k < p || p + 2 <= k) :: buf[k] == old(buf[k])
  {
    buf[p] := Part(v, 1);
    buf[p + 1] := Part(v, 0);
  }

  /** `memset`. */
  method Fill(buf: array<Octet>, p: nat, n: nat, v: Octet)
    requires p + n <= buf.Length
    modifies buf
    ensures forall k | p <= k < p + n :: buf[k] == v
    ensures forall k | 0 <= k < buf.Length && (k < p || p + n <= k) :: buf[k] == old(buf[k])
  {
    forall k | p <= k < p + n { buf[k] := v; }
  }
}

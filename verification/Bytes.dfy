/** Bytes, sizes and the few sequence facts every other module rests on. */
module Bytes {

  /** One `u8`; a C++ `char` is read here as its unsigned value. */
  type Byte = b: int | 0 <= b < 256

  /** `size_t`, `usize` and `u64` hold the values below this bound. */
  const TWO_64: nat := 0x1_0000_0000_0000_0000

  const CR: Byte := 13
  const LF: Byte := 10
  const SPACE: Byte := 32

  /** `size_t` addition, where it does not wrap. */
  method Add64(a: nat, b: nat) returns (c: nat)
    requires a + b < TWO_64
    ensures c == a + b
  {
    c := (a + b) % TWO_64;
  }

  datatype Option<+T> = None | Some(value: T)

  /** The longest prefix of `s` that fits in `room` cells. */
  function Clip<T>(s: seq<T>, room: nat): seq<T> {
    if |s| <= room then s else s[..room]
  }

  /** Clipping two pieces one after the other is clipping their concatenation. */
  lemma ClipAppend<T>(a: seq<T>, b: seq<T>, room: nat)
    ensures |Clip(a, room)| <= room
    ensures Clip(a, room) + Clip(b, room - |Clip(a, room)|) == Clip(a + b, room)
  {
    if |a| <= room && |a| + |b| > room {
      assert (a + b)[..room] == a + b[..room - |a|];
    } else if |a| > room {
      assert (a + b)[..room] == a[..room];
    }
  }

  /** All but the first `n` elements, if there are that many. */
  function Drop<T>(s: seq<T>, n: nat): seq<T> {
    if n <= |s| then s[n..] else []
  }

  /**
   * What came out against what should have: all of it, or, once something has been
   * lost, less than all of it, the first `kept` elements of which are right.
   */
  predicate KeepsUp<T(==)>(out: seq<T>, whole: seq<T>, lost: bool, kept: nat) {
    if lost then |out| < |whole| && kept <= |out| && out[..kept] <= whole else out == whole
  }

  /** A clipped append keeps up with the whole one unless something has been lost, now or before. */
  lemma ClipOutcome<T>(before: seq<T>, whole: seq<T>, more: seq<T>, room: nat, lost: bool, kept: nat)
    requires KeepsUp(before, whole, lost, kept)
    ensures var now := before + Clip(more, room);
            KeepsUp(now, whole + more, lost || |more| > room, if lost then kept else |now|)
  {
    var now := before + Clip(more, room);
    if lost {
      assert now[..kept] == before[..kept];
    } else {
      assert now[..|now|] == now && Clip(more, room) <= more;
    }
  }

  lemma PrefixTrans<T>(a: seq<T>, b: seq<T>, c: seq<T>)
    requires a <= b <= c
    ensures a <= c
  {
  }

  /** A slice and the one right behind it. */
  lemma SliceJoins<T>(s: seq<T>, i: nat, j: nat, k: nat)
    requires i <= j <= k <= |s|
    ensures s[i..j] + s[j..k] == s[i..k] && s[j..][..k - j] == s[j..k] && s[i..k][..j - i] == s[i..j]
  {
  }

  lemma Assoc<T>(a: seq<T>, b: seq<T>, c: seq<T>)
    ensures a + b + c == a + (b + c)
  {
  }

  lemma Slices<T>(a: seq<T>, b: seq<T>, c: seq<T>, d: seq<T>)
    ensures var s := a + b + c + d;
            s[..|a|] == a && s[|a|..|a| + |b|] == b && s[|a| + |b|..|a| + |b| + |c|] == c
  {
  }

  /** Where six pieces lie in their concatenation. */
  lemma SixPieces<T>(a: seq<T>, b: seq<T>, c: seq<T>, d: seq<T>, e: seq<T>, f: seq<T>)
    ensures var s := a + b + c + d + e + f;
            var i, j, k := |a|, |a| + |b|, |a| + |b| + |c|;
            var l, m := k + |d|, k + |d| + |e|;
            s[..i] == a && s[i..j] == b && s[j..k] == c && s[k..l] == d && s[l..m] == e && s[m..] == f
  {
  }

  /** The `k` low bits of `a ^ b`: each is the parity of the two bits it is made from. */
  function XorBits(k: nat, a: nat, b: nat): (r: nat)
    ensures r < Pow2(k)
  {
    if k == 0 then 0 else (a % 2 + b % 2) % 2 + 2 * XorBits(k - 1, a / 2, b / 2)
  }

  function Pow2(k: nat): (p: nat)
    ensures p > 0
  {
    if k == 0 then 1 else 2 * Pow2(k - 1)
  }

  /** `a ^ b` on bytes. */
  function Xor(a: Byte, b: Byte): (r: Byte) {
    assert Pow2(8) == 256;
    XorBits(8, a, b)
  }

  lemma ParityTwice(p: nat, q: nat)
    requires p < 2 && q < 2
    ensures ((p + q) % 2 + q) % 2 == p
  {
  }

  lemma XorBitsParts(k: nat, a: nat, b: nat)
    requires k > 0
    ensures XorBits(k, a, b) % 2 == (a % 2 + b % 2) % 2
    ensures XorBits(k, a, b) / 2 == XorBits(k - 1, a / 2, b / 2)
  {
  }

  lemma {:induction false} XorBitsTwice(k: nat, a: nat, b: nat)
    requires a < Pow2(k)
    ensures XorBits(k, XorBits(k, a, b), b) == a
  {
    if k > 0 {
      var r := XorBits(k, a, b);
      XorBitsParts(k, a, b);
      XorBitsParts(k, r, b);
      ParityTwice(a % 2, b % 2);
      XorBitsTwice(k - 1, a / 2, b / 2);
    }
  }

  /** Masking twice with one key byte is the identity. */
  lemma XorTwice(a: Byte, b: Byte)
    ensures Xor(Xor(a, b), b) == a
  {
    assert Pow2(8) == 256;
    XorBitsTwice(8, a, b);
  }

  /** Bit `i` of `n`: halved `i` times, is it odd? */
  function Bit(n: nat, i: nat): nat {
    if i == 0 then n % 2 else Bit(n / 2, i - 1)
  }

  /** Every bit of `r` is the parity of that bit of `a` and that bit of `b`. */
  predicate IsXor(r: Byte, a: Byte, b: Byte) {
    forall i :: 0 <= i < 8 ==> Bit(r, i) == (Bit(a, i) + Bit(b, i)) % 2
  }

  lemma {:induction false} XorBitsBit(k: nat, a: nat, b: nat, i: nat)
    requires i < k
    ensures Bit(XorBits(k, a, b), i) == (Bit(a, i) + Bit(b, i)) % 2
  {
    XorBitsParts(k, a, b);
    if i > 0 {
      XorBitsBit(k - 1, a / 2, b / 2, i - 1);
    }
  }

  lemma {:induction false} SameBits(k: nat, x: nat, y: nat)
    requires x < Pow2(k) && y < Pow2(k) && forall i :: 0 <= i < k ==> Bit(x, i) == Bit(y, i)
    ensures x == y
  {
    if k > 0 {
      assert Bit(x, 0) == Bit(y, 0);
      forall i | 0 <= i < k - 1
        ensures Bit(x / 2, i) == Bit(y / 2, i)
      {
        assert Bit(x, i + 1) == Bit(y, i + 1);
      }
      SameBits(k - 1, x / 2, y / 2);
    }
  }

  /** Exclusive or is what it is on every bit, and nothing else is. */
  lemma XorIsBitwise(a: Byte, b: Byte, r: Byte)
    ensures IsXor(r, a, b) <==> r == Xor(a, b)
  {
    var x := Xor(a, b);
    assert Pow2(8) == 256 && x == XorBits(8, a, b);
    forall i | 0 <= i < 8
      ensures Bit(x, i) == (Bit(a, i) + Bit(b, i)) % 2
    {
      XorBitsBit(8, a, b, i);
    }
    if IsXor(r, a, b) {
      SameBits(8, r, x);
    }
  }

  /** The `k` low bytes of `n`, most significant first: `(n >> 8 * i) & 0xFF` for `i` from `k - 1` down to 0. */
  function BigEndian(n: nat, k: nat): (s: seq<Byte>)
    ensures |s| == k
  {
    if k == 0 then [] else BigEndian(n / 256, k - 1) + [n % 256]
  }

  /** Byte `i` of `n`: `(n >> (8 * i)) & 0xFF`. */
  function ByteAt(n: nat, i: nat): Byte {
    if i == 0 then n % 256 else ByteAt(n / 256, i - 1)
  }

  lemma {:induction false} BigEndianIndex(n: nat, k: nat, i: nat)
    requires i < k
    ensures BigEndian(n, k)[i] == ByteAt(n, k - 1 - i)
  {
    if i < k - 1 {
      BigEndianIndex(n / 256, k - 1, i);
    }
  }

  /** The number a big-endian byte string stands for. */
  function Number(s: seq<Byte>): nat {
    if s == [] then 0 else Number(s[..|s| - 1]) * 256 + s[|s| - 1]
  }

  lemma NumberOfTwo(a: Byte, b: Byte)
    ensures Number([a, b]) == 256 * a + b
  {
    var s := [a, b];
    assert s[..1] == [a] && [a][..0] == [];
    assert Number([a]) == a;
  }

  function Pow256(k: nat): (p: nat)
    ensures p > 0
  {
    if k == 0 then 1 else 256 * Pow256(k - 1)
  }

  lemma {:induction false} NumberOfBigEndian(n: nat, k: nat)
    requires n < Pow256(k)
    ensures Number(BigEndian(n, k)) == n
  {
    if k > 0 {
      NumberOfBigEndian(n / 256, k - 1);
      assert BigEndian(n, k)[..k - 1] == BigEndian(n / 256, k - 1);
    }
  }

  lemma {:induction false} BigEndianOfNumber(s: seq<Byte>)
    ensures Number(s) < Pow256(|s|)
    ensures BigEndian(Number(s), |s|) == s
  {
    if s != [] {
      BigEndianOfNumber(s[..|s| - 1]);
      assert Number(s) / 256 == Number(s[..|s| - 1]);
      assert s == s[..|s| - 1] + [s[|s| - 1]];
    }
  }

  lemma WordSizes()
    ensures Pow256(1) == 256 && Pow256(2) == 0x1_0000 && Pow256(8) == TWO_64
  {
    assert Pow256(4) == 0x1_0000_0000;
    assert Pow256(6) == 0x1_0000_0000_0000;
  }

  /** All pieces one after the other. */
  function Concat<T>(pieces: seq<seq<T>>): seq<T> {
    if pieces == [] then [] else pieces[0] + Concat(pieces[1..])
  }

  lemma ConcatFive<T>(a: seq<T>, b: seq<T>, c: seq<T>, d: seq<T>, e: seq<T>)
    ensures Concat([a, b, c, d, e]) == a + b + c + d + e
  {
    assert [a, b, c, d, e][1..] == [b, c, d, e] && [b, c, d, e][1..] == [c, d, e];
    assert [c, d, e][1..] == [d, e] && [d, e][1..] == [e] && [e][1..] == [];
    assert Concat([e]) == e && Concat([d, e]) == d + e;
    assert Concat([c, d, e]) == c + (d + e) == c + d + e;
    assert Concat([b, c, d, e]) == b + (c + d + e) == b + c + d + e;
  }

  lemma ConcatSix<T>(a: seq<T>, b: seq<T>, c: seq<T>, d: seq<T>, e: seq<T>, f: seq<T>)
    ensures Concat([a, b, c, d, e, f]) == a + b + c + d + e + f
  {
    assert [a, b, c, d, e, f][1..] == [b, c, d, e, f];
    ConcatFive(b, c, d, e, f);
    assert a + (b + c + d + e + f) == a + b + c + d + e + f;
  }
}

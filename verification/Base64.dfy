/** `StringUtils::base64Encode`, filling its output in place, against the encoding of RFC 4648, section 4. */
module Base64 {
  import opened Bytes

  const PAD: Byte := 61

  /** `kBase64Table[i]`: the letters A-Z, a-z, 0-9, '+' and '/', in that order. */
  function Letter(i: nat): Byte
    requires i < 64
  {
    if i < 26 then 65 + i
    else if i < 52 then 97 + (i - 26)
    else if i < 62 then 48 + (i - 52)
    else if i == 62 then 43
    else 47
  }

  /** Sextet `i` of a chunk: `(chunk >> (6 * i)) & 0x3F`. */
  function SextetAt(n: nat, i: nat): (x: nat)
    ensures x < 64
  {
    if i == 0 then n % 64 else SextetAt(n / 64, i - 1)
  }

  /** The four letters of a 24-bit chunk. */
  function Quantum(chunk: nat): (q: seq<Byte>)
    ensures |q| == 4
  {
    [Letter(SextetAt(chunk, 3)), Letter(SextetAt(chunk, 2)), Letter(SextetAt(chunk, 1)), Letter(SextetAt(chunk, 0))]
  }

  /** The last quantum, for one byte or two. */
  function LastQuantum(data: seq<Byte>): (q: seq<Byte>)
    requires 1 <= |data| <= 2
    ensures |q| == 4
  {
    if |data| == 1 then Quantum(Number(data + [0, 0]))[..2] + [PAD, PAD]
    else Quantum(Number(data + [0]))[..3] + [PAD]
  }

  /** Four letters for three bytes; two or three letters and padding for what is left. */
  function Encoded(data: seq<Byte>): (s: seq<Byte>)
    decreases |data|
  {
    if data == [] then []
    else if |data| <= 2 then LastQuantum(data)
    else Quantum(Number(data[..3])) + Encoded(data[3..])
  }

  lemma {:induction false} EncodedLength(data: seq<Byte>)
    ensures |Encoded(data)| == (|data| + 2) / 3 * 4
    decreases |data|
  {
    if |data| > 2 {
      EncodedLength(data[3..]);
    }
  }

  /** Three bytes as one number: `a << 16 | b << 8 | c`. */
  function Chunk(a: Byte, b: Byte, c: Byte): nat {
    0x1_0000 * a + 0x100 * b + c
  }

  lemma ChunkIsNumber(a: Byte, b: Byte, c: Byte)
    ensures Chunk(a, b, c) == Number([a, b, c])
  {
    NumberOfTwo(a, b);
    assert [a, b, c][..2] == [a, b];
  }

  /** Writes four letters at the output cursor. */
  method Put(out: array<Byte>, at: nat, q: seq<Byte>)
    requires at + 4 <= out.Length && |q| == 4
    modifies out
    ensures out[..at + 4] == old(out[..at]) + q
  {
    out[at], out[at + 1], out[at + 2], out[at + 3] := q[0], q[1], q[2], q[3];
  }

  /** What one step of the main loop writes behind `before`. */
  lemma EncodedStep(before: seq<Byte>, data: seq<Byte>, i: nat)
    requires i + 3 <= |data| && before + Encoded(data[i..]) == Encoded(data)
    ensures before + Quantum(Chunk(data[i], data[i + 1], data[i + 2])) + Encoded(data[i + 3..]) == Encoded(data)
  {
    ChunkIsNumber(data[i], data[i + 1], data[i + 2]);
    assert data[i..][..3] == [data[i], data[i + 1], data[i + 2]];
    assert data[i..][3..] == data[i + 3..];
    Assoc(before, Quantum(Number(data[i..][..3])), Encoded(data[i + 3..]));
  }

  /** What is written for the one or two bytes left over. */
  lemma EncodedTail(data: seq<Byte>, i: nat, hasSecond: bool)
    requires i + (if hasSecond then 2 else 1) == |data|
    ensures var q := Quantum(if hasSecond then Chunk(data[i], data[i + 1], 0) else Chunk(data[i], 0, 0));
            Encoded(data[i..]) == [q[0], q[1], if hasSecond then q[2] else PAD, PAD]
  {
    var b := if hasSecond then data[i + 1] else 0;
    ChunkIsNumber(data[i], b, 0);
    assert data[i..] + (if hasSecond then [0] else [0, 0]) == [data[i], b, 0];
  }

  /** `len - len % 3` is three bytes for every whole group, and there is a quantum for every group begun. */
  lemma Groups(len: nat)
    ensures len - len % 3 == 3 * (len / 3)
    ensures (len + 2) / 3 * 4 == 4 * (len / 3) + (if len % 3 == 0 then 0 else 4)
  {
  }

  /** The main loop: four letters for every whole group of three bytes. */
  method FillWhole(data: seq<Byte>, out: array<Byte>, mainLen: nat, ghost groups: nat) returns (at: nat)
    requires mainLen == 3 * groups <= |data| && 4 * groups <= out.Length
    modifies out
    ensures at == 4 * groups && out[..at] + Encoded(data[mainLen..]) == Encoded(data)
  {
    at := 0;
    var i := 0;
    ghost var done := 0;
    assert data[i..] == data && out[..at] == [];
    while i < mainLen
      invariant i == 3 * done && at == 4 * done && done <= groups
      invariant out[..at] + Encoded(data[i..]) == Encoded(data)
    {
      assert done < groups && at + 4 <= out.Length;
      var q := Quantum(Chunk(data[i], data[i + 1], data[i + 2]));
      EncodedStep(out[..at], data, i);
      Put(out, at, q);
      done := done + 1;
      at := at + 4;
      i := i + 3;
    }
  }

  /** Encodes through an output cursor over cells allocated up front, every one of which is written. */
  method Encode(data: seq<Byte>) returns (r: seq<Byte>)
    ensures r == Encoded(data)
  {
    var len := |data|;
    var outLen := (len + 2) / 3 * 4;
    var out := new Byte[outLen];
    var i := len - len % 3;
    Groups(len);
    var at := FillWhole(data, out, i, len / 3);
    if i < len {
      var hasSecond := i + 1 < len;
      var q := Quantum(if hasSecond then Chunk(data[i], data[i + 1], 0) else Chunk(data[i], 0, 0));
      EncodedTail(data, i, hasSecond);
      Put(out, at, [q[0], q[1], if hasSecond then q[2] else PAD, PAD]);
      at := at + 4;
    } else {
      assert data[i..] == [] && out[..at] + [] == out[..at];
    }
    EncodedLength(data);
    assert out[..at] == out[..];
    r := out[..];
  }

  // ---- a decoder written from the standard ----

  /** The value of an alphabet letter (RFC 4648, table 1). */
  function ValueOf(c: Byte): Option<nat> {
    if 65 <= c <= 90 then Some(c - 65)
    else if 97 <= c <= 122 then Some(c - 71)
    else if 48 <= c <= 57 then Some(c + 4)
    else if c == 43 then Some(62)
    else if c == 47 then Some(63)
    else None
  }

  /** Four sextets as one number. */
  function Joined(p: nat, q: nat, r: nat, t: nat): nat {
    64 * (64 * (64 * p + q) + r) + t
  }

  /** One quantum: three bytes, or fewer where padding stands over zero bytes. */
  function DecodeQuantum(s: seq<Byte>): Option<seq<Byte>>
    requires |s| == 4
  {
    match (ValueOf(s[0]), ValueOf(s[1]), ValueOf(s[2]), ValueOf(s[3]))
    case (Some(p), Some(q), Some(r), Some(t)) => Some(BigEndian(Joined(p, q, r, t), 3))
    case (Some(p), Some(q), Some(r), None) =>
      var b := BigEndian(Joined(p, q, r, 0), 3);
      if s[3] == PAD && b[2] == 0 then Some(b[..2]) else None
    case (Some(p), Some(q), None, None) =>
      var b := BigEndian(Joined(p, q, 0, 0), 3);
      if s[2] == PAD && s[3] == PAD && b[1] == b[2] == 0 then Some(b[..1]) else None
    case _ => None
  }

  /** Whole quanta, only the last of which may be short. */
  function Decode(s: seq<Byte>): Option<seq<Byte>>
    decreases |s|
  {
    if s == [] then Some([])
    else if |s| < 4 then None
    else if |s| == 4 then DecodeQuantum(s)
    else
      match (DecodeQuantum(s[..4]), Decode(s[4..]))
      case (Some(b), Some(rest)) => if |b| == 3 then Some(b + rest) else None
      case _ => None
  }

  lemma LetterValue(i: nat)
    requires i < 64
    ensures ValueOf(Letter(i)) == Some(i) && Letter(i) != PAD
  {
  }

  lemma JoinedBack(n: nat)
    requires n < 0x100_0000
    ensures Joined(SextetAt(n, 3), SextetAt(n, 2), SextetAt(n, 1), SextetAt(n, 0)) == n
  {
    var n1 := n / 64;
    var n2 := n1 / 64;
    var n3 := n2 / 64;
    assert n3 < 64;
    assert SextetAt(n, 3) == SextetAt(n1, 2) == SextetAt(n2, 1) == SextetAt(n3, 0) == n3;
    assert SextetAt(n, 2) == SextetAt(n1, 1) == SextetAt(n2, 0);
    assert SextetAt(n, 1) == SextetAt(n1, 0);
  }

  lemma QuantumValues(n: nat)
    ensures var q := Quantum(n);
            ValueOf(q[0]) == Some(SextetAt(n, 3)) && ValueOf(q[1]) == Some(SextetAt(n, 2)) &&
            ValueOf(q[2]) == Some(SextetAt(n, 1)) && ValueOf(q[3]) == Some(SextetAt(n, 0)) && PAD !in q
  {
    LetterValue(SextetAt(n, 3));
    LetterValue(SextetAt(n, 2));
    LetterValue(SextetAt(n, 1));
    LetterValue(SextetAt(n, 0));
  }

  /** Sextets under a zero byte, or two, are zero. */
  lemma ZeroSextets(a: Byte, b: Byte, c: Byte)
    ensures var n := Chunk(a, b, c);
            n < 0x100_0000 && (c == 0 ==> SextetAt(n, 0) == 0) && (b == c == 0 ==> SextetAt(n, 1) == 0)
  {
    var n := Chunk(a, b, c);
    if c == 0 {
      assert n == 64 * (1024 * a + 4 * b);
      assert n / 64 == 1024 * a + 4 * b;
      if b == 0 {
        assert n / 64 == 64 * (16 * a);
        assert SextetAt(n, 1) == SextetAt(n / 64, 0);
      }
    }
  }

  /** Three bytes come back from their four sextets. */
  lemma ThreeBytesBack(s: seq<Byte>)
    requires |s| == 3
    ensures var n := Number(s);
            BigEndian(Joined(SextetAt(n, 3), SextetAt(n, 2), SextetAt(n, 1), SextetAt(n, 0)), 3) == s &&
            (s[2] == 0 ==> SextetAt(n, 0) == 0) && (s[1] == s[2] == 0 ==> SextetAt(n, 1) == 0)
  {
    assert s == [s[0], s[1], s[2]];
    ChunkIsNumber(s[0], s[1], s[2]);
    ZeroSextets(s[0], s[1], s[2]);
    JoinedBack(Number(s));
    BigEndianOfNumber(s);
  }

  lemma QuantumBack(s: seq<Byte>)
    requires |s| == 3
    ensures DecodeQuantum(Quantum(Number(s))) == Some(s)
  {
    QuantumValues(Number(s));
    ThreeBytesBack(s);
  }

  lemma LastQuantumBack(data: seq<Byte>)
    requires 1 <= |data| <= 2
    ensures DecodeQuantum(LastQuantum(data)) == Some(data)
  {
    var s := data + (if |data| == 2 then [0] else [0, 0]);
    QuantumValues(Number(s));
    ThreeBytesBack(s);
    assert ValueOf(PAD) == None;
    assert data == s[..|data|];
  }

  lemma DecodeCons(q: seq<Byte>, rest: seq<Byte>, b: seq<Byte>, d: seq<Byte>)
    requires |q| == 4 && DecodeQuantum(q) == Some(b) && |b| == 3 && Decode(rest) == Some(d)
    ensures Decode(q + rest) == Some(b + d)
  {
    var s := q + rest;
    if rest == [] {
      assert s == q && b + d == b;
    } else {
      assert s[..4] == q && s[4..] == rest;
    }
  }

  /** Every byte sequence comes back from its encoding. */
  lemma {:induction false} DecodeEncoded(data: seq<Byte>)
    ensures Decode(Encoded(data)) == Some(data)
    decreases |data|
  {
    if 1 <= |data| <= 2 {
      LastQuantumBack(data);
    } else if |data| > 2 {
      QuantumBack(data[..3]);
      DecodeEncoded(data[3..]);
      DecodeCons(Quantum(Number(data[..3])), Encoded(data[3..]), data[..3], data[3..]);
      assert data == data[..3] + data[3..];
    }
  }

  /** So different inputs never share an encoding. */
  lemma EncodedInjective(a: seq<Byte>, b: seq<Byte>)
    requires Encoded(a) == Encoded(b)
    ensures a == b
  {
    DecodeEncoded(a);
    DecodeEncoded(b);
  }

  lemma SextetOf(n: nat)
    ensures SextetAt(n, 0) == n % 64 && SextetAt(n, 1) == n / 64 % 64
    ensures SextetAt(n, 2) == n / 64 / 64 % 64 && SextetAt(n, 3) == n / 64 / 64 / 64 % 64
  {
    assert SextetAt(n / 64, 1) == n / 64 / 64 % 64 && SextetAt(n / 64, 2) == SextetAt(n / 64 / 64, 1);
  }

  lemma ChunkParts(a: Byte, b: Byte, c: Byte)
    ensures var n := Chunk(a, b, c);
            n / 64 == 1024 * a + 4 * b + c / 64 && n / 64 / 64 == 16 * a + b / 16 && n / 64 / 64 / 64 == a / 4
  {
  }

  lemma SextetsOf(a: Byte, b: Byte, c: Byte)
    ensures var n := Chunk(a, b, c);
            SextetAt(n, 3) == a / 4 && SextetAt(n, 2) == a % 4 * 16 + b / 16 &&
            SextetAt(n, 1) == b % 16 * 4 + c / 64 && SextetAt(n, 0) == c % 64
  {
    SextetOf(Chunk(a, b, c));
    ChunkParts(a, b, c);
  }

  /** The letters of three bytes: six bits each, from the first byte's highest on. */
  lemma QuantumSpelled(a: Byte, b: Byte, c: Byte)
    ensures Quantum(Number([a, b, c])) ==
            [Letter(a / 4), Letter(a % 4 * 16 + b / 16), Letter(b % 16 * 4 + c / 64), Letter(c % 64)]
  {
    ChunkIsNumber(a, b, c);
    SextetsOf(a, b, c);
  }

  lemma LaterLetters(q: seq<Byte>, rest: seq<Byte>, at: nat)
    requires |q| == 4 && at + 4 <= |rest|
    ensures (q + rest)[at + 4..at + 8] == rest[at..at + 4]
  {
  }

  /** Group `g` of three bytes is in the four letters from `4 * g` on. */
  lemma {:induction false} GroupSpelled(data: seq<Byte>, g: nat)
    requires 3 * g + 3 <= |data|
    ensures 4 * g + 4 <= |Encoded(data)|
    ensures var a, b, c := data[3 * g], data[3 * g + 1], data[3 * g + 2];
            Encoded(data)[4 * g..4 * g + 4] ==
            [Letter(a / 4), Letter(a % 4 * 16 + b / 16), Letter(b % 16 * 4 + c / 64), Letter(c % 64)]
    decreases g
  {
    if g == 0 {
      QuantumSpelled(data[0], data[1], data[2]);
      assert data[..3] == [data[0], data[1], data[2]];
    } else {
      GroupSpelled(data[3..], g - 1);
      LaterLetters(Quantum(Number(data[..3])), Encoded(data[3..]), 4 * (g - 1));
    }
  }

  /** The tail of an encoding is the encoding of the tail. */
  lemma {:induction false} TailEncoded(data: seq<Byte>, g: nat)
    requires 3 * g <= |data|
    ensures 4 * g <= |Encoded(data)| && Encoded(data)[4 * g..] == Encoded(data[3 * g..])
    decreases g
  {
    if g > 0 {
      var q, rest := Quantum(Number(data[..3])), Encoded(data[3..]);
      TailEncoded(data[3..], g - 1);
      assert Encoded(data) == q + rest && (q + rest)[4 * g..] == rest[4 * (g - 1)..];
      assert data[3..][3 * (g - 1)..] == data[3 * g..];
    }
  }

  lemma LastSpelled(a: Byte, b: Byte)
    ensures Encoded([a]) == [Letter(a / 4), Letter(a % 4 * 16), 61, 61]
    ensures Encoded([a, b]) == [Letter(a / 4), Letter(a % 4 * 16 + b / 16), Letter(b % 16 * 4), 61]
  {
    QuantumSpelled(a, 0, 0);
    QuantumSpelled(a, b, 0);
    assert [a] + [0, 0] == [a, 0, 0] && [a, b] + [0] == [a, b, 0];
  }

  /** What the one or two bytes behind the last whole group become. */
  lemma TailSpelled(data: seq<Byte>, g: nat)
    requires 3 * g < |data| < 3 * g + 3
    ensures 4 * g <= |Encoded(data)|
    ensures var a := data[3 * g];
            Encoded(data)[4 * g..] ==
            if |data| == 3 * g + 1 then [Letter(a / 4), Letter(a % 4 * 16), 61, 61]
            else
              var b := data[3 * g + 1];
              [Letter(a / 4), Letter(a % 4 * 16 + b / 16), Letter(b % 16 * 4), 61]
  {
    var rest := data[3 * g..];
    TailEncoded(data, g);
    LastSpelled(rest[0], if |rest| == 2 then rest[1] else 0);
    assert rest == if |rest| == 1 then [rest[0]] else [rest[0], rest[1]];
  }

  /** '=' stands exactly in the last one or two places of a short last quantum. */
  lemma {:induction false} PaddingExactly(data: seq<Byte>, k: nat)
    requires k < |Encoded(data)|
    ensures Encoded(data)[k] == 61 <==> k >= |Encoded(data)| - (3 - |data| % 3) % 3
    decreases |data|
  {
    if |data| <= 2 {
      QuantumValues(Number(data + if |data| == 2 then [0] else [0, 0]));
    } else {
      var q, rest := Quantum(Number(data[..3])), Encoded(data[3..]);
      QuantumValues(Number(data[..3]));
      EncodedLength(data[3..]);
      assert Encoded(data) == q + rest && (|data| - 3) % 3 == |data| % 3;
      if k >= 4 {
        PaddingExactly(data[3..], k - 4);
      } else {
        assert Encoded(data)[k] == q[k];
      }
    }
  }
}

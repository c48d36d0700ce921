/** Bit strings and bytes.

    Every variant of the codec represents a bit stream as a Python string of
    '0'/'1' characters (or a list of 0/1 integers); here a bit stream is a
    `seq<bool>` with `true` for '1'.  This module gathers the conversions the
    variants share: `format(v, '08b')`, `int(s, 2)`, `int.to_bytes`,
    `int.from_bytes`, the 8-character chunking of a bit string, `str.find` and
    `str.endswith`. */
module Bits {
  import opened Outcomes

  /** A byte, or one 8-bit colour channel of an image. */
  type byte = b: int | 0 <= b < 256

  type Bits = seq<bool>

  function Min(a: int, b: int): int { if a <= b then a else b }

  function Pow2(e: nat): (r: nat)
    ensures r >= 1
  {
    if e == 0 then 1 else 2 * Pow2(e - 1)
  }

  lemma {:induction false} Pow2Add(a: nat, b: nat)
    ensures Pow2(a + b) == Pow2(a) * Pow2(b)
  {
    if b > 0 {
      Pow2Add(a, b - 1);
      assert Pow2(a + b) == 2 * Pow2(a + b - 1);
    }
  }

  lemma {:induction false} Pow2Monotone(a: nat, b: nat)
    requires a <= b
    ensures Pow2(a) <= Pow2(b)
  {
    if a < b {
      Pow2Monotone(a, b - 1);
    }
  }

  lemma {:induction false} Pow2Byte()
    ensures Pow2(8) == 256
  {
  }

  function Zeros(n: nat): (r: Bits)
    ensures |r| == n
    ensures forall i :: 0 <= i < n ==> !r[i]
  {
    seq(n, _ => false)
  }

  function Ones(n: nat): (r: Bits)
    ensures |r| == n
    ensures forall i :: 0 <= i < n ==> r[i]
  {
    seq(n, _ => true)
  }

  /** Reads a literal '0'/'1' string of the source as a bit stream. */
  function ParseBits(s: string): (r: Bits)
    ensures |r| == |s|
    ensures forall i :: 0 <= i < |s| ==> (r[i] <==> s[i] == '1')
  {
    seq(|s|, i requires 0 <= i < |s| => s[i] == '1')
  }

  /** The canonical 16-bit end marker '1111111111111110' (common/file_utils.py,
      common/bit_manipulation.py, steganography_utils.py and
      tempCodeRunnerFile.py all spell out this same literal). */
  const DelimiterText: string := "1111111111111110"

  const Delimiter: Bits := ParseBits(DelimiterText)

  /** The delimiter is fifteen ones followed by a single zero. */
  lemma {:induction false} DelimiterShape()
    ensures |Delimiter| == 16
    ensures Delimiter == Ones(15) + [false]
  {
    assert |DelimiterText| == 16;
    forall i | 0 <= i < 16
      ensures Delimiter[i] == (Ones(15) + [false])[i]
    {
      assert DelimiterText[i] == (if i < 15 then '1' else '0');
    }
  }

  /** Only the delimiter's length, for proofs that need nothing else. */
  lemma {:induction false} DelimiterLength()
    ensures |Delimiter| == 16
  {
  }

  // ---------------------------------------------------------------------------
  // int(s, 2) and format(n, '0wb')
  // ---------------------------------------------------------------------------

  /** The unsigned value of a bit string read most-significant bit first:
      Python's `int(s, 2)` for a non-empty `s` (the empty string is an error
      there; callers model that case themselves). */
  function Value(b: Bits): nat
  {
    if |b| == 0 then 0 else 2 * Value(b[..|b| - 1]) + (if b[|b| - 1] then 1 else 0)
  }

  /** `format(n, '0wb')`: the binary digits of `n`, left-padded with zeros to
      at least `w` digits; longer than `w` only when `n >= 2^w`. */
  function Bin(n: nat, w: nat): (r: Bits)
    ensures n < Pow2(w) ==> |r| == w
    decreases n + w
  {
    if n == 0 && w == 0 then []
    else Bin(n / 2, if w == 0 then 0 else w - 1) + [n % 2 == 1]
  }

  /** `format` never truncates: at least `w` digits, and a number too wide
      for `w` digits gets more of them, led by a one. */
  lemma {:induction false} BinWide(n: nat, w: nat)
    ensures |Bin(n, w)| >= w
    ensures n >= Pow2(w) ==> |Bin(n, w)| > w && Bin(n, w)[0]
    decreases n + w
  {
    if !(n == 0 && w == 0) {
      var w' := if w == 0 then 0 else w - 1;
      BinWide(n / 2, w');
      if n >= Pow2(w) && n / 2 < Pow2(w') {
        assert w == 0 && n == 1;
        assert Bin(0, 0) == [];
      }
    }
  }

  lemma {:induction false} ValueBound(b: Bits)
    ensures Value(b) < Pow2(|b|)
  {
    if |b| > 0 {
      ValueBound(b[..|b| - 1]);
    }
  }

  lemma {:induction false} ValueBoundByte(b: Bits)
    requires |b| <= 8
    ensures Value(b) < 256
  {
    ValueBound(b);
    Pow2Monotone(|b|, 8);
    Pow2Byte();
  }

  /** Reading a concatenation MSB-first shifts the first part left. */
  lemma {:induction false} ValueConcat(a: Bits, b: Bits)
    ensures Value(a + b) == Value(a) * Pow2(|b|) + Value(b)
  {
    if |b| == 0 {
      assert a + b == a;
    } else {
      var b' := b[..|b| - 1];
      var c := if b[|b| - 1] then 1 else 0;
      assert (a + b)[..|a + b| - 1] == a + b';
      assert (a + b)[|a + b| - 1] == b[|b| - 1];
      ValueConcat(a, b');
      var x, p, y := Value(a), Pow2(|b'|), Value(b');
      assert Value(a + b) == 2 * Value(a + b') + c;
      assert Value(a + b') == x * p + y;
      assert Value(b) == 2 * y + c;
      assert Pow2(|b|) == 2 * p;
      assert x * (2 * p) == 2 * (x * p) by { MulAssoc(x, p); }
    }
  }

  lemma {:induction false} MulAssoc(x: int, p: int)
    ensures x * (2 * p) == 2 * (x * p)
  {
  }

  lemma {:induction false} ValueZeros(n: nat)
    ensures Value(Zeros(n)) == 0
  {
    if n > 0 {
      assert Zeros(n)[..n - 1] == Zeros(n - 1);
      ValueZeros(n - 1);
    }
  }

  /** Leading zeros do not change the value: `int('00' + s, 2) == int(s, 2)`. */
  lemma {:induction false} LeadingZeros(n: nat, b: Bits)
    ensures Value(Zeros(n) + b) == Value(b)
  {
    ValueConcat(Zeros(n), b);
    ValueZeros(n);
  }

  /** A bit string has value zero exactly when it holds no '1'. */
  lemma {:induction false} ValueZeroIff(b: Bits)
    ensures Value(b) == 0 <==> forall i :: 0 <= i < |b| ==> !b[i]
  {
    if |b| > 0 {
      var b' := b[..|b| - 1];
      ValueZeroIff(b');
      if Value(b) == 0 {
        forall i | 0 <= i < |b| ensures !b[i] {
          if i < |b| - 1 { assert b[i] == b'[i]; }
        }
      }
      if forall i :: 0 <= i < |b| ==> !b[i] {
        forall i | 0 <= i < |b'| ensures !b'[i] {
          assert b'[i] == b[i];
        }
      }
    }
  }

  lemma {:induction false} ValueOfBin(n: nat, w: nat)
    ensures Value(Bin(n, w)) == n
    decreases n + w
  {
    if !(n == 0 && w == 0) {
      var w' := if w == 0 then 0 else w - 1;
      var r := Bin(n / 2, w') + [n % 2 == 1];
      assert r[..|r| - 1] == Bin(n / 2, w');
      ValueOfBin(n / 2, w');
    }
  }

  lemma {:induction false} BinOfValue(b: Bits)
    ensures Bin(Value(b), |b|) == b
  {
    if |b| > 0 {
      var b' := b[..|b| - 1];
      BinOfValue(b');
      var v := Value(b);
      assert v / 2 == Value(b');
      assert (v % 2 == 1) == b[|b| - 1];
      assert b == b' + [b[|b| - 1]];
    }
  }

  /** Two bit strings of equal length with equal values are equal. */
  lemma {:induction false} ValueInjective(a: Bits, b: Bits)
    requires |a| == |b| && Value(a) == Value(b)
    ensures a == b
  {
    BinOfValue(a);
    BinOfValue(b);
  }

  lemma {:induction false} DivBound(n: nat, a: nat, b: nat)
    requires b >= 1 && n < a * b
    ensures n / b < a
  {
    assert (n / b) * b <= n;
    MulCancel(n / b, a, b);
  }

  lemma {:induction false} MulCancel(x: nat, a: nat, b: nat)
    requires b >= 1 && x * b < a * b
    ensures x < a
  {
  }

  /** A `w`-digit binary number splits into its high `w - k` and low `k` digits. */
  lemma {:induction false} BinSplit(n: nat, w: nat, k: nat)
    requires n < Pow2(w) && k <= w
    ensures Bin(n, w) == Bin(n / Pow2(k), w - k) + Bin(n % Pow2(k), k)
  {
    var q, r := n / Pow2(k), n % Pow2(k);
    Pow2Add(w - k, k);
    assert Pow2(w) == Pow2(w - k) * Pow2(k);
    DivModSplit(n, Pow2(w - k), Pow2(k));
    assert q < Pow2(w - k) && r < Pow2(k) && n == q * Pow2(k) + r;
    BinJoin(n, w, k, q, r);
  }

  lemma {:induction false} BinJoin(n: nat, w: nat, k: nat, q: nat, r: nat)
    requires k <= w && q < Pow2(w - k) && r < Pow2(k) && n == q * Pow2(k) + r
    ensures Bin(n, w) == Bin(q, w - k) + Bin(r, k)
  {
    var x := Bin(q, w - k) + Bin(r, k);
    JoinBins(q, w - k, r, k);
    assert Value(x) == n;
    assert |x| == w;
    BinOfValue(x);
    assert Bin(Value(x), |x|) == x;
    assert Bin(n, w) == x;
  }

  lemma {:induction false} DivModSplit(n: nat, a: nat, p: nat)
    requires p >= 1 && n < a * p
    ensures n == (n / p) * p + n % p && n % p < p && n / p < a
  {
    DivBound(n, a, p);
  }

  /** Writing `q` in `a` digits followed by `r` in `b` digits gives `q * 2^b + r` in `a + b` digits. */
  lemma {:induction false} JoinBins(q: nat, a: nat, r: nat, b: nat)
    requires q < Pow2(a) && r < Pow2(b)
    ensures |Bin(q, a) + Bin(r, b)| == a + b
    ensures Value(Bin(q, a) + Bin(r, b)) == q * Pow2(b) + r
  {
    ValueConcat(Bin(q, a), Bin(r, b));
    ValueOfBin(q, a);
    ValueOfBin(r, b);
  }

  /** A number below `2^k` written in `w >= k` digits is zeros, then its `k` digits. */
  lemma {:induction false} BinWiden(n: nat, k: nat, w: nat)
    requires n < Pow2(k) && k <= w
    ensures Bin(n, w) == Zeros(w - k) + Bin(n, k)
  {
    var x := Zeros(w - k) + Bin(n, k);
    LeadingZeros(w - k, Bin(n, k));
    ValueOfBin(n, k);
    assert Value(x) == n;
    assert |x| == w;
    BinOfValue(x);
    assert Bin(Value(x), |x|) == x;
  }

  /** Digit `j` of a `w`-digit binary number is `(n >> (w - 1 - j)) & 1`. */
  lemma {:induction false} BinAt(n: nat, w: nat, j: nat)
    requires n < Pow2(w) && j < w
    ensures Bin(n, w)[j] == ((n / Pow2(w - 1 - j)) % 2 == 1)
  {
    var k := w - 1 - j;
    var p := Pow2(k);
    Pow2Add(w - k, k);
    DivModSplit(n, Pow2(w - k), p);
    BinDigit(n, w, k, n / p, n % p);
  }

  lemma {:induction false} BinDigit(n: nat, w: nat, k: nat, q: nat, r: nat)
    requires k < w && q < Pow2(w - k) && r < Pow2(k) && n == q * Pow2(k) + r
    ensures |Bin(n, w)| == w && Bin(n, w)[w - 1 - k] == (q % 2 == 1)
  {
    BinJoin(n, w, k, q, r);
    BinLast(q, w - k);
  }

  /** The last of `m` digits is the parity bit. */
  lemma {:induction false} BinLast(q: nat, m: nat)
    requires q < Pow2(m) && m >= 1
    ensures |Bin(q, m)| == m && Bin(q, m)[m - 1] == (q % 2 == 1)
  {
    assert Bin(q, m) == Bin(q / 2, m - 1) + [q % 2 == 1];
  }

  // ---------------------------------------------------------------------------
  // Bytes <-> bits
  // ---------------------------------------------------------------------------

  /** `''.join(format(b, '08b') for b in data)`: eight MSB-first bits per byte
      (file_to_bits, convert_payload_to_bits, and main.py's bytes_to_bits). */
  function BytesToBits(bs: seq<byte>): (r: Bits)
    ensures |r| == 8 * |bs|
  {
    if |bs| == 0 then [] else Bin(bs[0], 8) + BytesToBits(bs[1..])
  }

  lemma {:induction false} BytesToBitsAppend(a: seq<byte>, b: seq<byte>)
    ensures BytesToBits(a + b) == BytesToBits(a) + BytesToBits(b)
  {
    if |a| > 0 {
      assert (a + b)[1..] == a[1..] + b;
      BytesToBitsAppend(a[1..], b);
    } else {
      assert a + b == b;
    }
  }

  /** Byte `i` occupies bits `8i .. 8i+8`, MSB first, and reads back as itself. */
  lemma {:induction false} BytesToBitsAt(bs: seq<byte>, i: nat)
    requires i < |bs|
    ensures BytesToBits(bs)[8 * i..8 * i + 8] == Bin(bs[i], 8)
    ensures Value(BytesToBits(bs)[8 * i..8 * i + 8]) == bs[i]
  {
    Pow2Byte();
    if i > 0 {
      BytesToBitsAt(bs[1..], i - 1);
      assert BytesToBits(bs)[8 * i..8 * i + 8] == BytesToBits(bs[1..])[8 * (i - 1)..8 * (i - 1) + 8];
    }
    ValueOfBin(bs[i], 8);
  }

  /** `[int(s[i:i+8], 2) for i in range(0, len(s), 8)]`: chunks of eight bits
      taken from index 0, the last chunk possibly shorter and then read as its
      own value (bits_to_file, save_zip_from_metadata, and the bits_to_bytes
      that main.py calls but does not define). */
  function ChunkBytes(b: Bits): (r: seq<byte>)
    ensures |r| == (|b| + 7) / 8
    decreases |b|
  {
    if |b| == 0 then []
    else if |b| <= 8 then ValueBoundByte(b); [Value(b)]
    else ValueBoundByte(b[..8]); [Value(b[..8])] + ChunkBytes(b[8..])
  }

  /** Byte `i` of the chunking is the value of bits `8i .. min(8i+8, |b|)`:
      full chunks are whole bytes and a short last chunk such as '101' becomes 5. */
  lemma {:induction false} ChunkBytesAt(b: Bits, i: nat)
    requires i < (|b| + 7) / 8
    ensures ChunkBytes(b)[i] == Value(b[8 * i..Min(8 * i + 8, |b|)])
  {
    if i > 0 {
      ChunkBytesAt(b[8..], i - 1);
      assert b[8..][8 * (i - 1)..Min(8 * (i - 1) + 8, |b| - 8)] == b[8 * i..Min(8 * i + 8, |b|)];
    } else if |b| <= 8 {
      assert b[0..|b|] == b;
    }
  }

  lemma {:induction false} ChunkBytesAppend(a: Bits, c: Bits)
    requires |a| % 8 == 0
    ensures ChunkBytes(a + c) == ChunkBytes(a) + ChunkBytes(c)
    decreases |a|
  {
    if |a| == 0 {
      assert a + c == c;
    } else if |c| == 0 {
      assert a + c == a;
    } else {
      assert (a + c)[..8] == a[..8];
      assert (a + c)[8..] == a[8..] + c;
      ChunkBytesAppend(a[8..], c);
      if |a| == 8 {
        assert a[8..] == [];
        assert a[..8] == a;
      }
    }
  }

  /** Chunking undoes the 8-bit expansion: bits_to_file(file_to_bits(data)) == data. */
  lemma {:induction false} ChunkBytesOfBytesToBits(bs: seq<byte>)
    ensures ChunkBytes(BytesToBits(bs)) == bs
  {
    if |bs| > 0 {
      var b := BytesToBits(bs);
      ValueOfBin(bs[0], 8);
      Pow2Byte();
      assert b[..8] == Bin(bs[0], 8);
      assert b[8..] == BytesToBits(bs[1..]);
      ChunkBytesOfBytesToBits(bs[1..]);
      if |bs| == 1 {
        assert b == b[..8];
      }
    }
  }

  /** And the 8-bit expansion undoes chunking of a whole number of bytes. */
  lemma {:induction false} BytesToBitsOfChunkBytes(b: Bits)
    requires |b| % 8 == 0
    ensures BytesToBits(ChunkBytes(b)) == b
    decreases |b|
  {
    if |b| > 0 {
      BinOfValue(b[..8]);
      BytesToBitsOfChunkBytes(b[8..]);
      if |b| == 8 {
        assert b[..8] == b;
      } else {
        assert b == b[..8] + b[8..];
      }
    }
  }

  // ---------------------------------------------------------------------------
  // int.from_bytes / int.to_bytes, big-endian
  // ---------------------------------------------------------------------------

  /** `int.from_bytes(bs, byteorder='big')`. */
  function FromBytes(bs: seq<byte>): (r: nat)
    ensures r < Pow2(8 * |bs|)
  {
    if |bs| == 0 then 0
    else
      var n := |bs| - 1;
      Pow2Add(8 * n, 8);
      Pow2Byte();
      ShiftByte(FromBytes(bs[..n]), Pow2(8 * n), bs[n]);
      FromBytes(bs[..n]) * 256 + bs[n]
  }

  /** Appending a byte to a number below `p` stays below `256 * p`. */
  lemma {:induction false} ShiftByte(x: nat, p: nat, d: byte)
    requires x < p
    ensures x * 256 + d < p * 256
  {
  }

  lemma {:induction false} FromBytesIsValue(bs: seq<byte>)
    ensures FromBytes(bs) == Value(BytesToBits(bs))
  {
    if |bs| > 0 {
      var front := bs[..|bs| - 1];
      var last := bs[|bs| - 1];
      assert bs == front + [last];
      BytesToBitsAppend(front, [last]);
      assert BytesToBits([last]) == Bin(last, 8);
      ValueConcat(BytesToBits(front), Bin(last, 8));
      ValueOfBin(last, 8);
      Pow2Byte();
      FromBytesIsValue(front);
    }
  }

  lemma {:induction false} FromBytesInjective(x: seq<byte>, y: seq<byte>)
    requires |x| == |y| && FromBytes(x) == FromBytes(y)
    ensures x == y
  {
    FromBytesIsValue(x);
    FromBytesIsValue(y);
    ValueInjective(BytesToBits(x), BytesToBits(y));
    ChunkBytesOfBytesToBits(x);
    ChunkBytesOfBytesToBits(y);
  }

  /** `v.to_bytes(n, byteorder='big')`; `None` stands for the OverflowError
      Python raises when `v` does not fit in `n` bytes. */
  function ToBytes(v: nat, n: nat): (r: Option<seq<byte>>)
    ensures r.Some? <==> v < Pow2(8 * n)
    ensures r.Some? ==> |r.value| == n && FromBytes(r.value) == v
  {
    if n == 0 then
      if v == 0 then Some([]) else None
    else
      ToBytesStep(v, n);
      match ToBytes(v / 256, n - 1)
      case None => None
      case Some(front) =>
        FromBytesSnoc(front, v % 256);
        Some(front + [v % 256])
  }

  /** `v` fits in `n` bytes exactly when `v >> 8` fits in `n - 1`. */
  lemma {:induction false} ToBytesStep(v: nat, n: nat)
    requires n >= 1
    ensures v < Pow2(8 * n) <==> v / 256 < Pow2(8 * (n - 1))
    ensures v == (v / 256) * 256 + v % 256
  {
    Pow2Add(8 * (n - 1), 8);
    Pow2Byte();
    var p := Pow2(8 * (n - 1));
    assert Pow2(8 * n) == p * 256;
    if v / 256 < p {
      assert v / 256 + 1 <= p;
      MulMonotone(v / 256 + 1, p, 256);
    } else {
      MulMonotone(p, v / 256, 256);
    }
  }

  lemma {:induction false} MulMonotone(a: nat, b: nat, c: nat)
    requires a <= b
    ensures a * c <= b * c
  {
  }

  lemma {:induction false} FromBytesSnoc(front: seq<byte>, b: byte)
    ensures FromBytes(front + [b]) == FromBytes(front) * 256 + b
  {
    assert (front + [b])[..|front|] == front;
  }

  /** Packing a whole number of bytes' worth of bits gives their chunking. */
  lemma {:induction false} ToBytesOfBits(b: Bits)
    requires |b| % 8 == 0
    ensures ToBytes(Value(b), |b| / 8) == Some(ChunkBytes(b))
  {
    ValueBound(b);
    var r := ToBytes(Value(b), |b| / 8);
    assert r.Some?;
    FromBytesIsValue(ChunkBytes(b));
    BytesToBitsOfChunkBytes(b);
    FromBytesInjective(r.value, ChunkBytes(b));
  }

  /** `int(s, 2).to_bytes(len(s) // 8, 'big')`: succeeds exactly when the
      `len(s) % 8` leading bits are all zero, and then yields the chunking of
      the remaining bits; leading bits that are not zero raise OverflowError. */
  lemma {:induction false} ToBytesFloor(b: Bits)
    ensures ToBytes(Value(b), |b| / 8) ==
      (if forall i :: 0 <= i < |b| % 8 ==> !b[i] then Some(ChunkBytes(b[|b| % 8..])) else None)
  {
    var head := b[..|b| % 8];
    HeadSplit(b);
    assert (forall i :: 0 <= i < |b| % 8 ==> !b[i]) <==> (forall i :: 0 <= i < |head| ==> !head[i]) by {
      forall i | 0 <= i < |head| ensures b[i] == head[i] { }
    }
    ValueZeroIff(head);
    if Value(head) == 0 {
      FloorFits(b);
    } else {
      FloorOverflows(b);
    }
  }

  /** The value of `b` split at its first `len % 8` bits. */
  lemma {:induction false} HeadSplit(b: Bits)
    ensures |b[|b| % 8..]| == 8 * (|b| / 8)
    ensures Value(b) == Value(b[..|b| % 8]) * Pow2(8 * (|b| / 8)) + Value(b[|b| % 8..])
  {
    var r := |b| % 8;
    assert b == b[..r] + b[r..];
    ValueConcat(b[..r], b[r..]);
  }

  lemma {:induction false} FloorFits(b: Bits)
    requires Value(b[..|b| % 8]) == 0
    ensures ToBytes(Value(b), |b| / 8) == Some(ChunkBytes(b[|b| % 8..]))
  {
    var tail := b[|b| % 8..];
    HeadSplit(b);
    assert |tail| / 8 == |b| / 8;
    ToBytesOfBits(tail);
  }

  lemma {:induction false} FloorOverflows(b: Bits)
    requires Value(b[..|b| % 8]) != 0
    ensures ToBytes(Value(b), |b| / 8).None?
  {
    HeadSplit(b);
    MulAtLeast(Value(b[..|b| % 8]), Pow2(8 * (|b| / 8)));
  }

  lemma {:induction false} MulAtLeast(a: nat, p: nat)
    requires a >= 1
    ensures a * p >= p
  {
  }

  /** `int(s, 2).to_bytes((len(s) + 7) // 8, 'big')` always fits, and yields
      the chunking of `s` left-padded with zeros to a whole number of bytes. */
  lemma {:induction false} ToBytesCeil(b: Bits)
    ensures ToBytes(Value(b), (|b| + 7) / 8) == Some(ChunkBytes(Zeros((8 - |b| % 8) % 8) + b))
  {
    var pad := (8 - |b| % 8) % 8;
    var padded := Zeros(pad) + b;
    LeadingZeros(pad, b);
    assert |padded| == |b| + pad;
    assert |padded| % 8 == 0 && |padded| / 8 == (|b| + 7) / 8;
    ToBytesOfBits(padded);
  }

  // ---------------------------------------------------------------------------
  // str.find and str.endswith
  // ---------------------------------------------------------------------------

  ghost predicate OccursAt(s: Bits, p: Bits, i: nat)
  {
    i + |p| <= |s| && s[i..i + |p|] == p
  }

  /** `s.find(p, i)`: the first index at or after `i` where `p` occurs. */
  function FindFrom(s: Bits, p: Bits, i: nat): (r: Option<nat>)
    requires i <= |s|
    ensures r.Some? ==> i <= r.value && OccursAt(s, p, r.value)
    ensures r.Some? ==> forall m: nat :: i <= m < r.value ==> !OccursAt(s, p, m)
    ensures r.None? ==> forall m: nat :: i <= m ==> !OccursAt(s, p, m)
    decreases |s| - i
  {
    if i + |p| > |s| then None
    else if s[i..i + |p|] == p then Some(i)
    else if i == |s| then None
    else FindFrom(s, p, i + 1)
  }

  function Find(s: Bits, p: Bits): (r: Option<nat>)
    ensures r.Some? ==> OccursAt(s, p, r.value) && forall m: nat :: m < r.value ==> !OccursAt(s, p, m)
    ensures r.None? ==> Absent(s, p)
  {
    FindFrom(s, p, 0)
  }

  /** Any index where `p` occurs and before which it does not occur is what
      `find` returns. */
  lemma {:induction false} FindIs(s: Bits, p: Bits, j: nat)
    requires OccursAt(s, p, j)
    requires forall m: nat :: m < j ==> !OccursAt(s, p, m)
    ensures Find(s, p) == Some(j)
  {
  }

  /** Bits appended after a first occurrence do not move it. */
  lemma {:induction false} FindExtend(s: Bits, c: Bits, p: Bits)
    requires Find(s, p).Some?
    ensures Find(s + c, p) == Find(s, p)
  {
    var j := Find(s, p).value;
    assert OccursAt(s, p, j);
    assert (s + c)[j..j + |p|] == s[j..j + |p|];
    forall m: nat | m < j
      ensures !OccursAt(s + c, p, m)
    {
      assert !OccursAt(s, p, m);
      assert (s + c)[m..m + |p|] == s[m..m + |p|];
    }
    FindIs(s + c, p, j);
  }

  /** `s.endswith(p)`. */
  function EndsWith(s: Bits, p: Bits): (r: bool)
    ensures r <==> |p| <= |s| && forall i :: 0 <= i < |p| ==> s[|s| - |p| + i] == p[i]
  {
    |p| <= |s| && s[|s| - |p|..] == p
  }

  /** `p` occurs nowhere in `s`. */
  ghost predicate Absent(s: Bits, p: Bits)
  {
    forall m: nat :: !OccursAt(s, p, m)
  }

  /** A stream `payload + marker` in which `marker` does not occur inside
      `payload + marker[..|marker| - 1]` has its first occurrence of `marker`
      exactly where the payload ends. */
  lemma {:induction false} FindAfterPayload(payload: Bits, marker: Bits)
    requires |marker| >= 1
    requires Absent(payload + marker[..|marker| - 1], marker)
    ensures Find(payload + marker, marker) == Some(|payload|)
  {
    var s := payload + marker;
    var t := payload + marker[..|marker| - 1];
    assert s[|payload|..|payload| + |marker|] == marker;
    forall m: nat | m < |payload|
      ensures !OccursAt(s, marker, m)
    {
      assert s[m..m + |marker|] == t[m..m + |marker|];
      assert !OccursAt(t, marker, m);
    }
    FindIs(s, marker, |payload|);
  }

  /** The canonical delimiter cannot straddle the end of a payload: it ends
      with a zero that is preceded by fifteen ones, so if it does not occur
      inside the payload it does not occur inside payload + its first fifteen
      bits either. */
  lemma {:induction false} DelimiterNotStraddling(payload: Bits)
    requires Absent(payload, Delimiter)
    ensures Absent(payload + Delimiter[..15], Delimiter)
  {
    DelimiterShape();
    var t := payload + Delimiter[..15];
    forall m: nat
      ensures !OccursAt(t, Delimiter, m)
    {
      if m + 16 > |t| {
      } else if m + 16 <= |payload| {
        assert payload[m..m + 16] == t[m..m + 16];
        assert !OccursAt(payload, Delimiter, m);
      } else {
        assert t[m + 15] == Delimiter[m + 15 - |payload|];
        assert t[m..m + 16][15] != Delimiter[15];
      }
    }
  }

  /** A payload in which the delimiter does not occur, followed by the
      delimiter and anything at all: `find` stops exactly where the payload
      ends. */
  lemma {:induction false} FindDelimiterAfter(payload: Bits, rest: Bits)
    requires Absent(payload, Delimiter)
    ensures Find(payload + Delimiter + rest, Delimiter) == Some(|payload|)
  {
    DelimiterShape();
    DelimiterNotStraddling(payload);
    assert Delimiter[..|Delimiter| - 1] == Delimiter[..15];
    FindAfterPayload(payload, Delimiter);
    FindExtend(payload + Delimiter, rest, Delimiter);
  }
}

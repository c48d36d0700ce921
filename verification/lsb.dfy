/** Low-bit access to one byte, and the per-byte group writer shared by the
    codec variants.

    A byte `v` is read as its eight digits `format(v, '08b')`; with `k` LSBs in
    use, the first `8 - k` digits are its high part and the last `k` its low
    part.  The variants differ only in how a group of at most `k` payload bits
    becomes the new low part:

    - `set_lsbs` (steganography_utils.py, tempCodeRunnerFile.py) and main.py's
      shift loop pad a short group with zeros on the RIGHT;
    - common/bit_manipulation.py ORs `int(group, 2)` into the masked byte, so a
      short group lands RIGHT-ALIGNED, zeros on the left;
    - test/test.py concatenates the two high digits with the group, so a short
      group yields a number of fewer than eight digits. */
module Lsb {
  import opened Bits

  /** The eight digits `format(v, '08b')` of a byte. */
  function Octet(v: byte): (r: Bits)
    ensures |r| == 8 && Value(r) == v
  {
    Pow2Byte();
    ValueOfBin(v, 8);
    Bin(v, 8)
  }

  /** Eight digits are the digits of their own value. */
  lemma {:induction false} OctetOfValue(x: Bits)
    requires |x| == 8
    ensures Value(x) < 256 && Octet(Value(x)) == x
  {
    ValueBoundByte(x);
    BinOfValue(x);
  }

  /** `format(v, '08b')[:-k]`: the high `8 - k` digits, worth `v >> k`. */
  function HighBits(v: byte, k: nat): (r: Bits)
    requires 1 <= k <= 8
    ensures |r| == 8 - k && Value(r) == v / Pow2(k)
  {
    ByteSplit(v, k);
    Octet(v)[..8 - k]
  }

  /** `format(v, '08b')[-k:]` (get_lsbs): the low `k` digits, worth `v % 2^k`. */
  function GetLsbs(v: byte, k: nat): (r: Bits)
    requires 1 <= k <= 8
    ensures |r| == k && Value(r) == v % Pow2(k)
  {
    ByteSplit(v, k);
    Octet(v)[8 - k..]
  }

  lemma {:induction false} ByteSplit(v: byte, k: nat)
    requires k <= 8
    ensures Octet(v)[..8 - k] == Bin(v / Pow2(k), 8 - k)
    ensures Octet(v)[8 - k..] == Bin(v % Pow2(k), k)
    ensures Value(Bin(v / Pow2(k), 8 - k)) == v / Pow2(k)
    ensures Value(Bin(v % Pow2(k), k)) == v % Pow2(k)
  {
    Pow2Byte();
    Pow2Add(8 - k, k);
    DivModSplit(v, Pow2(8 - k), Pow2(k));
    ByteSplitAt(v, k, v / Pow2(k), v % Pow2(k));
  }

  lemma {:induction false} ByteSplitAt(v: byte, k: nat, q: nat, r: nat)
    requires k <= 8 && q < Pow2(8 - k) && r < Pow2(k) && v == q * Pow2(k) + r
    ensures Octet(v)[..8 - k] == Bin(q, 8 - k) && Value(Bin(q, 8 - k)) == q
    ensures Octet(v)[8 - k..] == Bin(r, k) && Value(Bin(r, k)) == r
  {
    BinJoin(v, 8, k, q, r);
    assert |Bin(q, 8 - k)| == 8 - k;
    ValueOfBin(q, 8 - k);
    ValueOfBin(r, k);
  }

  /** A byte is its high digits followed by its low digits. */
  lemma {:induction false} HighLowJoin(v: byte, k: nat)
    requires 1 <= k <= 8
    ensures Octet(v) == HighBits(v, k) + GetLsbs(v, k)
  {
  }

  /** The byte whose high digits are those of `v` and whose low `k` digits
      are `low`. */
  function Replace(v: byte, k: nat, low: Bits): (r: byte)
    requires 1 <= k <= 8 && |low| == k
    ensures HighBits(r, k) == HighBits(v, k)
    ensures GetLsbs(r, k) == low
  {
    OctetOfValue(HighBits(v, k) + low);
    Value(HighBits(v, k) + low)
  }

  /** Only the high digits and the low digits determine a byte. */
  lemma {:induction false} ReplaceUnique(v: byte, k: nat, low: Bits, r: byte)
    requires 1 <= k <= 8 && |low| == k
    requires HighBits(r, k) == HighBits(v, k) && GetLsbs(r, k) == low
    ensures r == Replace(v, k, low)
  {
    HighLowJoin(r, k);
    HighLowJoin(Replace(v, k, low), k);
    assert Octet(r) == Octet(Replace(v, k, low));
  }

  /** Replacing the low digits by the ones already there changes nothing. */
  lemma {:induction false} ReplaceSame(v: byte, k: nat)
    requires 1 <= k <= 8
    ensures Replace(v, k, GetLsbs(v, k)) == v
  {
    ReplaceUnique(v, k, GetLsbs(v, k), v);
  }

  /** In numbers: the result keeps `v >> k` and has `Value(low)` as its
      remainder modulo `2^k`. */
  lemma {:induction false} ReplaceArith(v: byte, k: nat, low: Bits)
    requires 1 <= k <= 8 && |low| == k
    ensures Replace(v, k, low) / Pow2(k) == v / Pow2(k)
    ensures Replace(v, k, low) % Pow2(k) == Value(low)
    ensures Replace(v, k, low) == (v / Pow2(k)) * Pow2(k) + Value(low)
  {
    var r := Replace(v, k, low);
    assert Value(HighBits(r, k)) == r / Pow2(k);
    assert Value(GetLsbs(r, k)) == r % Pow2(k);
    Pow2Byte();
    Pow2Add(8 - k, k);
    DivModSplit(r, Pow2(8 - k), Pow2(k));
  }

  // ---------------------------------------------------------------------------
  // steganography_utils.set_lsbs / tempCodeRunnerFile.set_lsbs
  // ---------------------------------------------------------------------------

  /** `set_lsbs(value, k, bits)`: `bits.ljust(k, '0')` replaces the last `k`
      digits of `format(value, '08b')`. */
  function SetLsbs(v: byte, k: nat, bits: Bits): (r: byte)
    requires 1 <= k <= 8 && |bits| <= k
    ensures HighBits(r, k) == HighBits(v, k)
    ensures GetLsbs(r, k) == bits + Zeros(k - |bits|)
  {
    Replace(v, k, bits + Zeros(k - |bits|))
  }

  /** In numbers, a short group of `m` bits is shifted up by `k - m`. */
  lemma {:induction false} SetLsbsArith(v: byte, k: nat, bits: Bits)
    requires 1 <= k <= 8 && |bits| <= k
    ensures SetLsbs(v, k, bits) / Pow2(k) == v / Pow2(k)
    ensures SetLsbs(v, k, bits) % Pow2(k) == Value(bits) * Pow2(k - |bits|)
  {
    ReplaceArith(v, k, bits + Zeros(k - |bits|));
    ValueConcat(bits, Zeros(k - |bits|));
    ValueZeros(k - |bits|);
  }

  // ---------------------------------------------------------------------------
  // main.py's set_bits / get_bits (called there, defined nowhere)
  // ---------------------------------------------------------------------------

  /** `get_bits(v, k)`, taken to be the number held in the low `k` bits. */
  function GetBits(v: byte, k: nat): (r: nat)
    requires 1 <= k <= 8
    ensures r < Pow2(k)
    ensures Bin(r, k) == GetLsbs(v, k)
  {
    ValueBound(GetLsbs(v, k));
    BinOfValue(GetLsbs(v, k));
    Value(GetLsbs(v, k))
  }

  /** `set_bits(v, d, k)`, taken to replace the low `k` bits of `v` by the
      number `d < 2^k`: the high digits stay and `get_bits` reads `d` back. */
  function SetBits(v: byte, d: nat, k: nat): (r: byte)
    requires 1 <= k <= 8 && d < Pow2(k)
    ensures HighBits(r, k) == HighBits(v, k)
    ensures GetBits(r, k) == d
  {
    ValueOfBin(d, k);
    Replace(v, k, Bin(d, k))
  }

  /** In numbers: `get_bits` is `v % 2^k`, and `set_bits` keeps `v >> k`
      and leaves `d` as the remainder. */
  lemma {:induction false} BitsArith(v: byte, d: nat, k: nat)
    requires 1 <= k <= 8 && d < Pow2(k)
    ensures GetBits(v, k) == v % Pow2(k)
    ensures SetBits(v, d, k) / Pow2(k) == v / Pow2(k) && SetBits(v, d, k) % Pow2(k) == d
  {
    ReplaceArith(v, k, Bin(d, k));
    ValueOfBin(d, k);
  }

  // ---------------------------------------------------------------------------
  // common/bit_manipulation.py: (v & mask) | int(group, 2)
  // ---------------------------------------------------------------------------

  /** Python's `a & b` on bytes: digit by digit. */
  function BitAnd(a: byte, b: byte): (r: byte)
    ensures forall i :: 0 <= i < 8 ==> Octet(r)[i] == (Octet(a)[i] && Octet(b)[i])
  {
    var x := seq(8, i requires 0 <= i < 8 => Octet(a)[i] && Octet(b)[i]);
    OctetOfValue(x);
    Value(x)
  }

  /** Python's `a | b` on bytes. */
  function BitOr(a: byte, b: byte): (r: byte)
    ensures forall i :: 0 <= i < 8 ==> Octet(r)[i] == (Octet(a)[i] || Octet(b)[i])
  {
    var x := seq(8, i requires 0 <= i < 8 => Octet(a)[i] || Octet(b)[i]);
    OctetOfValue(x);
    Value(x)
  }

  /** Python's `a ^ b` on bytes. */
  function BitXor(a: byte, b: byte): (r: byte)
    ensures forall i :: 0 <= i < 8 ==> Octet(r)[i] == (Octet(a)[i] != Octet(b)[i])
  {
    var x := seq(8, i requires 0 <= i < 8 => Octet(a)[i] != Octet(b)[i]);
    OctetOfValue(x);
    Value(x)
  }

  lemma {:induction false} ValueOnes(n: nat)
    ensures Value(Ones(n)) == Pow2(n) - 1
  {
    if n > 0 {
      assert Ones(n)[..n - 1] == Ones(n - 1);
      ValueOnes(n - 1);
    }
  }

  /** A number of at most `m <= 8` digits, as a byte: zeros, then its digits. */
  lemma {:induction false} OctetOfShort(x: Bits)
    requires |x| <= 8
    ensures Value(x) < 256 && Octet(Value(x)) == Zeros(8 - |x|) + x
  {
    LeadingZeros(8 - |x|, x);
    OctetOfValue(Zeros(8 - |x|) + x);
  }

  /** `255 ^ ((1 << k) - 1)`: the mask keeping the high `8 - k` digits. */
  function Mask(k: nat): (r: byte)
    requires 1 <= k <= 8
    ensures Octet(r) == Ones(8 - k) + Zeros(k)
  {
    ValueOnes(k);
    ValueOnes(8);
    OctetOfShort(Ones(k));
    OctetOfShort(Ones(8));
    assert Ones(8) == Zeros(0) + Ones(8);
    var r := BitXor(255, Pow2(k) - 1);
    assert Octet(r) == Ones(8 - k) + Zeros(k) by {
      forall i | 0 <= i < 8
        ensures Octet(r)[i] == (Ones(8 - k) + Zeros(k))[i]
      {
        assert Octet(255)[i];
        assert Octet(Pow2(k) - 1)[i] == (Zeros(8 - k) + Ones(k))[i];
      }
    }
    r
  }

  /** `(v & mask) | int(group, 2)` for a group of `1..k` bits. */
  function MaskedOr(v: byte, k: nat, group: Bits): (r: byte)
    requires 1 <= k <= 8 && 1 <= |group| <= k
    ensures HighBits(r, k) == HighBits(v, k)
    ensures GetLsbs(r, k) == Zeros(k - |group|) + group
  {
    OctetOfShort(group);
    var r := BitOr(BitAnd(v, Mask(k)), Value(group));
    MaskedOrOctet(v, k, group, r);
    HighLowJoin(r, k);
    HighLowJoin(v, k);
    r
  }

  lemma {:induction false} MaskedOrOctet(v: byte, k: nat, group: Bits, r: byte)
    requires 1 <= k <= 8 && 1 <= |group| <= k && Value(group) < 256
    requires r == BitOr(BitAnd(v, Mask(k)), Value(group))
    ensures Octet(r) == HighBits(v, k) + (Zeros(k - |group|) + group)
  {
    OctetOfShort(group);
    var m := BitAnd(v, Mask(k));
    forall i | 0 <= i < 8
      ensures Octet(r)[i] == ((Octet(v)[i] && Octet(Mask(k))[i]) || Octet(Value(group))[i])
    {
      assert Octet(r)[i] == (Octet(m)[i] || Octet(Value(group))[i]);
    }
    MaskedOrDigits(Octet(v), k, group, Octet(r));
  }

  /** The same on digit strings: keep the high digits of `a` under the mask
      and or in the right-aligned group. */
  lemma {:induction false} MaskedOrDigits(a: Bits, k: nat, group: Bits, out: Bits)
    requires 1 <= k <= 8 && 1 <= |group| <= k && |a| == 8 && |out| == 8
    requires forall i :: 0 <= i < 8 ==>
      out[i] == ((a[i] && (Ones(8 - k) + Zeros(k))[i]) || (Zeros(8 - |group|) + group)[i])
    ensures out == a[..8 - k] + (Zeros(k - |group|) + group)
  {
    var want := a[..8 - k] + (Zeros(k - |group|) + group);
    forall i | 0 <= i < 8
      ensures out[i] == want[i]
    {
      assert out[i] == ((a[i] && (Ones(8 - k) + Zeros(k))[i]) || (Zeros(8 - |group|) + group)[i]);
      if i < 8 - k {
        assert want[i] == a[i];
      } else if i < 8 - |group| {
        assert want[i] == false;
      } else {
        assert want[i] == group[i - (8 - |group|)];
      }
    }
  }


  // ---------------------------------------------------------------------------
  // test/test.py: int(r[:-6] + slice, 2)
  // ---------------------------------------------------------------------------

  /** `int(format(v, '08b')[:-k] + group, 2)`: the high digits followed by the
      group, however short. */
  function HighThenGroup(v: byte, k: nat, group: Bits): (r: byte)
    requires 1 <= k <= 8 && |group| <= k
    ensures Octet(r) == Zeros(k - |group|) + HighBits(v, k) + group
  {
    OctetOfShort(HighBits(v, k) + group);
    assert Zeros(k - |group|) + (HighBits(v, k) + group) == Zeros(k - |group|) + HighBits(v, k) + group;
    Value(HighBits(v, k) + group)
  }
}

/** Writing a bit stream into the low bits of a byte sequence, `k` bits per
    byte, and reading it back.

    Every embedding loop of the codec has the same shape: visit the cover
    bytes (or colour channels) in order, give each the next group of at most
    `k` payload bits while bits remain, and stop once they are exhausted.
    `EmbedGroups` is that loop, parameterised by how a short final group is
    written (`Fill`).  Every extraction loop reads the low `k` digits of each
    byte in order; `LsbStream` is that concatenation. */
module Groups {
  import opened Bits
  import opened Lsb

  /** How a group of fewer than `k` bits becomes the new low part of a byte. */
  datatype Fill =
    | ZeroPadded    // set_lsbs and main.py: zeros appended on the right
    | RightAligned  // bit_manipulation.py: `| int(group, 2)`
    | Appended      // test.py: high digits followed by the group

  /** The byte a group of `1..k` bits turns `v` into.  The high digits are
      kept except by test.py's concatenation, and the low digits are the
      group padded on the right, padded on the left, or shifted under the
      high digits. */
  function WriteGroup(v: byte, k: nat, group: Bits, fill: Fill): (r: byte)
    requires 1 <= k <= 8 && 1 <= |group| <= k
    ensures fill != Appended ==> HighBits(r, k) == HighBits(v, k)
    ensures fill == ZeroPadded ==> GetLsbs(r, k) == group + Zeros(k - |group|)
    ensures fill == RightAligned ==> GetLsbs(r, k) == Zeros(k - |group|) + group
    ensures fill == Appended ==> Octet(r) == Zeros(k - |group|) + HighBits(v, k) + group
  {
    match fill
    case ZeroPadded => SetLsbs(v, k, group)
    case RightAligned => MaskedOr(v, k, group)
    case Appended => HighThenGroup(v, k, group)
  }

  /** A full group is written the same way by every fill: it replaces the
      low `k` digits. */
  lemma {:induction false} WriteFullGroup(v: byte, k: nat, group: Bits, fill: Fill)
    requires 1 <= k <= 8 && |group| == k
    ensures WriteGroup(v, k, group, fill) == Replace(v, k, group)
  {
    var r := WriteGroup(v, k, group, fill);
    match fill
    case ZeroPadded =>
      assert group + Zeros(0) == group;
    case RightAligned =>
      assert Zeros(0) + group == group;
      ReplaceUnique(v, k, group, r);
    case Appended =>
      FullAppended(v, k, group, r);
  }

  lemma {:induction false} FullAppended(v: byte, k: nat, group: Bits, r: byte)
    requires 1 <= k <= 8 && |group| == k
    requires Octet(r) == Zeros(k - |group|) + HighBits(v, k) + group
    ensures r == Replace(v, k, group)
  {
    HighLowJoin(r, k);
    assert Octet(r) == HighBits(v, k) + group;
    assert HighBits(r, k) == Octet(r)[..8 - k];
    assert GetLsbs(r, k) == Octet(r)[8 - k..];
    ReplaceUnique(v, k, group, r);
  }

  /** What one iteration of an embedding loop does to one byte and its group. */
  type Writer = (byte, Bits) -> byte

  /** The writer of a fill, as a total function (a group outside `1..k`
      never reaches it). */
  function GroupWriter(k: nat, fill: Fill): Writer
    requires 1 <= k <= 8
  {
    (v: byte, g: Bits) => if 1 <= |g| <= k then WriteGroup(v, k, g, fill) else v
  }

  /** The embedding loop: while payload bits remain, the next byte takes the
      next `min(k, remaining)` bits; once they are exhausted (or the cover
      runs out) the remaining bytes are left as they are. */
  function EmbedWith(cover: seq<byte>, bits: Bits, k: nat, write: Writer): (r: seq<byte>)
    requires k >= 1
    ensures |r| == |cover|
    decreases |cover|
  {
    if |bits| == 0 || |cover| == 0 then cover
    else
      var n := Min(k, |bits|);
      [write(cover[0], bits[..n])] + EmbedWith(cover[1..], bits[n..], k, write)
  }

  /** The embedding loop with one of the codec's fills. */
  function EmbedGroups(cover: seq<byte>, bits: Bits, k: nat, fill: Fill): (r: seq<byte>)
    requires 1 <= k <= 8
    ensures |r| == |cover|
  {
    EmbedWith(cover, bits, k, GroupWriter(k, fill))
  }

  /** Byte `i` receives bits `s .. s+k` with `s = i*k` (cut short at the end
      of the payload); a byte whose group would start at or after the end of
      the payload is unchanged. */
  lemma {:induction false} EmbedGroupsAt(cover: seq<byte>, bits: Bits, k: nat, fill: Fill, i: nat, s: nat)
    requires 1 <= k <= 8 && i < |cover| && s == i * k
    ensures s < |bits| ==>
      EmbedGroups(cover, bits, k, fill)[i] == WriteGroup(cover[i], k, bits[s..Min(s + k, |bits|)], fill)
    ensures s >= |bits| ==> EmbedGroups(cover, bits, k, fill)[i] == cover[i]
  {
    EmbedWithAt(cover, bits, k, GroupWriter(k, fill), i, s);
  }

  lemma {:induction false} EmbedWithAt(cover: seq<byte>, bits: Bits, k: nat, write: Writer, i: nat, s: nat)
    requires k >= 1 && i < |cover| && s == i * k
    ensures s < |bits| ==> EmbedWith(cover, bits, k, write)[i] == write(cover[i], bits[s..Min(s + k, |bits|)])
    ensures s >= |bits| ==> EmbedWith(cover, bits, k, write)[i] == cover[i]
    decreases |cover|, 1
  {
    if |bits| == 0 {
    } else if i == 0 {
      assert s == 0;
      assert bits[s..Min(s + k, |bits|)] == bits[..Min(k, |bits|)];
    } else {
      EmbedWithAtLater(cover, bits, k, write, i, s);
    }
  }

  /** A byte after the first is written by the embedding of the rest. */
  lemma {:induction false} EmbedWithAtLater(cover: seq<byte>, bits: Bits, k: nat, write: Writer, i: nat, s: nat)
    requires k >= 1 && 0 < i < |cover| && s == i * k && |bits| > 0
    ensures s < |bits| ==> EmbedWith(cover, bits, k, write)[i] == write(cover[i], bits[s..Min(s + k, |bits|)])
    ensures s >= |bits| ==> EmbedWith(cover, bits, k, write)[i] == cover[i]
    decreases |cover|, 0
  {
    var r := EmbedWith(cover, bits, k, write);
    var n := Min(k, |bits|);
    var rest := EmbedWith(cover[1..], bits[n..], k, write);
    assert r[i] == rest[i - 1];
    assert cover[1..][i - 1] == cover[i];
    MulPred(i, k);
    EmbedWithAt(cover[1..], bits[n..], k, write, i - 1, s - k);
    if n < k {
      assert bits[n..] == [];
    } else if s < |bits| {
      SliceOfSuffix(bits, n, s - k, Min(s - k + k, |bits| - n));
    }
  }

  lemma {:induction false} SliceOfSuffix(b: Bits, n: nat, lo: nat, hi: nat)
    requires n <= |b| && lo <= hi <= |b| - n
    ensures b[n..][lo..hi] == b[n + lo..n + hi]
  {
  }

  lemma {:induction false} SplitAt(b: Bits, n: nat)
    requires n <= |b|
    ensures b == b[..n] + b[n..]
  {
  }

  /** The stream of an embedding: the first byte's low digits, then the rest. */
  lemma {:induction false} EmbedWithStreamHead(cover: seq<byte>, bits: Bits, k: nat, write: Writer)
    requires 1 <= k <= 8 && |cover| > 0 && |bits| > 0
    ensures LsbStream(EmbedWith(cover, bits, k, write), k) ==
      GetLsbs(write(cover[0], bits[..Min(k, |bits|)]), k) +
      LsbStream(EmbedWith(cover[1..], bits[Min(k, |bits|)..], k, write), k)
  {
    var r := EmbedWith(cover, bits, k, write);
    assert r[1..] == EmbedWith(cover[1..], bits[Min(k, |bits|)..], k, write);
  }

  /** Bits beyond the cover's capacity are never read: the loop simply
      stops when the cover runs out. */
  lemma {:induction false} EmbedWithBeyondCapacity(cover: seq<byte>, bits: Bits, k: nat, write: Writer)
    requires k >= 1 && |cover| * k <= |bits|
    ensures EmbedWith(cover, bits, k, write) == EmbedWith(cover, bits[..|cover| * k], k, write)
    decreases |cover|
  {
    if |cover| > 0 {
      var c := |cover| * k;
      MulPred(|cover|, k);
      var cut := bits[..c];
      assert cut[..Min(k, |cut|)] == bits[..Min(k, |bits|)];
      assert cut[Min(k, |cut|)..] == bits[k..][..(|cover| - 1) * k];
      EmbedWithBeyondCapacity(cover[1..], bits[k..], k, write);
    }
  }

  lemma {:induction false} MulPred(i: nat, k: nat)
    requires i >= 1
    ensures (i - 1) * k + k == i * k
  {
  }

  /** A writer that keeps the high digits of every byte. */
  ghost predicate KeepsHigh(write: Writer, k: nat)
    requires 1 <= k <= 8
  {
    forall v: byte, g: Bits :: HighBits(write(v, g), k) == HighBits(v, k)
  }

  /** Bytes written with zero padding or right alignment keep their high
      `8 - k` digits; so does every byte the loop does not reach. */
  lemma {:induction false} EmbedKeepsHigh(cover: seq<byte>, bits: Bits, k: nat, fill: Fill)
    requires 1 <= k <= 8 && fill != Appended
    ensures forall i :: 0 <= i < |cover| ==>
      HighBits(EmbedGroups(cover, bits, k, fill)[i], k) == HighBits(cover[i], k)
  {
    var w := GroupWriter(k, fill);
    forall v: byte, g: Bits
      ensures HighBits(w(v, g), k) == HighBits(v, k)
    {
    }
    EmbedWithKeepsHigh(cover, bits, k, w);
  }

  lemma {:induction false} EmbedWithKeepsHigh(cover: seq<byte>, bits: Bits, k: nat, write: Writer)
    requires 1 <= k <= 8 && KeepsHigh(write, k)
    ensures forall i :: 0 <= i < |cover| ==>
      HighBits(EmbedWith(cover, bits, k, write)[i], k) == HighBits(cover[i], k)
    decreases |cover|
  {
    if |bits| > 0 && |cover| > 0 {
      var n := Min(k, |bits|);
      EmbedWithKeepsHigh(cover[1..], bits[n..], k, write);
      var r := EmbedWith(cover, bits, k, write);
      forall i | 0 <= i < |cover|
        ensures HighBits(r[i], k) == HighBits(cover[i], k)
      {
        if i > 0 {
          assert r[i] == EmbedWith(cover[1..], bits[n..], k, write)[i - 1];
        }
      }
    }
  }

  /** `''.join(format(b, '08b')[-k:] for b in bs)`: the low `k` digits of
      every byte, in order. */
  function LsbStream(bs: seq<byte>, k: nat): (r: Bits)
    requires 1 <= k <= 8
    ensures |r| == k * |bs|
  {
    if |bs| == 0 then [] else MulPred(|bs|, k); GetLsbs(bs[0], k) + LsbStream(bs[1..], k)
  }

  lemma {:induction false} LsbStreamAppend(a: seq<byte>, b: seq<byte>, k: nat)
    requires 1 <= k <= 8
    ensures LsbStream(a + b, k) == LsbStream(a, k) + LsbStream(b, k)
  {
    if |a| == 0 {
      assert a + b == b;
    } else {
      assert (a + b)[1..] == a[1..] + b;
      LsbStreamAppend(a[1..], b, k);
    }
  }

  /** The first `j` bytes contribute the first `j * k` digits. */
  lemma {:induction false} StreamPrefixAt(channels: seq<byte>, k: nat, j: nat)
    requires 1 <= k <= 8 && j <= |channels|
    ensures j * k <= |LsbStream(channels, k)|
    ensures LsbStream(channels[..j], k) == LsbStream(channels, k)[..j * k]
  {
    assert channels[..j] + channels[j..] == channels;
    LsbStreamAppend(channels[..j], channels[j..], k);
  }

  /** Byte `i` contributes digits `i*k .. i*k+k` of the stream. */
  lemma {:induction false} LsbStreamAt(bs: seq<byte>, k: nat, i: nat)
    requires 1 <= k <= 8 && i < |bs|
    ensures i * k + k <= |LsbStream(bs, k)|
    ensures LsbStream(bs, k)[i * k..i * k + k] == GetLsbs(bs[i], k)
  {
    MulPred(i + 1, k);
    MulMono(i + 1, |bs|, k);
    if i > 0 {
      LsbStreamAt(bs[1..], k, i - 1);
      MulPred(i, k);
      assert LsbStream(bs, k)[i * k..i * k + k] == LsbStream(bs[1..], k)[(i - 1) * k..(i - 1) * k + k];
    }
  }

  lemma {:induction false} MulMono(a: nat, b: nat, k: nat)
    requires a <= b
    ensures a * k <= b * k
  {
  }

  /** A writer that leaves every group of `1..k` bits right-aligned in the
      low digits. */
  ghost predicate AlignsRight(write: Writer, k: nat)
    requires 1 <= k <= 8
  {
    forall v: byte, g: Bits :: 1 <= |g| <= k ==> GetLsbs(write(v, g), k) == Zeros(k - |g|) + g
  }

  lemma {:induction false} RightAlignedAligns(k: nat)
    requires 1 <= k <= 8
    ensures AlignsRight(GroupWriter(k, RightAligned), k)
  {
    forall v: byte, g: Bits | 1 <= |g| <= k
      ensures GetLsbs(GroupWriter(k, RightAligned)(v, g), k) == Zeros(k - |g|) + g
    {
    }
  }

  /** With right-aligned groups, the digits byte `i` contributes to the
      stream are its group with zeros in front. */
  lemma {:induction false} GroupReadsBack(cover: seq<byte>, bits: Bits, k: nat, i: nat, s: nat)
    requires 1 <= k <= 8 && i < |cover| && s == i * k && s < |bits|
    ensures var e := Min(s + k, |bits|);
      && s + k <= |LsbStream(EmbedGroups(cover, bits, k, RightAligned), k)|
      && LsbStream(EmbedGroups(cover, bits, k, RightAligned), k)[s..s + k] == Zeros(k - (e - s)) + bits[s..e]
  {
    RightAlignedAligns(k);
    AlignedGroupAt(cover, bits, k, GroupWriter(k, RightAligned), i, s);
  }

  lemma {:induction false} AlignedGroupAt(cover: seq<byte>, bits: Bits, k: nat, write: Writer, i: nat, s: nat)
    requires 1 <= k <= 8 && i < |cover| && s == i * k && s < |bits|
    requires AlignsRight(write, k)
    ensures var e := Min(s + k, |bits|);
      && s + k <= |LsbStream(EmbedWith(cover, bits, k, write), k)|
      && LsbStream(EmbedWith(cover, bits, k, write), k)[s..s + k] == Zeros(k - (e - s)) + bits[s..e]
  {
    var out := EmbedWith(cover, bits, k, write);
    EmbedWithAt(cover, bits, k, write, i, s);
    var g := bits[s..Min(s + k, |bits|)];
    assert out[i] == write(cover[i], g) && 1 <= |g| <= k;
    assert GetLsbs(out[i], k) == Zeros(k - |g|) + g;
    LsbStreamAt(out, k, i);
  }

  /** A writer whose full groups read back as themselves. */
  ghost predicate KeepsFullGroups(write: Writer, k: nat)
    requires 1 <= k <= 8
  {
    forall v: byte, g: Bits :: |g| == k ==> GetLsbs(write(v, g), k) == g
  }

  /** A writer whose short groups read back as the leading low digits. */
  ghost predicate KeepsShortGroups(write: Writer, k: nat)
    requires 1 <= k <= 8
  {
    forall v: byte, g: Bits :: 1 <= |g| < k ==> GetLsbs(write(v, g), k)[..|g|] == g
  }

  /** The stream read back from an embedding starts with the payload itself
      when short groups are zero-padded, or when every group is full. */
  lemma {:induction false} EmbedStreamPrefix(cover: seq<byte>, bits: Bits, k: nat, fill: Fill)
    requires 1 <= k <= 8 && |bits| <= |cover| * k
    requires fill == ZeroPadded || |bits| % k == 0
    ensures |bits| <= |LsbStream(EmbedGroups(cover, bits, k, fill), k)|
    ensures LsbStream(EmbedGroups(cover, bits, k, fill), k)[..|bits|] == bits
  {
    var w := GroupWriter(k, fill);
    FullGroupsKept(k, fill);
    if fill == ZeroPadded {
      ShortGroupsKept(k);
    }
    EmbedWithStreamPrefix(cover, bits, k, w, fill == ZeroPadded, |bits| / k);
  }

  lemma {:induction false} FullGroupsKept(k: nat, fill: Fill)
    requires 1 <= k <= 8
    ensures KeepsFullGroups(GroupWriter(k, fill), k)
  {
    forall v: byte, g: Bits | |g| == k
      ensures GetLsbs(GroupWriter(k, fill)(v, g), k) == g
    {
      WriteFullGroup(v, k, g, fill);
    }
  }

  lemma {:induction false} ShortGroupsKept(k: nat)
    requires 1 <= k <= 8
    ensures KeepsShortGroups(GroupWriter(k, ZeroPadded), k)
  {
    forall v: byte, g: Bits | 1 <= |g| < k
      ensures GetLsbs(GroupWriter(k, ZeroPadded)(v, g), k)[..|g|] == g
    {
    }
  }

  lemma {:induction false} EmbedWithStreamPrefix(cover: seq<byte>, bits: Bits, k: nat, write: Writer, short: bool, m: nat)
    requires 1 <= k <= 8 && |bits| <= |cover| * k
    requires KeepsFullGroups(write, k)
    requires short ==> KeepsShortGroups(write, k)
    requires short || |bits| == m * k
    ensures |bits| <= |LsbStream(EmbedWith(cover, bits, k, write), k)|
    ensures LsbStream(EmbedWith(cover, bits, k, write), k)[..|bits|] == bits
    decreases |cover|
  {
    if |bits| > k {
      MulPred(|cover|, k);
      var m' := 0;
      if !short {
        assert m >= 1;
        MulPred(m, k);
        m' := m - 1;
      }
      EmbedWithStreamPrefix(cover[1..], bits[k..], k, write, short, m');
      StreamPrefixStep(cover, bits, k, write);
    } else if |bits| > 0 {
      if !short {
        assert m >= 1;
        MulCancel(m, 2, k);
      }
      StreamPrefixLast(cover, bits, k, write, short);
    }
  }

  lemma {:induction false} StreamPrefixStep(cover: seq<byte>, bits: Bits, k: nat, write: Writer)
    requires 1 <= k <= 8 && |cover| > 0 && |bits| > k
    requires KeepsFullGroups(write, k)
    requires |bits| - k <= |LsbStream(EmbedWith(cover[1..], bits[k..], k, write), k)|
    requires LsbStream(EmbedWith(cover[1..], bits[k..], k, write), k)[..|bits| - k] == bits[k..]
    ensures |bits| <= |LsbStream(EmbedWith(cover, bits, k, write), k)|
    ensures LsbStream(EmbedWith(cover, bits, k, write), k)[..|bits|] == bits
  {
    EmbedWithStreamHead(cover, bits, k, write);
    assert GetLsbs(write(cover[0], bits[..k]), k) == bits[..k];
    PrefixJoin(GetLsbs(write(cover[0], bits[..k]), k),
      LsbStream(EmbedWith(cover[1..], bits[k..], k, write), k), bits, k);
  }

  lemma {:induction false} StreamPrefixLast(cover: seq<byte>, bits: Bits, k: nat, write: Writer, short: bool)
    requires 1 <= k <= 8 && |cover| > 0 && 0 < |bits| <= k
    requires KeepsFullGroups(write, k)
    requires short ==> KeepsShortGroups(write, k)
    requires short || |bits| == k
    ensures |bits| <= |LsbStream(EmbedWith(cover, bits, k, write), k)|
    ensures LsbStream(EmbedWith(cover, bits, k, write), k)[..|bits|] == bits
  {
    EmbedWithStreamHead(cover, bits, k, write);
    assert bits[..Min(k, |bits|)] == bits;
    var head := GetLsbs(write(cover[0], bits), k);
    assert head[..|bits|] == bits;
    assert (head + LsbStream(EmbedWith(cover[1..], [], k, write), k))[..|bits|] == head[..|bits|];
  }

  lemma {:induction false} PrefixJoin(head: Bits, tail: Bits, bits: Bits, n: nat)
    requires n <= |bits| && head == bits[..n]
    requires |bits| - n <= |tail| && tail[..|bits| - n] == bits[n..]
    ensures |bits| <= |head + tail| && (head + tail)[..|bits|] == bits
  {
    assert (head + tail)[..|bits|] == head + tail[..|bits| - n];
  }
}

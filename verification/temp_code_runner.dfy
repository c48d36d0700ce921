/** tempCodeRunnerFile.py: the image codec with the full 16-bit delimiter.

    Embedding frames the payload bits with the whole delimiter, counts the
    delimiter in its capacity guard and writes groups through `set_lsbs`
    (a short last group zero-padded on the right).  Extraction appends the
    `num_lsbs` low bits of one channel at a time and tests `endswith` on the
    delimiter only after each such group, so it sees the delimiter only when
    it ends on a group boundary.  Channels are the image's row-major flat
    sequence; message boxes and the UTF-8 decode are not part of the model. */
module TempCodeRunner {
  import opened Outcomes
  import opened Bits
  import opened Lsb
  import opened Groups
  import opened StegoUtils

  /** `embed_into_image`: `None` exactly when the framed bits, delimiter
      included, exceed the capacity `w*h*c*num_lsbs`. */
  function EmbedIntoImage(channels: seq<byte>, payload: seq<byte>, k: nat): (r: Option<seq<byte>>)
    requires 1 <= k <= 8
    ensures r.None? <==> 8 * |payload| + 16 > |channels| * k
    ensures r.Some? ==> |r.value| == |channels|
  {
    DelimiterShape();
    var framed := BytesToBits(payload) + Delimiter;
    if |framed| > |channels| * k then None
    else Some(EmbedGroups(channels, framed, k, ZeroPadded))
  }

  /** Channel `i` of an accepted embedding, with `s = i * k`: it keeps its
      high digits, takes bits `s .. s+k` of the framed payload as its low
      digits, zero-padded on the right, and is unchanged past the last
      group. */
  lemma {:induction false} EmbedIntoImageAt(channels: seq<byte>, payload: seq<byte>, k: nat, i: nat, s: nat)
    requires 1 <= k <= 8 && 8 * |payload| + 16 <= |channels| * k && i < |channels| && s == i * k
    ensures var out := EmbedIntoImage(channels, payload, k).value;
      var framed := BytesToBits(payload) + Delimiter;
      && HighBits(out[i], k) == HighBits(channels[i], k)
      && (s < |framed| ==>
            GetLsbs(out[i], k) == framed[s..Min(s + k, |framed|)] + Zeros(k - (Min(s + k, |framed|) - s)))
      && (s >= |framed| ==> out[i] == channels[i])
  {
    DelimiterShape();
    var framed := BytesToBits(payload) + Delimiter;
    EmbedGroupsAt(channels, framed, k, ZeroPadded, i, s);
    EmbedKeepsHigh(channels, framed, k, ZeroPadded);
  }

  /** The extraction loop from the point where `acc` has been collected:
      append the next channel's low bits, and on a stream that now ends with
      the delimiter strip it and pack what is left. */
  function ScanFrom(channels: seq<byte>, k: nat, acc: Bits): (r: Option<seq<byte>>)
    requires 1 <= k <= 8
    ensures (forall i :: 1 <= i <= |channels| ==> !Hit(acc, channels, k, i)) ==> r.None?
    decreases |channels|
  {
    if |channels| == 0 then None
    else
      var next := acc + GetLsbs(channels[0], k);
      NoHitsMoveOn(acc, channels, k);
      if EndsWith(next, Delimiter) then Unframe(next)
      else ScanFrom(channels[1..], k, next)
  }

  /** When no boundary of `channels` hits, neither does the first one, nor
      any boundary of the rest once the first channel is collected. */
  lemma {:induction false} NoHitsMoveOn(acc: Bits, channels: seq<byte>, k: nat)
    requires 1 <= k <= 8 && |channels| > 0
    ensures (forall i :: 1 <= i <= |channels| ==> !Hit(acc, channels, k, i)) ==>
      && !EndsWith(acc + GetLsbs(channels[0], k), Delimiter)
      && forall i :: 1 <= i <= |channels| - 1 ==> !Hit(acc + GetLsbs(channels[0], k), channels[1..], k, i)
  {
    if forall i :: 1 <= i <= |channels| ==> !Hit(acc, channels, k, i) {
      FirstStep(acc, channels, k);
      assert !Hit(acc, channels, k, 1);
      forall i | 1 <= i <= |channels| - 1
        ensures !Hit(acc + GetLsbs(channels[0], k), channels[1..], k, i)
      {
        PrefixStep(acc, channels, k, i + 1);
        assert !Hit(acc, channels, k, i + 1);
      }
    }
  }

  /** `bits = bits[:-16]` followed by the packing: some bytes exactly when
      bits are left and their leading `len % 8` are zeros, and then the
      remaining whole bytes. */
  function Unframe(bits: Bits): (r: Option<seq<byte>>)
    requires |bits| >= 16
    ensures var n := |bits| - 16;
      r.Some? <==> 0 < n && forall i :: 0 <= i < n % 8 ==> !bits[i]
    ensures var n := |bits| - 16;
      r.Some? ==> r.value == ChunkBytes(bits[n % 8..n])
  {
    var front := bits[..|bits| - 16];
    assert forall i :: 0 <= i < |front| ==> front[i] == bits[i];
    assert front[|front| % 8..] == bits[|front| % 8..|front|];
    PackBits(front)
  }

  /** `extract_from_image`: the first channel boundary at which the bits
      collected so far end with the delimiter decides the answer, and
      without one the answer is `None`. */
  function ExtractFromImage(channels: seq<byte>, k: nat): (r: Option<seq<byte>>)
    requires 1 <= k <= 8
    ensures forall j: nat :: FirstHit([], channels, k, j) ==>
      |LsbStream(channels[..j], k)| >= 16 && r == Unframe(LsbStream(channels[..j], k))
    ensures (forall j :: 1 <= j <= |channels| ==> !Hit([], channels, k, j)) ==> r.None?
  {
    ScanOutcome(channels, k);
    ScanFrom(channels, k, [])
  }

  lemma {:induction false} ScanOutcome(channels: seq<byte>, k: nat)
    requires 1 <= k <= 8
    ensures forall j: nat :: FirstHit([], channels, k, j) ==>
      |LsbStream(channels[..j], k)| >= 16 && ScanFrom(channels, k, []) == Unframe(LsbStream(channels[..j], k))
  {
    var none: Bits := [];
    forall j: nat | FirstHit(none, channels, k, j)
      ensures |LsbStream(channels[..j], k)| >= 16 && ScanFrom(channels, k, none) == Unframe(LsbStream(channels[..j], k))
    {
      ScanFromFirst(channels, k, none, j);
      assert none + LsbStream(channels[..j], k) == LsbStream(channels[..j], k);
    }
  }

  /** After `j` more channels the collected bits end with the delimiter:
      the test the loop makes at that group boundary. */
  predicate Hit(acc: Bits, channels: seq<byte>, k: nat, j: nat)
    requires 1 <= k <= 8
  {
    j <= |channels| && EndsWith(acc + LsbStream(channels[..j], k), Delimiter)
  }

  /** Boundary `j` is the first at which the collected bits end with the
      delimiter. */
  predicate FirstHit(acc: Bits, channels: seq<byte>, k: nat, j: nat)
    requires 1 <= k <= 8
  {
    && 1 <= j <= |channels| && Hit(acc, channels, k, j)
    && forall i :: 1 <= i < j ==> !Hit(acc, channels, k, i)
  }

  /** The loop stops at the first group boundary where the bits collected so
      far end with the delimiter, and packs the bits before that delimiter. */
  lemma {:induction false} ScanFromFirst(channels: seq<byte>, k: nat, acc: Bits, j: nat)
    requires 1 <= k <= 8 && 1 <= j <= |channels|
    requires Hit(acc, channels, k, j)
    requires forall i :: 1 <= i < j ==> !Hit(acc, channels, k, i)
    ensures |acc + LsbStream(channels[..j], k)| >= 16
    ensures ScanFrom(channels, k, acc) == Unframe(acc + LsbStream(channels[..j], k))
    decreases |channels|
  {
    var next := acc + GetLsbs(channels[0], k);
    FirstStep(acc, channels, k);
    if j == 1 {
      ScanStops(channels, k, acc);
    } else {
      assert !Hit(acc, channels, k, 1);
      ScanGoesOn(channels, k, acc);
      LaterHits(channels, k, acc, j);
      ScanFromFirst(channels[1..], k, next, j - 1);
      PrefixStep(acc, channels, k, j);
    }
  }

  /** Boundaries after the first channel, seen from the collected bits. */
  lemma {:induction false} LaterHits(channels: seq<byte>, k: nat, acc: Bits, j: nat)
    requires 1 <= k <= 8 && 2 <= j <= |channels|
    requires Hit(acc, channels, k, j)
    requires forall i :: 1 <= i < j ==> !Hit(acc, channels, k, i)
    ensures Hit(acc + GetLsbs(channels[0], k), channels[1..], k, j - 1)
    ensures forall i :: 1 <= i < j - 1 ==> !Hit(acc + GetLsbs(channels[0], k), channels[1..], k, i)
  {
    var next := acc + GetLsbs(channels[0], k);
    forall i | 1 <= i < j - 1
      ensures !Hit(next, channels[1..], k, i)
    {
      PrefixStep(acc, channels, k, i + 1);
      assert !Hit(acc, channels, k, i + 1);
    }
    PrefixStep(acc, channels, k, j);
  }

  lemma {:induction false} FirstStep(acc: Bits, channels: seq<byte>, k: nat)
    requires 1 <= k <= 8 && |channels| > 0
    ensures acc + LsbStream(channels[..1], k) == acc + GetLsbs(channels[0], k)
  {
    assert channels[..1][1..] == [];
  }

  /** The first channel of a prefix moves into the collected bits. */
  lemma {:induction false} PrefixStep(acc: Bits, channels: seq<byte>, k: nat, j: nat)
    requires 1 <= k <= 8 && 1 <= j <= |channels|
    ensures acc + LsbStream(channels[..j], k)
      == (acc + GetLsbs(channels[0], k)) + LsbStream(channels[1..][..j - 1], k)
  {
    var c := channels[..j];
    assert c[0] == channels[0];
    assert c[1..] == channels[1..][..j - 1];
  }

  lemma {:induction false} ScanStops(channels: seq<byte>, k: nat, acc: Bits)
    requires 1 <= k <= 8 && |channels| > 0
    requires EndsWith(acc + GetLsbs(channels[0], k), Delimiter)
    ensures |acc + GetLsbs(channels[0], k)| >= 16
    ensures ScanFrom(channels, k, acc) == Unframe(acc + GetLsbs(channels[0], k))
  {
  }

  lemma {:induction false} ScanGoesOn(channels: seq<byte>, k: nat, acc: Bits)
    requires 1 <= k <= 8 && |channels| > 0
    requires !EndsWith(acc + GetLsbs(channels[0], k), Delimiter)
    ensures ScanFrom(channels, k, acc) == ScanFrom(channels[1..], k, acc + GetLsbs(channels[0], k))
  {
  }

  
  /** Round trip: a non-empty payload whose bits do not contain the
      delimiter comes back whole when `num_lsbs` divides the framed length,
      so that the delimiter ends on a group boundary. */
  lemma {:induction false} RoundTrip(channels: seq<byte>, payload: seq<byte>, k: nat)
    requires 1 <= k <= 8 && |payload| >= 1
    requires Absent(BytesToBits(payload), Delimiter)
    requires (8 * |payload| + 16) % k == 0
    requires 8 * |payload| + 16 <= |channels| * k
    ensures EmbedIntoImage(channels, payload, k).Some?
    ensures ExtractFromImage(EmbedIntoImage(channels, payload, k).value, k) == Some(payload)
  {
    DelimiterShape();
    var framed := BytesToBits(payload) + Delimiter;
    var stego := EmbedGroups(channels, framed, k, ZeroPadded);
    EmbedStreamPrefix(channels, framed, k, ZeroPadded);
    Accepted(channels, payload, k);
    ScanReadsBack(stego, k, payload);
  }

  /** The scan over a stream that starts with the framed payload, the
      delimiter ending on a group boundary, yields the payload. */
  lemma {:induction false} ScanReadsBack(stego: seq<byte>, k: nat, payload: seq<byte>)
    requires 1 <= k <= 8 && |payload| >= 1
    requires Absent(BytesToBits(payload), Delimiter)
    requires (8 * |payload| + 16) % k == 0
    requires var framed := BytesToBits(payload) + Delimiter;
      |framed| <= |LsbStream(stego, k)| && LsbStream(stego, k)[..|framed|] == framed
    ensures ExtractFromImage(stego, k) == Some(payload)
  {
    DelimiterShape();
    var m := (8 * |payload| + 16) / k;
    DivExact(8 * |payload| + 16, k);
    FitsIn(m, |stego|, k);
    ScanStopsAt(stego, k, payload, m);
  }

  lemma {:induction false} ScanStopsAt(stego: seq<byte>, k: nat, payload: seq<byte>, m: nat)
    requires 1 <= k <= 8 && |payload| >= 1 && m <= |stego|
    requires Absent(BytesToBits(payload), Delimiter)
    requires m * k == 8 * |payload| + 16
    requires var framed := BytesToBits(payload) + Delimiter;
      |framed| <= |LsbStream(stego, k)| && LsbStream(stego, k)[..|framed|] == framed
    ensures ExtractFromImage(stego, k) == Some(payload)
  {
    FirstHitIsEnd(stego, k, BytesToBits(payload), m);
    ScanFromFirst(stego, k, [], m);
    UnframeWhole([] + LsbStream(stego[..m], k), payload);
  }

  lemma {:induction false} UnframeWhole(s: Bits, payload: seq<byte>)
    requires |payload| >= 1 && |s| >= 16 && s[..|s| - 16] == BytesToBits(payload)
    ensures Unframe(s) == Some(payload)
  {
    PackWhole(payload);
  }

  lemma {:induction false} Accepted(channels: seq<byte>, payload: seq<byte>, k: nat)
    requires 1 <= k <= 8 && 8 * |payload| + 16 <= |channels| * k
    ensures EmbedIntoImage(channels, payload, k) == Some(EmbedGroups(channels, BytesToBits(payload) + Delimiter, k, ZeroPadded))
  {
  }

  lemma {:induction false} FitsIn(m: nat, n: nat, k: nat)
    requires k >= 1 && m * k <= k * n
    ensures m <= n
  {
    MulPred(n + 1, k);
    MulCancel(m, n + 1, k);
  }

  lemma {:induction false} DivExact(a: nat, k: nat)
    requires k >= 1 && a % k == 0
    ensures (a / k) * k == a
  {
  }

  /** In a stream that starts with the payload bits and the delimiter, the
      group boundary where the framed bits end is the first that matches. */
  lemma {:induction false} FirstHitIsEnd(stego: seq<byte>, k: nat, pb: Bits, m: nat)
    requires 1 <= k <= 8 && Absent(pb, Delimiter) && m <= |stego|
    requires m * k == |pb| + 16 && |pb| + 16 <= |LsbStream(stego, k)|
    requires LsbStream(stego, k)[..|pb| + 16] == pb + Delimiter
    ensures Hit([], stego, k, m)
    ensures forall i :: 1 <= i < m ==> !Hit([], stego, k, i)
    ensures var s: Bits := [] + LsbStream(stego[..m], k); s[..|s| - 16] == pb
  {
    DelimiterLength();
    var t := LsbStream(stego, k);
    DelimiterNotStraddling(pb);
    assert Delimiter[..|Delimiter| - 1] == Delimiter[..15];
    FirstMarker(t, pb, Delimiter);
    StreamPrefixAt(stego, k, m);
    var none: Bits := [];
    assert none + LsbStream(stego[..m], k) == pb + Delimiter;
    forall i | 1 <= i < m
      ensures !Hit(none, stego, k, i)
    {
      StreamPrefixAt(stego, k, i);
      MulMono(i + 1, m, k);
      MulPred(i + 1, k);
      assert none + LsbStream(stego[..i], k) == t[..i * k];
      if EndsWith(t[..i * k], Delimiter) {
        MatchEnd(t, i * k, |pb|);
      }
    }
  }

  /** A prefix that ends with the delimiter reaches at least to the end of
      its first occurrence. */
  lemma {:induction false} MatchEnd(t: Bits, e: nat, p: nat)
    requires e <= |t| && EndsWith(t[..e], Delimiter)
    requires Find(t, Delimiter) == Some(p)
    ensures e >= p + 16
  {
    DelimiterShape();
    var q := e - 16;
    assert t[q..q + 16] == t[..e][q..];
    assert OccursAt(t, Delimiter, q);
  }

  /** Finding C, as written: the payload byte 0 with `num_lsbs = 5` frames
      to 24 bits, so the delimiter ends inside the fifth group and no group
      boundary ever sees it; extraction fails whatever the six channels (two
      RGB pixels) hold. */
  lemma {:induction false} MissesUnalignedDelimiter(channels: seq<byte>)
    requires |channels| == 6
    ensures EmbedIntoImage(channels, [0], 5).Some?
    ensures ExtractFromImage(EmbedIntoImage(channels, [0], 5).value, 5).None?
  {
    DelimiterShape();
    ZeroByte();
    var framed := BytesToBits([0]) + Delimiter;
    var stego := EmbedGroups(channels, framed, 5, ZeroPadded);
    EmbedStreamPrefix(channels, framed, 5, ZeroPadded);
    assert framed == Zeros(8) + Ones(15) + [false];
    NoHit(stego);
  }

  lemma {:induction false} NoHit(stego: seq<byte>)
    requires |stego| == 6 && LsbStream(stego, 5)[..24] == Zeros(8) + Ones(15) + [false]
    ensures forall i :: 1 <= i <= 6 ==> !Hit([], stego, 5, i)
  {
    var t := LsbStream(stego, 5);
    assert t[..24][4] == false && t[..24][23] == false;
    forall i | 1 <= i <= 6
      ensures !Hit([], stego, 5, i)
    {
      NoHitAt(stego, t, i);
    }
  }

  /** Bit 4 of the stream is a zero of the byte, bit 23 the delimiter's
      final zero: the tail of no prefix of 5, 10, ... 30 bits is the
      delimiter. */
  lemma {:induction false} NoHitAt(stego: seq<byte>, t: Bits, i: nat)
    requires |stego| == 6 && t == LsbStream(stego, 5) && !t[4] && !t[23]
    requires 1 <= i <= 6
    ensures !Hit([], stego, 5, i)
  {
    DelimiterShape();
    StreamPrefixAt(stego, 5, i);
    var none: Bits := [];
    var s := none + LsbStream(stego[..i], 5);
    assert s == t[..i * 5];
    if i == 4 {
      assert s[4..][0] == t[4];
    } else if i == 5 {
      assert s[9..][14] == t[23];
    } else if i == 6 {
      assert s[14..][9] == t[23];
    }
  }

  /** The evident intent: test for the delimiter after every bit, which is
      the same as cutting at its first occurrence. */
  function ExtractEveryBit(channels: seq<byte>, k: nat): (r: Option<seq<byte>>)
    requires 1 <= k <= 8
    ensures Absent(LsbStream(channels, k), Delimiter) ==> r.None?
    ensures OccursAt(LsbStream(channels, k), Delimiter, 0) ==> r.None?
    ensures PacksBeforeMarker(LsbStream(channels, k), Delimiter, r)
  {
    ExtractWith(channels, k, Delimiter)
  }

  /** With the bit-by-bit test the round trip holds for every `num_lsbs`. */
  lemma {:induction false} EveryBitRoundTrip(channels: seq<byte>, payload: seq<byte>, k: nat)
    requires 1 <= k <= 8 && |payload| >= 1
    requires Absent(BytesToBits(payload), Delimiter)
    requires 8 * |payload| + 16 <= |channels| * k
    ensures EmbedIntoImage(channels, payload, k).Some?
    ensures ExtractEveryBit(EmbedIntoImage(channels, payload, k).value, k) == Some(payload)
  {
    DelimiterShape();
    var framed := BytesToBits(payload) + Delimiter;
    EmbedStreamPrefix(channels, framed, k, ZeroPadded);
    DelimiterNotStraddling(BytesToBits(payload));
    assert Delimiter[..|Delimiter| - 1] == Delimiter[..15];
    ReadsBack(EmbedGroups(channels, framed, k, ZeroPadded), k, payload, Delimiter);
  }
}

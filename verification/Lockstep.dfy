/**
 The preserve mode writes every byte at the position the decoder has read it
 from: the relation between the two, and the ranges of bits under it.
 */
module Lockstep {
  import opened Wrappers
  import opened Bytes
  import opened BitRuns
  import opened Schema
  import D = Decoding
  import E = Encoding

  /** Encoding in the preserve mode of what has been decoded from the same data. */
  ghost predicate IsSameSource(src: D.Source, t: E.Target) {
    && src.Valid() && t.Valid() && t.preserve
    && t.body == src.body && t.end == src.end && t.version == src.version
    && AreSameStrings(src, t)
  }

  ghost predicate AreSameStrings(src: D.Source, t: E.Target) {
    t.strings == src.strings
  }

  /** Everything written past what has been there at first is the source's own. */
  ghost predicate IsKept(t: E.Target, h: seq<Byte>, w: E.Writing) {
    t.Valid() && |h| <= w.pos <= t.end && w.out == h + t.body[|h|..w.pos]
  }

  /** Bits the two have of the byte they share are the halves of it. */
  ghost predicate AreHalves(body: seq<Byte>, low: seq<bool>, high: seq<bool>, written: nat, read: nat) {
    if high == [] then low == [] && written == read
    else written < |body| && written + 1 == read && low + high == ByteBits(body[written])
  }

  ghost predicate IsInStep(src: D.Source, st: D.Reading, t: E.Target, h: seq<Byte>, w: E.Writing) {
    && IsKept(t, h, w) && !w.stopped
    && st.pos <= src.end && |st.bits| < 8 && w.taken == st.taken
    && AreHalves(src.body, w.bits, st.bits, w.pos, st.pos)
  }

  /** No run of bits is open. */
  ghost predicate IsClosed(st: D.Reading) {
    st.bits == [] && st.taken == 0
  }

  /** Bits left in the accumulator are those the last byte has above the ones taken. */
  ghost predicate IsAligned(st: D.Reading) {
    |st.bits| < 8 && (|st.bits| + st.taken) % 8 == 0
  }

  lemma PutKeeps(t: E.Target, h: seq<Byte>, w: E.Writing, data: seq<Byte>)
    requires IsKept(t, h, w) && t.preserve
    requires w.pos + |data| <= t.end && data == t.body[w.pos..w.pos + |data|]
    ensures IsKept(t, h, E.Put(t, w, data)) && E.Put(t, w, data).pos == w.pos + |data|
  {
    assert t.body[|h|..w.pos] + data == t.body[|h|..w.pos + |data|];
  }

  lemma CopyKeeps(t: E.Target, h: seq<Byte>, w: E.Writing, n: nat)
    requires IsKept(t, h, w) && t.preserve && n <= E.Remaining(t, w)
    ensures IsKept(t, h, E.Copy(t, w, n)) && E.Copy(t, w, n).pos == w.pos + n
  {
    assert E.Reserved(t, w, n) == t.body[w.pos..w.pos + n];
    PutKeeps(t, h, w, E.Reserved(t, w, n));
  }

  // Ranges of bits

  lemma BytesBitsStep(body: seq<Byte>, from: nat, to: nat)
    requires from < to <= |body|
    ensures BytesBits(body[from..to]) == ByteBits(body[from]) + BytesBits(body[from + 1..to])
  {
    assert body[from..to][1..] == body[from + 1..to];
  }

  /** The bits taken, and the ones left, are those of the bytes read behind the ones there were. */
  ghost predicate HasTaken(body: seq<Byte>, st: D.Reading, count: nat, st': D.Reading, bits: seq<bool>) {
    && st.pos <= st'.pos <= |body| && |bits| == count
    && bits + st'.bits == st.bits + BytesBits(body[st.pos..st'.pos])
    && st' == st.(pos := st'.pos, bits := st'.bits, taken := st.taken + count)
  }

  lemma {:induction false} TakenBits(src: D.Source, st: D.Reading, count: nat)
    requires src.Valid() && st.pos <= src.end && |st.bits| < count + 8
    requires D.TakeBits(src, st, count).0
    ensures var (ok, st', bits) := D.TakeBits(src, st, count);
      HasTaken(src.body, st, count, st', bits) && |st'.bits| < 8 && st'.pos <= src.end
    decreases if |st.bits| < count then count - |st.bits| else 0
  {
    var (ok, st', bits) := D.TakeBits(src, st, count);
    if |st.bits| >= count {
      assert src.body[st.pos..st.pos] == [];
      assert st.bits[..count] + st.bits[count..] == st.bits;
    } else {
      var next := st.(pos := st.pos + 1, bits := st.bits + ByteBits(src.body[st.pos]));
      TakenBits(src, next, count);
      TakenAfterByte(src.body, st, count, st', bits);
    }
  }

  lemma TakenAfterByte(body: seq<Byte>, st: D.Reading, count: nat, st': D.Reading, bits: seq<bool>)
    requires st.pos < |body|
    requires HasTaken(body, st.(pos := st.pos + 1, bits := st.bits + ByteBits(body[st.pos])), count, st', bits)
    ensures HasTaken(body, st, count, st', bits)
  {
    BytesBitsStep(body, st.pos, st'.pos);
    Associative(st.bits, ByteBits(body[st.pos]), BytesBits(body[st.pos + 1..st'.pos]));
  }

  /** Bytes written as a unit fills up are those its bits have come from. */
  lemma {:induction false} FlushKeeps(t: E.Target, h: seq<Byte>, w: E.Writing, rest: seq<bool>, end: nat)
    requires IsKept(t, h, w) && t.preserve && w.pos <= end <= t.end
    requires w.bits + rest == BytesBits(t.body[w.pos..end])
    ensures var w' := E.Flush(t, w);
      && IsKept(t, h, w') && w.pos <= w'.pos <= end && |w'.bits| < 8
      && w'.bits + rest == BytesBits(t.body[w'.pos..end])
      && w' == w.(out := w'.out, pos := w'.pos, bits := w'.bits)
    decreases |w.bits|
  {
    if |w.bits| >= 8 {
      var low, high := w.bits[..8], w.bits[8..];
      assert w.pos < end;
      BytesBitsStep(t.body, w.pos, end);
      SplitBehind(low, high, rest, ByteBits(t.body[w.pos]), BytesBits(t.body[w.pos + 1..end]));
      ByteRoundTrip(t.body[w.pos]);
      var open := w.(bits := high);
      PutKeeps(t, h, open, [t.body[w.pos]]);
      FlushKeeps(t, h, E.Put(t, open, [t.body[w.pos]]), rest, end);
    }
  }

  lemma SplitBehind(low: seq<bool>, high: seq<bool>, rest: seq<bool>, a: seq<bool>, b: seq<bool>)
    requires |low| == |a| && (low + high) + rest == a + b
    ensures low == a && high + rest == b
  {
    assert (low + high) + rest == low + (high + rest);
    assert (low + (high + rest))[..|a|] == low && (a + b)[..|a|] == a;
    assert (low + (high + rest))[|a|..] == high + rest && (a + b)[|a|..] == b;
  }

  /** Bits gathered, taken and left make up the bytes from the one being written on. */
  lemma WholeBytes(src: D.Source, st: D.Reading, t: E.Target, h: seq<Byte>, w: E.Writing,
                   count: nat, st': D.Reading, bits: seq<bool>)
    requires IsSameSource(src, t) && IsInStep(src, st, t, h, w)
    requires HasTaken(src.body, st, count, st', bits)
    ensures (w.bits + bits) + st'.bits == BytesBits(src.body[w.pos..st'.pos])
  {
    var read := BytesBits(src.body[st.pos..st'.pos]);
    Associative(w.bits, bits, st'.bits);
    if st.bits == [] {
      assert w.bits + (bits + st'.bits) == read;
    } else {
      BytesBitsStep(src.body, w.pos, st'.pos);
      Associative(w.bits, st.bits, read);
    }
  }

  /**
   A range of bits: the source holds at its position exactly the bits the
   decoder takes, and writing them keeps the two in step.
   */
  lemma RangeKeeps(src: D.Source, st: D.Reading, t: E.Target, h: seq<Byte>, w: E.Writing, count: nat)
    requires IsSameSource(src, t) && IsInStep(src, st, t, h, w) && IsAligned(st)
    requires 1 <= count <= 56 && D.TakeBits(src, st, count).0
    ensures var (ok, st', bits) := D.TakeBits(src, st, count);
      && E.Remaining(t, w) >= (|w.bits| + count + 7) / 8
      && E.SourceBits(t, w, count) == FromBits(bits)
      && E.PutBits(t, w, FromBits(bits), count).Some?
      && IsInStep(src, st', t, h, E.PutBits(t, w, FromBits(bits), count).value)
      && IsAligned(st') && st' == st.(pos := st'.pos, bits := st'.bits, taken := st.taken + count)
  {
    var (ok, st', bits) := D.TakeBits(src, st, count);
    TakenBits(src, st, count);
    RangeStep(src, st, t, h, w, st', bits);
    AlignedAfter(src.body, st, count, st', bits);
  }

  lemma AlignedAfter(body: seq<Byte>, st: D.Reading, count: nat, st': D.Reading, bits: seq<bool>)
    requires IsAligned(st) && HasTaken(body, st, count, st', bits) && |st'.bits| < 8
    ensures IsAligned(st')
  {
    assert |bits + st'.bits| == |st.bits + BytesBits(body[st.pos..st'.pos])|;
    assert |st'.bits| + st'.taken == |st.bits| + st.taken + 8 * (st'.pos - st.pos);
  }

  lemma RangeStep(src: D.Source, st: D.Reading, t: E.Target, h: seq<Byte>, w: E.Writing,
                  st': D.Reading, bits: seq<bool>)
    requires IsSameSource(src, t) && IsInStep(src, st, t, h, w) && 1 <= |bits| <= 56
    requires HasTaken(src.body, st, |bits|, st', bits) && |st'.bits| < 8 && st'.pos <= src.end
    ensures E.Remaining(t, w) >= (|w.bits| + |bits| + 7) / 8
    ensures E.SourceBits(t, w, |bits|) == FromBits(bits)
    ensures E.PutBits(t, w, FromBits(bits), |bits|).Some?
    ensures IsInStep(src, st', t, h, E.PutBits(t, w, FromBits(bits), |bits|).value)
  {
    WholeBytes(src, st, t, h, w, |bits|, st', bits);
    SourceHolds(t, w, bits, st'.bits, st'.pos);
    GatheredKeeps(src, st', t, h, w, bits);
  }

  lemma SourceHolds(t: E.Target, w: E.Writing, bits: seq<bool>, rest: seq<bool>, end: nat)
    requires t.Valid() && t.preserve && w.pos <= end <= t.end
    requires |w.bits| < 8 && |rest| < 8 && 1 <= |bits| <= 56
    requires (w.bits + bits) + rest == BytesBits(t.body[w.pos..end])
    ensures E.Remaining(t, w) >= (|w.bits| + |bits| + 7) / 8
    ensures E.SourceBits(t, w, |bits|) == FromBits(bits)
  {
    WholeLength(|w.bits| + |bits|, |rest|, end - w.pos);
    SourceBitsAre(t, w, |bits|, end);
    PickedFromBytes(t.body[w.pos..end], w.bits, bits, rest);
  }

  lemma SourceBitsAre(t: E.Target, w: E.Writing, count: nat, end: nat)
    requires t.Valid() && t.preserve && w.pos <= end <= t.end && end - w.pos <= 8
    requires end - w.pos == (|w.bits| + count + 7) / 8
    ensures end - w.pos <= E.Remaining(t, w)
    ensures E.SourceBits(t, w, count) == Low(Shr(LeLoad(t.body[w.pos..end]), |w.bits|), count)
  {
    assert E.Ahead(t, w, end - w.pos) == t.body[w.pos..end];
  }

  lemma WholeLength(used: nat, rest: nat, bytes: nat)
    requires used + rest == 8 * bytes && rest < 8
    ensures (used + 7) / 8 == bytes
  {
  }

  lemma GatheredKeeps(src: D.Source, st: D.Reading, t: E.Target, h: seq<Byte>, w: E.Writing, bits: seq<bool>)
    requires IsSameSource(src, t) && IsKept(t, h, w) && !w.stopped && 1 <= |bits| <= 56
    requires w.pos <= st.pos <= src.end && |st.bits| < 8 && w.taken + |bits| == st.taken
    requires (w.bits + bits) + st.bits == BytesBits(t.body[w.pos..st.pos])
    ensures E.PutBits(t, w, FromBits(bits), |bits|).Some?
    ensures IsInStep(src, st, t, h, E.PutBits(t, w, FromBits(bits), |bits|).value)
  {
    hide E.Flush, BytesBits, ToBits, FromBits, E.PutBits;
    GatheredBits(t, w, bits);
    var filled := w.(bits := w.bits + bits, taken := w.taken + |bits|);
    FlushKeeps(t, h, filled, st.bits, st.pos);
    var w' := E.Flush(t, filled);
    HalvesAfter(src.body, w'.bits, st.bits, w'.pos, st.pos);
  }

  lemma GatheredBits(t: E.Target, w: E.Writing, bits: seq<bool>)
    requires 1 <= |bits| <= 56
    ensures E.PutBits(t, w, FromBits(bits), |bits|)
         == Some(E.Flush(t, w.(bits := w.bits + bits, taken := w.taken + |bits|)))
  {
    hide E.Flush, ToBits, FromBits;
    ToFromBits(bits);
  }

  lemma HalvesAfter(body: seq<Byte>, low: seq<bool>, high: seq<bool>, written: nat, read: nat)
    requires written <= read <= |body| && |low| < 8 && |high| < 8
    requires low + high == BytesBits(body[written..read])
    ensures AreHalves(body, low, high, written, read)
  {
    assert |low + high| == 8 * (read - written);
    if high != [] {
      assert read == written + 1;
      BytesBitsStep(body, written, read);
      assert BytesBits(body[read..read]) == [];
    }
  }
}

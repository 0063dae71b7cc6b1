/**
 Reading what has been written: where the decoder stands in the stream of bits
 the encoder has produced.
 */
module Reread {
  import opened Wrappers
  import opened Bytes
  import opened BitRuns
  import opened Schema
  import opened WellFormed
  import opened Lockstep
  import opened Scalars
  import opened Stream
  import D = Decoding
  import E = Encoding

  /** Data is what has been written in the end, from a base on. */
  ghost predicate IsData(src: D.Source, x: seq<Byte>, b: nat) {
    src.Valid() && src.end == |x| == |src.body| && forall j | b <= j < |x| :: src.body[j] == x[j]
  }

  /** What has been written so far is the beginning of what has been in the end. */
  ghost predicate IsAhead(w: E.Writing, x: seq<Byte>) {
    StreamOf(w) <= BytesBits(x)
  }

  /** The decoder has taken from the data as many bits as have been put there. */
  ghost predicate IsAt(src: D.Source, st: D.Reading, x: seq<Byte>, b: nat, w: E.Writing) {
    && IsData(src, x, b) && IsAhead(w, x) && IsSteady(w) && b <= |w.out|
    && |st.bits| < 8 && st.taken == w.taken && st.pos <= |x|
    && 8 * st.pos == |StreamOf(w)| + |st.bits|
    && st.bits == BytesBits(x)[|StreamOf(w)|..8 * st.pos]
  }

  lemma BitsOfSlice(x: seq<Byte>, p: nat, q: nat)
    requires p <= q <= |x|
    ensures BytesBits(x[p..q]) == BytesBits(x)[8 * p..8 * q]
  {
    hide BytesBits;
    var a, m, c := x[..p], x[p..q], x[q..];
    assert x == (a + m) + c;
    BytesBitsConcat(a, m);
    BytesBitsConcat(a + m, c);
    MiddleOf(BytesBits(a), BytesBits(m), BytesBits(c), 8 * p, 8 * q);
  }

  lemma MiddleOf<T>(a: seq<T>, m: seq<T>, c: seq<T>, from: nat, to: nat)
    requires |a| == from && |a| + |m| == to
    ensures ((a + m) + c)[from..to] == m
  {
  }

  lemma {:induction false} BytesPrefix(a: seq<Byte>, x: seq<Byte>)
    requires BytesBits(a) <= BytesBits(x)
    ensures a <= x
  {
    if a != [] {
      assert x != [];
      SplitBehind(ByteBits(a[0]), BytesBits(a[1..]), BytesBits(x)[8 * |a|..], ByteBits(x[0]), BytesBits(x[1..])) by {
        assert BytesBits(x) == BytesBits(a) + BytesBits(x)[8 * |a|..];
      }
      ByteRoundTrip(a[0]);
      ByteRoundTrip(x[0]);
      BytesPrefix(a[1..], x[1..]);
    }
  }

  lemma {:induction false} TakeSucceeds(src: D.Source, st: D.Reading, count: nat)
    requires src.Valid() && st.pos <= src.end && 1 <= count <= D.BITS_MAX
    requires |st.bits| + 8 * (src.end - st.pos) >= count
    ensures D.TakeBits(src, st, count).0
    decreases if |st.bits| < count then count - |st.bits| else 0
  {
    if |st.bits| < count {
      TakeSucceeds(src, st.(pos := st.pos + 1, bits := st.bits + ByteBits(src.body[st.pos])), count);
    }
  }

  /** A range of bits is taken as it has been put. */
  lemma RangeIsReread(src: D.Source, st: D.Reading, x: seq<Byte>, b: nat, t: E.Target, w: E.Writing,
                      raw: nat, count: nat)
    requires IsAt(src, st, x, b, w) && E.PutBits(t, w, raw, count).Some?
    requires IsAhead(E.PutBits(t, w, raw, count).value, x)
    ensures var (ok, st', bits) := D.TakeBits(src, st, count);
      && ok && bits == ToBits(raw, count) && IsAt(src, st', x, b, E.PutBits(t, w, raw, count).value)
      && st' == st.(pos := st'.pos, bits := st'.bits, taken := st.taken + count)
  {
    hide E.PutBits, D.TakeBits, StreamOf, ToBits;
    var w' := E.PutBits(t, w, raw, count).value;
    CountIsInRange(t, w, raw, count);
    PutBitsStreams(t, w, raw, count);
    TakeSucceeds(src, st, count);
    TakenBits(src, st, count);
    var (ok, st', bits) := D.TakeBits(src, st, count);
    SameBytes(src, x, b, st.pos, st'.pos);
    BitsOfSlice(x, st.pos, st'.pos);
    var all, from := BytesBits(x), |StreamOf(w)|;
    JoinedSlices(all, from, 8 * st.pos, 8 * st'.pos);
    SlicedParts(all, from, 8 * st'.pos, bits, st'.bits);
    SlicedPrefix(all, StreamOf(w), ToBits(raw, count));
  }

  lemma CountIsInRange(t: E.Target, w: E.Writing, raw: nat, count: nat)
    requires E.PutBits(t, w, raw, count).Some?
    ensures 1 <= count <= D.BITS_MAX
  {
  }

  lemma SameBytes(src: D.Source, x: seq<Byte>, b: nat, p: nat, q: nat)
    requires IsData(src, x, b) && b <= p <= q <= |x|
    ensures src.body[p..q] == x[p..q]
  {
  }

  lemma JoinedSlices<T>(all: seq<T>, a: nat, m: nat, c: nat)
    requires a <= m <= c <= |all|
    ensures all[a..m] + all[m..c] == all[a..c]
  {
  }

  lemma SlicedParts<T>(all: seq<T>, a: nat, c: nat, low: seq<T>, high: seq<T>)
    requires a <= c <= |all| && low + high == all[a..c]
    ensures a + |low| <= c && low == all[a..a + |low|] && high == all[a + |low|..c]
  {
    assert |low + high| == c - a;
    assert low == (low + high)[..|low|] && high == (low + high)[|low|..];
  }

  lemma SlicedPrefix<T>(all: seq<T>, a: seq<T>, b: seq<T>)
    requires a + b <= all
    ensures b == all[|a|..|a| + |b|]
  {
    assert b == (a + b)[|a|..];
  }

  /** Between two runs of bits the decoder stands right behind what has been written. */
  lemma StandsBehind(src: D.Source, st: D.Reading, x: seq<Byte>, b: nat, w: E.Writing)
    requires IsAt(src, st, x, b, w) && IsShut(w)
    ensures st.pos == |w.out| && IsClosed(st) && w.out <= x
  {
    assert StreamOf(w) == BytesBits(w.out);
    BytesPrefix(w.out, x);
  }

  /** Bytes are read as they have been written. */
  lemma BytesAreReread(src: D.Source, st: D.Reading, x: seq<Byte>, b: nat, w: E.Writing, w': E.Writing, data: seq<Byte>)
    requires IsAt(src, st, x, b, w) && IsShut(w)
    requires IsAhead(w', x) && w'.out == w.out + data && w'.bits == w.bits && w'.taken == w.taken
    ensures |data| <= D.Remaining(src, st) && D.Ahead(src, st, |data|) == data
    ensures IsAt(src, st.(pos := st.pos + |data|), x, b, w')
  {
    StandsBehind(src, st, x, b, w);
    assert StreamOf(w') == BytesBits(w'.out);
    BytesPrefix(w'.out, x);
    SlicedPrefix(x, w.out, data);
    SameBytes(src, x, b, st.pos, st.pos + |data|);
  }
}

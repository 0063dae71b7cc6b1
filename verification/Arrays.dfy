/**
 Runs of bits and arrays in the preserve mode: the numbers an array begins
 with, and the elements stepped over.
 */
module Arrays {
  import opened Wrappers
  import opened Bytes
  import opened BitRuns
  import opened Schema
  import opened WellFormed
  import opened Frame
  import opened Lockstep
  import opened Scalars
  import opened Preserve
  import D = Decoding
  import E = Encoding

  // Numbers

  /** A number which has been read is written back from what is known of it. */
  lemma NumberKeeps(src: D.Source, st: D.Reading, t: E.Target, h: seq<Byte>, w: E.Writing, length: nat)
    requires HasReached(src, st, t, h, w) && D.ReadNumber(src, st, length).0
    ensures var (ok, st', n) := D.ReadNumber(src, st, length);
      && 1 <= length <= 8 && length <= E.Remaining(t, w) && n < Pow256(length)
      && E.PeekRaw(t, w, length) == Some(n)
      && st' == st.(pos := st.pos + length)
      && (var r := E.PutRaw(t, w, length, n); r.Some? && HasReached(src, st', t, h, r.value))
      && E.Remaining(t, E.PutRaw(t, w, length, n).value) == E.Remaining(t, w) - length
  {
    var data := D.Ahead(src, st, length);
    StoreLoad(data);
    LoadIsBounded(data);
    BytesKeep(src, st, t, h, w, length, data);
  }

  lemma StoredWhole(m: Member, length: nat, n: nat)
    requires IsWordSize(m.size) && length <= m.size && n < Pow256(length)
    ensures Store(m, n) == Some(map[m.id := Number(n)])
  {
    PowIsMonotone(length, m.size);
    SmallModulo(n, Pow256(m.size));
  }

  /** Numbers of an array the members hold in the end. */
  ghost predicate AreNumbersHeld(f: Field, hd: D.Header, final: Info)
    requires f.Array?
  {
    && Load(final, f.counter) <= hd.count
    && (f.countLength == 0 || f.countMember.None? || Load(final, f.countMember.value) == hd.count)
    && (f.strideLength == 0 || f.strideMember.None? || Load(final, f.strideMember.value) == hd.stride)
  }

  lemma HeaderKeeps(src: D.Source, st: D.Reading, t: E.Target, h: seq<Byte>, w: E.Writing,
                    f: Field, info: Info, final: Info)
    requires HasReached(src, st, t, h, w) && f.Array? && IsFieldOk(f)
    requires var hd := D.DecodeHeader(src, f, st, info); hd.ok && AreNumbersHeld(f, hd, final)
    ensures var hd := D.DecodeHeader(src, f, st, info);
      && f.countLength + f.strideLength <= E.Remaining(t, w)
      && var r := E.EncodeHeader(t, w, f, final, Load(final, f.counter));
        && r.Some? && HasReached(src, hd.st, t, h, r.value.w)
        && r.value.stride == hd.stride
        && r.value.count == (if f.countLength == 0 then Load(final, f.counter) else hd.count)
  {
    hide Pow256, Store, D.ReadNumber, E.PutRaw, E.PeekRaw, E.FieldsSize;
    if f.countLength != 0 {
      NumberKeeps(src, st, t, h, w, f.countLength);
      var (_, st0, count) := D.ReadNumber(src, st, f.countLength);
      if f.strideLength != 0 {
        var w0 := E.PutRaw(t, w, f.countLength, count).value;
        NumberKeeps(src, st0, t, h, w0, f.strideLength);
      }
    }
  }

  // Runs of bits

  /** State inside a run of bits, or between two fields. */
  ghost predicate IsOnTrack(src: D.Source, st: D.Reading, t: E.Target, h: seq<Byte>, w: E.Writing) {
    IsSameSource(src, t) && IsInStep(src, st, t, h, w) && IsAligned(st)
  }

  lemma ClosedOnTrack(src: D.Source, st: D.Reading, t: E.Target, h: seq<Byte>, w: E.Writing)
    ensures HasReached(src, st, t, h, w) ==> IsOnTrack(src, st, t, h, w) && IsKept(t, h, w) && !w.stopped
    ensures IsOnTrack(src, st, t, h, w) && st.taken == 0 ==> HasReached(src, st, t, h, w)
  {
  }

  lemma BitsKeep(src: D.Source, st: D.Reading, t: E.Target, h: seq<Byte>, w: E.Writing,
                 f: Field, info: Info, final: Info)
    requires IsOnTrack(src, st, t, h, w) && f.Bits? && 1 <= f.width <= 56 && IsFieldOk(f)
    requires var one := D.DecodeBits(src, f, st, info);
      !one.st.lost && forall k | k in Writes(f) :: IsSameAt(final, one.info, k)
    ensures var one := D.DecodeBits(src, f, st, info);
      var r := E.EncodeBits(t, w, f, final);
      && one.ok && r.Some? && IsOnTrack(src, one.st, t, h, r.value) && one.st.taken == st.taken + f.width
  {
    hide E.PutBits, D.TakeBits, IsInStep, E.SourceBits;
    var (ok, st', bits) := D.TakeBits(src, st, f.width);
    RangeKeeps(src, st, t, h, w, f.width);
    if f.range.Some? {
      RangeIsHeld(f, Data(FromBits(bits), NoText, []), info, final);
    }
  }

  lemma RangeIsHeld(f: Field, data: Data, info: Info, final: Info)
    requires f.Bits? && IsFieldOk(f) && Apply(f, data).Some?
    requires forall k | k in Writes(f) :: IsSameAt(final, info + Apply(f, data).value, k)
    ensures E.ValueData(f, final, Some(data)) == Some((data, true))
  {
  }

  lemma PadKeeps(src: D.Source, st: D.Reading, t: E.Target, h: seq<Byte>, w: E.Writing, f: Field, info: Info)
    requires IsOnTrack(src, st, t, h, w) && f.Pad? && f.unit > 0 && f.unit % 8 == 0
    requires st.taken % f.unit == 0 || f.unit - st.taken % f.unit <= 56
    requires !D.DecodePad(src, f, st, info).st.lost
    ensures var one := D.DecodePad(src, f, st, info);
      var r := E.EncodePad(t, w, f);
      one.ok && r.Some? && HasReached(src, one.st, t, h, r.value) && one.info == info
  {
    hide E.PutBits, D.TakeBits, E.SourceBits;
    var taken := st.taken % f.unit;
    if taken == 0 {
      WholeUnits(|st.bits|, st.taken, f.unit);
    } else {
      var (ok, st', bits) := D.TakeBits(src, st, f.unit - taken);
      RangeKeeps(src, st, t, h, w, f.unit - taken);
      UnitIsFilled(st.taken, f.unit);
      WholeUnits(|st'.bits|, st'.taken, f.unit);
    }
  }

  lemma UnitIsFilled(taken: nat, unit: nat)
    requires unit > 0
    ensures (taken + (unit - taken % unit)) % unit == 0
  {
    var q := taken / unit;
    assert taken + (unit - taken % unit) == (q + 1) * unit + 0;
    DivisionIsUnique(taken + (unit - taken % unit), unit, q + 1, 0);
  }

  /** No bits are left behind once whole units of whole bytes have been taken. */
  lemma WholeUnits(left: nat, taken: nat, unit: nat)
    requires unit > 0 && unit % 8 == 0 && taken % unit == 0 && left < 8 && (left + taken) % 8 == 0
    ensures left == 0
  {
    var q, m := taken / unit, unit / 8;
    assert taken == q * (8 * m);
    assert q * (8 * m) == 8 * (q * m);
  }

  // Elements stepped over

  lemma SkipsAgree(f: Field, count: nat, stride: nat, remaining: nat)
    requires f.Array? && IsFieldOk(f)
    requires count < Pow256(f.countLength)
    requires if f.strideLength == 0 then stride == f.stride else stride < Pow256(f.strideLength)
    ensures E.SkipLength(remaining, count, stride) <= count * stride
    ensures Min(count * stride % WORD_LIMIT, remaining) == Min(E.SkipLength(remaining, count, stride), remaining)
    ensures E.SkipLength(remaining, count, stride) <= remaining
  {
    hide Pow256;
    if stride != 0 {
      var limit := if f.strideLength == 0 then f.stride else Pow256(f.strideLength);
      var total, product := Pow256(f.countLength) * limit, count * stride;
      ProductGrows(count, Pow256(f.countLength), stride, limit);
      SmallProduct(product, total);
      QuotientBounds(count, stride, remaining);
    }
  }

  lemma SmallProduct(product: nat, total: nat)
    requires product < total <= WORD_LIMIT
    ensures product % WORD_LIMIT == product
  {
  }

  lemma ProductGrows(a: nat, b: nat, c: nat, d: nat)
    requires a < b && c <= d && 0 < c
    ensures a * c < b * d
  {
    assert a * c < b * c;
    assert b * c <= b * d;
  }

  lemma QuotientBounds(count: nat, stride: nat, remaining: nat)
    requires stride > 0
    ensures count > remaining / stride <==> count * stride > remaining
  {
    var q := remaining / stride;
    assert remaining == q * stride + remaining % stride;
    if count > q {
      assert count * stride >= (q + 1) * stride == q * stride + stride;
    } else {
      assert count * stride <= q * stride;
    }
  }
}

/**
 What has been written as a stream of bits: writing only ever appends to it, and
 the decoder takes from it what has been put there.
 */
module Stream {
  import opened Wrappers
  import opened Bytes
  import opened BitRuns
  import opened Schema
  import opened WellFormed
  import opened Lockstep
  import opened Scalars
  import opened Preserve
  import opened Arrays
  import opened Identity
  import D = Decoding
  import E = Encoding

  /** Bits written so far, those of the bytes and then the ones gathered for the next byte. */
  function StreamOf(w: E.Writing): (bits: seq<bool>)
    ensures |bits| == 8 * |w.out| + |w.bits|
  {
    BytesBits(w.out) + w.bits
  }

  /** Fewer bits than a byte are gathered, as many as the run of them has behind its last byte. */
  predicate IsSteady(w: E.Writing) {
    |w.bits| < 8 && w.taken % 8 == |w.bits|
  }

  /** Strings of a set are different ones. */
  predicate AreDistinct(strings: seq<Option<seq<Byte>>>) {
    && (forall k | 0 <= k < |strings| :: strings[k].Some?)
    && (forall j, k | 0 <= j < k < |strings| :: strings[j] != strings[k])
  }

  ghost predicate Grows(w: E.Writing, w': E.Writing) {
    && w.out <= w'.out && StreamOf(w) <= StreamOf(w')
    && w.strings <= w'.strings && (AreDistinct(w.strings) ==> AreDistinct(w'.strings))
  }

  lemma GrowsOn(a: E.Writing, b: E.Writing, c: E.Writing)
    requires Grows(a, b) && Grows(b, c)
    ensures Grows(a, c)
  {
    hide StreamOf, AreDistinct;
  }

  // Runs of bits

  lemma {:induction false} FlushStreams(t: E.Target, w: E.Writing)
    ensures var w' := E.Flush(t, w);
      && StreamOf(w') == StreamOf(w) && |w'.bits| == |w.bits| % 8 && w.out <= w'.out
      && w' == w.(out := w'.out, pos := w'.pos, bits := w'.bits)
    decreases |w.bits|
  {
    hide BytesBits, ToBits, FromBits;
    if |w.bits| >= 8 {
      var low, high := w.bits[..8], w.bits[8..];
      EightBitsAreAByte(low);
      var next := E.Put(t, w.(bits := high), [FromBits(low)]);
      FlushStreams(t, next);
      ByteIsStreamed(w.out, low, high);
      assert low + high == w.bits;
    }
  }

  lemma ByteIsStreamed(out: seq<Byte>, low: seq<bool>, high: seq<bool>)
    requires |low| == 8 && FromBits(low) < 256
    ensures BytesBits(out + [FromBits(low)]) + high == BytesBits(out) + (low + high)
  {
    ToFromBits(low);
    BytesBitsConcat(out, [FromBits(low)]);
    assert BytesBits([FromBits(low)]) == low by {
      assert BytesBits([FromBits(low)]) == ByteBits(FromBits(low)) + BytesBits([]);
    }
    Associative(BytesBits(out), low, high);
  }

  /** A range of bits goes behind the bits there are. */
  lemma PutBitsStreams(t: E.Target, w: E.Writing, raw: nat, count: nat)
    requires IsSteady(w) && E.PutBits(t, w, raw, count).Some?
    ensures var w' := E.PutBits(t, w, raw, count).value;
      && StreamOf(w') == StreamOf(w) + ToBits(raw, count) && IsSteady(w') && w.out <= w'.out
      && w'.taken == w.taken + count && w'.strings == w.strings && w'.stopped == w.stopped
  {
    hide BytesBits;
    var filled := w.(bits := w.bits + ToBits(raw, count), taken := w.taken + count);
    FlushStreams(t, filled);
    Associative(BytesBits(w.out), w.bits, ToBits(raw, count));
    SameRest(w.taken, count);
  }

  lemma SameRest(taken: nat, count: nat)
    ensures (taken + count) % 8 == (taken % 8 + count) % 8
  {
    assert taken == 8 * (taken / 8) + taken % 8;
  }

  lemma BytesGrow(w: E.Writing, w': E.Writing)
    requires w.bits == w'.bits == [] && w.out <= w'.out
    ensures StreamOf(w) <= StreamOf(w')
  {
    var more := w'.out[|w.out|..];
    assert w'.out == w.out + more;
    BytesBitsConcat(w.out, more);
  }

  // Scalar fields

  /** Only bytes have been written, and strings added. */
  ghost predicate HasPut(w: E.Writing, w': E.Writing) {
    && w.out <= w'.out && w'.bits == w.bits && w'.taken == w.taken && w'.stopped == w.stopped
    && w.strings <= w'.strings && (AreDistinct(w.strings) ==> AreDistinct(w'.strings))
  }

  lemma PutHasPut(t: E.Target, w: E.Writing, data: seq<Byte>)
    ensures HasPut(w, E.Put(t, w, data))
  {
  }

  lemma HasPutGrows(w: E.Writing, w': E.Writing)
    requires HasPut(w, w') && w.bits == []
    ensures Grows(w, w')
  {
    BytesGrow(w, w');
  }

  lemma StringHasPut(t: E.Target, w: E.Writing, text: Text)
    requires !t.preserve && !text.NoText? && E.PutString(t, w, text).Some?
    ensures HasPut(w, E.PutString(t, w, text).value)
  {
    hide E.FindString;
  }

  lemma DataHasPut(t: E.Target, w: E.Writing, f: Field, data: Data)
    requires t.Valid() && !t.preserve && E.PutData(t, w, f, data).Some?
    ensures HasPut(w, E.PutData(t, w, f, data).value)
  {
    hide E.PutString, E.Put, HasPut;
    if f.String? {
      if data.number != 0 || data.text.NoText? {
        PutHasPut(t, w, [data.number % 256]);
      } else {
        StringHasPut(t, w, data.text);
      }
    } else if f.Raw? && f.extent.Fixed? {
      PutHasPut(t, w, E.Reserved(t, w, f.extent.length));
      if f.extent.length <= |data.bytes| {
        PutHasPut(t, w, data.bytes[..f.extent.length]);
      }
    } else {
      PutHasPut(t, w, LeStore(data.number, Width(f)));
    }
  }

  lemma FixedHasPut(t: E.Target, w: E.Writing, f: Field, info: Info)
    requires E.IsFixed(f) && E.EncodeFixed(t, w, f, info).Some?
    ensures HasPut(w, E.EncodeFixed(t, w, f, info).value)
  {
    hide E.Put, HasPut;
    if f.Uuid? {
      PutHasPut(t, w, SwapUuid(UuidAt(info, f.member.id)));
    } else if f.Raw? {
      PutHasPut(t, w, BinaryAt(info, f.member.id));
    } else {
      PutHasPut(t, w, LeStore(f.unknown, f.length));
      PutHasPut(t, w, BcdSpell(Load(info, f.member), f.length));
    }
  }

  lemma ScalarHasPut(t: E.Target, w: E.Writing, fs: seq<Field>, i: nat, info: Info, choices: seq<Choice>)
    requires t.Valid() && !t.preserve && i < |fs| && E.EncodeScalar(t, w, fs, i, info, choices).Some?
    ensures HasPut(w, E.EncodeScalar(t, w, fs, i, info, choices).value.0)
  {
    hide E.PutData, E.EncodeFixed, HasPut, E.Put, E.GovernedFit, E.ValueData, E.ExtendedOf;
    var f := fs[i];
    if E.IsFixed(f) {
      FixedHasPut(t, w, f, info);
    } else {
      PutHasPut(t, w, E.Reserved(t, w, Width(f)));
      AnyDataHasPut(t, w, f);
    }
  }

  lemma AnyDataHasPut(t: E.Target, w: E.Writing, f: Field)
    requires t.Valid() && !t.preserve
    ensures forall data: Data :: E.PutData(t, w, f, data).Some? ==> HasPut(w, E.PutData(t, w, f, data).value)
  {
    forall data: Data | E.PutData(t, w, f, data).Some?
      ensures HasPut(w, E.PutData(t, w, f, data).value)
    {
      DataHasPut(t, w, f, data);
    }
  }

  // Lists

  /** No run of bits is open. */
  predicate IsShut(w: E.Writing) {
    w.bits == [] && w.taken == 0
  }

  lemma {:induction false} ListGrows(t: E.Target, w: E.Writing, fs: seq<Field>, info: Info)
    requires t.Valid() && !t.preserve && IsWellFormed(fs, t.version) && IsShut(w)
    requires E.EncodeList(t, w, fs, info).Some?
    ensures var w' := E.EncodeList(t, w, fs, info).value; Grows(w, w') && IsShut(w')
    decreases fs, 4
  {
    FromGrows(t, w, fs, 0, info, Collect(fs));
  }

  lemma {:induction false} FromGrows(t: E.Target, w: E.Writing, fs: seq<Field>, i: nat, info: Info,
                                     choices: seq<Choice>)
    requires t.Valid() && !t.preserve && IsWellFormed(fs, t.version)
    requires IsSteady(w) && AreRunsOk(fs, i, w.taken, t.version) && (w.stopped ==> IsShut(w))
    requires E.EncodeFrom(t, w, fs, i, info, choices).Some?
    ensures var w' := E.EncodeFrom(t, w, fs, i, info, choices).value; Grows(w, w') && IsShut(w')
    decreases fs, 3, |fs| - i
  {
    hide IsWellFormed, E.EncodeOne, Grows, E.Ends;
    GrowsReflexive(w);
    if i < |fs| && !w.stopped {
      if IsField(fs, i, t.version) {
        OneGrows(t, w, fs, i, info, choices);
        var (w', choices') := E.EncodeOne(t, w, fs, i, info, choices).value;
        FromGrows(t, w', fs, i + 1, info, choices');
        GrowsOn(w, w', E.EncodeFrom(t, w', fs, i + 1, info, choices').value);
      } else {
        var w' := if fs[i].Group? && E.Ends(t, w, fs[i], info) then w.(stopped := true) else w;
        StoppedGrows(w);
        FromGrows(t, w', fs, i + 1, info, choices);
        GrowsOn(w, w', E.EncodeFrom(t, w', fs, i + 1, info, choices).value);
      }
    }
  }

  lemma GrowsReflexive(w: E.Writing)
    ensures Grows(w, w)
  {
  }

  lemma StoppedGrows(w: E.Writing)
    ensures Grows(w, w.(stopped := true))
  {
  }

  lemma {:induction false} OneGrows(t: E.Target, w: E.Writing, fs: seq<Field>, i: nat, info: Info, choices: seq<Choice>)
    requires t.Valid() && !t.preserve && IsWellFormed(fs, t.version) && IsField(fs, i, t.version)
    requires IsSteady(w) && AreRunsOk(fs, i, w.taken, t.version)
    requires E.EncodeOne(t, w, fs, i, info, choices).Some?
    ensures var w' := E.EncodeOne(t, w, fs, i, info, choices).value.0;
      && Grows(w, w') && IsSteady(w') && AreRunsOk(fs, i + 1, w'.taken, t.version)
      && (w'.stopped ==> w.stopped || IsShut(w'))
    decreases fs, 2
  {
    hide IsWellFormed, E.EncodeScalar, E.EncodeList, E.EncodeVector, E.EncodeArray, E.EncodeBits, E.EncodePad, Grows;
    hide E.Put, HasPut;
    NestedIsWellFormed(fs, i, t.version);
    WellFormedFields(fs, i, t.version);
    var f := fs[i];
    if f.Bits? {
      BitsGrow(t, w, f, info);
    } else if f.Pad? {
      PadGrows(t, w, f);
    } else {
      assert IsShut(w);
      if f.Struct? {
        ListGrows(t, w, f.fields, RecordAt(info, f.member.id));
      } else if f.Vector? {
        VectorGrows(t, w, f, 0, RecordsAt(info, f.member.id));
      } else if f.Array? {
        ArrayGrows(t, w, f, info);
      } else if f.Skip? {
        PutHasPut(t, w, E.Reserved(t, w, f.length));
        PutIsShut(w, E.Copy(t, w, f.length));
      } else {
        ScalarHasPut(t, w, fs, i, info, choices);
        PutIsShut(w, E.EncodeScalar(t, w, fs, i, info, choices).value.0);
      }
    }
  }

  lemma PutIsShut(w: E.Writing, w': E.Writing)
    requires HasPut(w, w') && IsShut(w)
    ensures Grows(w, w') && IsShut(w') && IsSteady(w') && w'.stopped == w.stopped
  {
    HasPutGrows(w, w');
  }

  lemma BitsGrow(t: E.Target, w: E.Writing, f: Field, info: Info)
    requires t.Valid() && !t.preserve && f.Bits? && IsSteady(w) && E.EncodeBits(t, w, f, info).Some?
    ensures var w' := E.EncodeBits(t, w, f, info).value;
      Grows(w, w') && IsSteady(w') && w'.taken == w.taken + f.width && w'.stopped == w.stopped
  {
    hide E.PutBits, E.ValueData, StreamOf, AreDistinct, IsSteady;
    var raw := if f.range.None? then 0 else E.ValueData(f, info, None).value.0.number;
    PutBitsStreams(t, w, raw, f.width);
  }

  lemma PadGrows(t: E.Target, w: E.Writing, f: Field)
    requires t.Valid() && !t.preserve && f.Pad? && IsSteady(w) && f.unit > 0 && f.unit % 8 == 0
    requires E.EncodePad(t, w, f).Some?
    ensures var w' := E.EncodePad(t, w, f).value;
      Grows(w, w') && IsShut(w') && IsSteady(w') && w'.stopped == w.stopped
  {
    hide E.PutBits, StreamOf, AreDistinct;
    var taken := w.taken % f.unit;
    UnitIsBytes(w.taken, f.unit);
    if taken != 0 {
      PutBitsStreams(t, w, 0, f.unit - taken);
      UnitIsFilled(w.taken, f.unit);
      UnitIsBytes(w.taken + (f.unit - taken), f.unit);
      SameStream(E.PutBits(t, w, 0, f.unit - taken).value, 0);
    } else {
      SameStream(w, 0);
    }
  }

  lemma SameStream(w: E.Writing, taken: nat)
    ensures StreamOf(w.(taken := taken)) == StreamOf(w)
  {
  }

  /** Whole units are whole bytes. */
  lemma UnitIsBytes(taken: nat, unit: nat)
    requires unit > 0 && unit % 8 == 0
    ensures taken % unit == 0 ==> taken % 8 == 0
  {
    var q, m := taken / unit, unit / 8;
    if taken % unit == 0 {
      assert taken == q * (8 * m);
      assert q * (8 * m) == 8 * (q * m);
    }
  }

  lemma {:induction false} VectorGrows(t: E.Target, w: E.Writing, f: Field, i: nat, elements: seq<Info>)
    requires t.Valid() && !t.preserve && f.Vector? && IsWellFormed(f.fields, t.version) && IsShut(w)
    requires E.EncodeVector(t, w, f, i, elements).Some?
    ensures var w' := E.EncodeVector(t, w, f, i, elements).value; Grows(w, w') && IsShut(w')
    decreases f, 1, f.count - i
  {
    hide IsWellFormed, E.EncodeList, Grows;
    GrowsReflexive(w);
    if i < f.count {
      ListGrows(t, w, f.fields, ElementAt(elements, i));
      var w' := E.EncodeList(t, w, f.fields, ElementAt(elements, i)).value;
      VectorGrows(t, w', f, i + 1, elements);
      GrowsOn(w, w', E.EncodeVector(t, w', f, i + 1, elements).value);
    }
  }

  lemma HeaderHasPut(t: E.Target, w: E.Writing, f: Field, info: Info, counter: nat)
    requires t.Valid() && !t.preserve && f.Array? && E.EncodeHeader(t, w, f, info, counter).Some?
    ensures HasPut(w, E.EncodeHeader(t, w, f, info, counter).value.w)
  {
    hide E.FieldsSize, LeStore, AreDistinct;
  }

  lemma {:induction false} ArrayGrows(t: E.Target, w: E.Writing, f: Field, info: Info)
    requires t.Valid() && !t.preserve && f.Array? && IsWellFormed(f.fields, t.version) && IsShut(w)
    requires E.EncodeArray(t, w, f, info).Some?
    ensures var w' := E.EncodeArray(t, w, f, info).value; Grows(w, w') && IsShut(w')
    decreases f, 2
  {
    hide IsWellFormed, E.EncodeHeader, E.EncodeElements, Grows, E.Copy, IsSkipped, HasPut, IsSteady;
    var counter := Load(info, f.counter);
    var h := E.EncodeHeader(t, w, f, info, counter).value;
    HeaderHasPut(t, w, f, info, counter);
    PutIsShut(w, h.w);
    if IsSkipped(f, h.stride) {
      var n := E.SkipLength(E.Remaining(t, h.w), h.count, h.stride);
      PutHasPut(t, h.w, E.Reserved(t, h.w, n));
      CopyIsPut(t, h.w, n);
      PutIsShut(h.w, E.Copy(t, h.w, n));
      GrowsOn(w, h.w, E.Copy(t, h.w, n));
    } else {
      ElementsGrow(t, h.w, f, h.stride, RecordsAt(info, f.member.id), counter, 0);
      GrowsOn(w, h.w, E.EncodeArray(t, w, f, info).value);
    }
  }

  lemma CopyIsPut(t: E.Target, w: E.Writing, n: nat)
    requires t.Valid()
    ensures E.Copy(t, w, n) == E.Put(t, w, E.Reserved(t, w, n))
  {
  }

  lemma {:induction false} ElementsGrow(t: E.Target, w: E.Writing, f: Field, stride: nat, elements: seq<Info>,
                                        counter: nat, i: nat)
    requires t.Valid() && !t.preserve && f.Array? && IsWellFormed(f.fields, t.version) && IsShut(w)
    requires E.EncodeElements(t, w, f, stride, elements, counter, i).Some?
    ensures var w' := E.EncodeElements(t, w, f, stride, elements, counter, i).value; Grows(w, w') && IsShut(w')
    decreases f, 1, counter - i
  {
    hide IsWellFormed, E.EncodeElement, Grows;
    GrowsReflexive(w);
    if i < counter && !w.stopped {
      ElementGrows(t, w, f, ElementAt(elements, i), stride);
      var w' := E.EncodeElement(t, w, f, ElementAt(elements, i), stride).value;
      ElementsGrow(t, w', f, stride, elements, counter, i + 1);
      GrowsOn(w, w', E.EncodeElements(t, w', f, stride, elements, counter, i + 1).value);
    }
  }

  lemma {:induction false} ElementGrows(t: E.Target, w: E.Writing, f: Field, element: Info, stride: nat)
    requires t.Valid() && !t.preserve && f.Array? && IsWellFormed(f.fields, t.version) && IsShut(w)
    requires E.EncodeElement(t, w, f, element, stride).Some?
    ensures var w' := E.EncodeElement(t, w, f, element, stride).value; Grows(w, w') && IsShut(w')
    decreases f, 0
  {
    hide IsWellFormed, E.EncodeList, Grows, E.Copy, E.Put, HasPut;
    ListGrows(t, w, f.fields, element);
    var w' := E.EncodeList(t, w, f.fields, element).value;
    if !w'.stopped && |w.out| <= |w'.out| && stride > |w'.out| - |w.out| {
      var n := stride - (|w'.out| - |w.out|);
      PutHasPut(t, w', E.Reserved(t, w', n));
      CopyIsPut(t, w', n);
      PutIsShut(w', E.Copy(t, w', n));
      GrowsOn(w, w', E.Copy(t, w', n));
    }
  }
}

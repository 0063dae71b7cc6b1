/**
 Which fields the canonical mode writes data for: what is written is longer by
 a field exactly when its values carry some.
 */
module Carried {
  import opened Wrappers
  import opened Bytes
  import opened BitRuns
  import opened Schema
  import opened WellFormed
  import opened Scalars
  import opened Preserve
  import opened Identity
  import opened Stream
  import opened Portable
  import E = Encoding

  /** Bits written so far. */
  function Size(w: E.Writing): nat {
    8 * |w.out| + |w.bits|
  }

  lemma GrowsInSize(w: E.Writing, w': E.Writing)
    requires Grows(w, w')
    ensures Size(w) <= Size(w') && |w.out| <= |w'.out|
  {
    hide StreamOf, AreDistinct;
  }

  lemma NestedIsPortable(fs: seq<Field>, i: nat, version: Version, top: bool)
    requires i < |fs| && IsPortable(fs, version, top)
    ensures IsPortable(NestedOf(fs[i]), version, false)
  {
    hide ArePairsPortable, IsFieldPortable;
    if |NestedOf(fs[i])| == 0 {
      assert NestedOf(fs[i]) == [];
      NothingIsPortable(version);
    }
  }

  lemma NothingIsPortable(version: Version)
    ensures IsPortable([], version, false)
  {
  }

  lemma OnlyTopHasGroups(fs: seq<Field>, i: nat, version: Version, top: bool)
    requires i < |fs| && IsPortable(fs, version, top)
    ensures fs[i].Group? ==> top && (fs[i].present.Some? ==> IsWordSize(fs[i].present.value.size))
  {
    hide ArePairsPortable;
    assert IsFieldPortable(fs, i, version, top);
  }

  // Scalar fields

  /** Bytes a scalar field takes. */
  function ScalarSize(f: Field, info: Info): nat {
    if f.Raw? && !f.extent.Fixed? then |BinaryAt(info, f.member.id)| else Width(f)
  }

  lemma ReservedSize(t: E.Target, w: E.Writing, n: nat)
    requires t.Valid()
    ensures |E.Copy(t, w, n).out| == |w.out| + n
  {
  }

  lemma FixedSize(t: E.Target, w: E.Writing, f: Field, info: Info)
    requires E.IsFixed(f) && E.EncodeFixed(t, w, f, info).Some?
    ensures |E.EncodeFixed(t, w, f, info).value.out| == |w.out| + ScalarSize(f, info)
  {
  }

  lemma DataSize(t: E.Target, w: E.Writing, f: Field, info: Info, data: Data)
    requires t.Valid() && !E.IsFixed(f) && E.PutData(t, w, f, data).Some?
    ensures |E.PutData(t, w, f, data).value.out| == |w.out| + ScalarSize(f, info)
  {
    hide E.FindString, E.AddString;
  }

  lemma ScalarIsSized(t: E.Target, w: E.Writing, fs: seq<Field>, i: nat, info: Info, written: seq<Choice>)
    requires t.Valid() && !t.preserve && i < |fs| && E.EncodeScalar(t, w, fs, i, info, written).Some?
    requires IsExtended(fs[i]) ==> fs[i].Integer?
    ensures |E.EncodeScalar(t, w, fs, i, info, written).value.0.out| == |w.out| + ScalarSize(fs[i], info)
  {
    hide E.PutData, E.EncodeFixed, E.GovernedFit, E.ValueData, E.ExtendedOf, E.Copy;
    if E.IsFixed(fs[i]) {
      FixedSize(t, w, fs[i], info);
    } else {
      ReservedSize(t, w, Width(fs[i]));
      forall data: Data | E.PutData(t, w, fs[i], data).Some?
        ensures |E.PutData(t, w, fs[i], data).value.out| == |w.out| + ScalarSize(fs[i], info)
      {
        DataSize(t, w, fs[i], info, data);
      }
    }
  }

  // Lists

  /** A list with no groups is written in full, and is longer exactly when its values carry data. */
  lemma {:induction false} ListFlows(t: E.Target, w: E.Writing, fs: seq<Field>, info: Info)
    requires t.Valid() && !t.preserve && IsWellFormed(fs, t.version) && IsPortable(fs, t.version, false)
    requires IsShut(w) && !w.stopped && E.EncodeList(t, w, fs, info).Some?
    ensures var w' := E.EncodeList(t, w, fs, info).value;
      && Grows(w, w') && IsShut(w') && !w'.stopped
      && (|w.out| < |w'.out| <==> CarriesFrom(fs, 0, info, t.version))
    decreases fs, 4
  {
    hide IsWellFormed, IsPortable, E.EncodeFrom, Grows, CarriesFrom;
    ListRuns(fs, t.version);
    ListGrows(t, w, fs, info);
    FromFlows(t, w, fs, 0, info, Collect(fs), false);
  }

  lemma ListRuns(fs: seq<Field>, version: Version)
    requires IsWellFormed(fs, version)
    ensures AreRunsOk(fs, 0, 0, version)
  {
  }

  lemma {:induction false} FromFlows(t: E.Target, w: E.Writing, fs: seq<Field>, i: nat, info: Info,
                                     written: seq<Choice>, top: bool)
    requires t.Valid() && !t.preserve && IsWellFormed(fs, t.version) && IsPortable(fs, t.version, top)
    requires IsSteady(w) && AreRunsOk(fs, i, w.taken, t.version) && !w.stopped
    requires E.EncodeFrom(t, w, fs, i, info, written).Some?
    ensures var w' := E.EncodeFrom(t, w, fs, i, info, written).value;
      && Size(w) <= Size(w') && (w'.stopped ==> top)
      && (CarriesFrom(fs, i, info, t.version) ==> Size(w) < Size(w'))
      && (IsShut(w) && !CarriesFrom(fs, i, info, t.version) ==> |w'.out| == |w.out|)
    decreases fs, 3, |fs| - i
  {
    hide IsWellFormed, IsPortable, E.EncodeOne, Grows, IsFieldPortable, Carries, IsSteady;
    if i < |fs| {
      if IsField(fs, i, t.version) {
        OneFlows(t, w, fs, i, info, written, top);
        var (w', written') := E.EncodeOne(t, w, fs, i, info, written).value;
        FromFlows(t, w', fs, i + 1, info, written', top);
      } else if fs[i].Group? {
        OnlyTopHasGroups(fs, i, t.version, top);
        if IsLeftOut(fs[i], info, t.version) {
          assert E.EncodeFrom(t, w, fs, i, info, written) == Some(w.(stopped := true)) by {
            assert E.EncodeFrom(t, w.(stopped := true), fs, i + 1, info, written) == Some(w.(stopped := true));
          }
        } else {
          FromFlows(t, w, fs, i + 1, info, written, top);
        }
      } else {
        PassedCarriesNothing(fs[i], info, t.version);
        FromFlows(t, w, fs, i + 1, info, written, top);
      }
    }
  }

  lemma PassedCarriesNothing(f: Field, info: Info, version: Version)
    requires f.Offset? || f.Preset? || !IsDefined(f, version)
    ensures !Carries(f, info, version)
  {
  }

  lemma {:induction false} OneFlows(t: E.Target, w: E.Writing, fs: seq<Field>, i: nat, info: Info,
                                    written: seq<Choice>, top: bool)
    requires t.Valid() && !t.preserve && IsWellFormed(fs, t.version) && IsPortable(fs, t.version, top)
    requires IsField(fs, i, t.version) && IsSteady(w) && AreRunsOk(fs, i, w.taken, t.version) && !w.stopped
    requires E.EncodeOne(t, w, fs, i, info, written).Some?
    ensures var w' := E.EncodeOne(t, w, fs, i, info, written).value.0;
      && Size(w) <= Size(w') && !w'.stopped && IsSteady(w') && AreRunsOk(fs, i + 1, w'.taken, t.version)
      && (Carries(fs[i], info, t.version) ==> Size(w) < Size(w'))
      && (IsShut(w) && !Carries(fs[i], info, t.version) ==> IsShut(w') && |w'.out| == |w.out|)
    decreases fs, 2
  {
    hide IsWellFormed, IsPortable, E.EncodeScalar, E.EncodeList;
    hide E.EncodeVector, E.EncodeArray, E.EncodeBits, E.EncodePad;
    hide Grows, E.Copy, HasPut, Carries, IsFieldOk;
    var f := fs[i];
    NestedIsWellFormed(fs, i, t.version);
    NestedIsPortable(fs, i, t.version, top);
    WellFormedFields(fs, i, t.version);
    OneGrows(t, w, fs, i, info, written);
    GrowsInSize(w, E.EncodeOne(t, w, fs, i, info, written).value.0);
    if f.Bits? {
      BitsFlow(t, w, f, info);
    } else if f.Pad? {
      PadFlows(t, w, f, info);
    } else {
      assert IsShut(w);
      if IsNested(f) {
        NestedFlows(t, w, f, info);
        NestedOneIs(t, w, fs, i, info, written);
      } else if f.Skip? {
        ReservedSize(t, w, f.length);
        SkipFlows(t, w, f, info);
      } else {
        ScalarFlows(t, w, fs, i, info, written);
      }
    }
  }

  lemma NestedOneIs(t: E.Target, w: E.Writing, fs: seq<Field>, i: nat, info: Info, written: seq<Choice>)
    requires t.Valid() && i < |fs| && IsNested(fs[i])
    ensures E.EncodeOne(t, w, fs, i, info, written) == E.Keep(EncodeNested(t, w, fs[i], info), written)
  {
    hide E.EncodeList, E.EncodeVector, E.EncodeArray;
  }

  lemma SkipFlows(t: E.Target, w: E.Writing, f: Field, info: Info)
    requires t.Valid() && f.Skip? && IsShut(w)
    ensures Carries(f, info, t.version) <==> f.length > 0
    ensures IsShut(E.Copy(t, w, f.length)) && E.Copy(t, w, f.length).stopped == w.stopped
  {
  }

  lemma BitsFlow(t: E.Target, w: E.Writing, f: Field, info: Info)
    requires t.Valid() && !t.preserve && f.Bits? && IsDefined(f, t.version) && IsSteady(w)
    requires E.EncodeBits(t, w, f, info).Some?
    ensures Carries(f, info, t.version)
    ensures var w' := E.EncodeBits(t, w, f, info).value; Size(w) < Size(w') && w'.stopped == w.stopped
  {
    hide E.PutBits, E.ValueData, StreamOf;
    var raw := if f.range.None? then 0 else E.ValueData(f, info, None).value.0.number;
    PutBitsStreams(t, w, raw, f.width);
    PositiveCount(t, w, raw, f.width);
  }

  lemma PositiveCount(t: E.Target, w: E.Writing, raw: nat, count: nat)
    requires E.PutBits(t, w, raw, count).Some?
    ensures count > 0
  {
  }

  lemma PadFlows(t: E.Target, w: E.Writing, f: Field, info: Info)
    requires t.Valid() && !t.preserve && f.Pad? && IsSteady(w) && f.unit > 0 && f.unit % 8 == 0
    requires E.EncodePad(t, w, f).Some?
    ensures !Carries(f, info, t.version)
    ensures var w' := E.EncodePad(t, w, f).value;
      IsShut(w') && w'.stopped == w.stopped && (IsShut(w) ==> |w'.out| == |w.out|)
  {
    hide E.EncodePad, Grows;
    PadGrows(t, w, f);
    if IsShut(w) {
      NothingToPad(t, w, f);
    }
  }

  lemma NothingToPad(t: E.Target, w: E.Writing, f: Field)
    requires t.Valid() && f.Pad? && f.unit > 0 && IsShut(w)
    ensures E.EncodePad(t, w, f) == Some(w)
  {
  }

  lemma ScalarFlows(t: E.Target, w: E.Writing, fs: seq<Field>, i: nat, info: Info, written: seq<Choice>)
    requires t.Valid() && !t.preserve && IsField(fs, i, t.version) && IsShut(w) && !w.stopped
    requires !IsNested(fs[i]) && !fs[i].Bits? && !fs[i].Pad? && !fs[i].Skip?
    requires E.EncodeScalar(t, w, fs, i, info, written).Some?
    ensures var w' := E.EncodeScalar(t, w, fs, i, info, written).value.0;
      && IsShut(w') && !w'.stopped
      && (|w.out| < |w'.out| <==> Carries(fs[i], info, t.version)) && |w.out| <= |w'.out|
  {
    hide E.EncodeScalar, Grows;
    ScalarIsSized(t, w, fs, i, info, written);
    ScalarHasPut(t, w, fs, i, info, written);
    PutIsShut(w, E.EncodeScalar(t, w, fs, i, info, written).value.0);
  }

  // Fields made of other fields

  lemma {:induction false} NestedFlows(t: E.Target, w: E.Writing, f: Field, info: Info)
    requires t.Valid() && !t.preserve && IsNested(f) && IsFieldOk(f) && IsShut(w) && !w.stopped
    requires IsWellFormed(NestedOf(f), t.version) && IsPortable(NestedOf(f), t.version, false)
    requires EncodeNested(t, w, f, info).Some?
    ensures var w' := EncodeNested(t, w, f, info).value;
      && IsShut(w') && !w'.stopped && |w.out| <= |w'.out|
      && (|w.out| < |w'.out| <==> Carries(f, info, t.version))
    decreases f, 3
  {
    hide IsWellFormed, IsPortable, Grows, CarriesFrom, E.EncodeList, E.EncodeArray, E.EncodeVector, IsFieldOk;
    if f.Struct? {
      ListFlows(t, w, f.fields, RecordAt(info, f.member.id));
      GrowsInSize(w, E.EncodeList(t, w, f.fields, RecordAt(info, f.member.id)).value);
    } else if f.Vector? {
      VectorFlows(t, w, f, 0, RecordsAt(info, f.member.id));
    } else {
      ArrayFlows(t, w, f, info);
    }
  }

  lemma {:induction false} VectorFlows(t: E.Target, w: E.Writing, f: Field, i: nat, elements: seq<Info>)
    requires t.Valid() && !t.preserve && f.Vector? && IsShut(w) && !w.stopped
    requires IsWellFormed(f.fields, t.version) && IsPortable(f.fields, t.version, false)
    requires E.EncodeVector(t, w, f, i, elements).Some?
    ensures var w' := E.EncodeVector(t, w, f, i, elements).value;
      && IsShut(w') && !w'.stopped && |w.out| <= |w'.out|
      && (|w.out| < |w'.out| <==>
            exists k :: i <= k < f.count && CarriesFrom(f.fields, 0, ElementAt(elements, k), t.version))
    decreases f, 1, f.count - i
  {
    hide IsWellFormed, IsPortable, Grows, CarriesFrom, E.EncodeList;
    if i < f.count {
      ListFlows(t, w, f.fields, ElementAt(elements, i));
      var w' := E.EncodeList(t, w, f.fields, ElementAt(elements, i)).value;
      GrowsInSize(w, w');
      VectorFlows(t, w', f, i + 1, elements);
    }
  }

  lemma {:induction false} ArrayFlows(t: E.Target, w: E.Writing, f: Field, info: Info)
    requires t.Valid() && !t.preserve && f.Array? && IsFieldOk(f) && IsShut(w) && !w.stopped
    requires IsWellFormed(f.fields, t.version) && IsPortable(f.fields, t.version, false)
    requires E.EncodeArray(t, w, f, info).Some?
    ensures var w' := E.EncodeArray(t, w, f, info).value;
      && IsShut(w') && !w'.stopped && |w.out| <= |w'.out|
      && (|w.out| < |w'.out| <==> Carries(f, info, t.version))
    decreases f, 2
  {
    hide IsWellFormed, IsPortable, E.EncodeHeader, E.EncodeElements, Grows, E.Copy, IsSkipped, HasPut, IsFieldOk;
    var counter := Load(info, f.counter);
    var h := E.EncodeHeader(t, w, f, info, counter).value;
    HeaderHasPut(t, w, f, info, counter);
    PutIsShut(w, h.w);
    HeaderSize(t, w, f, info, counter);
    CountlessIsRead(t, w, f, info, counter);
    if IsSkipped(f, h.stride) {
      ReservedSize(t, h.w, E.SkipLength(0, h.count, h.stride));
      CopyStaysShut(t, h.w, E.SkipLength(0, h.count, h.stride));
    } else {
      ElementsFlow(t, h.w, f, h.stride, RecordsAt(info, f.member.id), counter, 0);
    }
  }

  lemma CopyStaysShut(t: E.Target, w: E.Writing, n: nat)
    requires t.Valid() && IsShut(w)
    ensures IsShut(E.Copy(t, w, n)) && E.Copy(t, w, n).stopped == w.stopped
  {
  }

  lemma HeaderSize(t: E.Target, w: E.Writing, f: Field, info: Info, counter: nat)
    requires t.Valid() && !t.preserve && f.Array? && E.EncodeHeader(t, w, f, info, counter).Some?
    ensures var h := E.EncodeHeader(t, w, f, info, counter).value;
      && |h.w.out| == |w.out| + f.countLength + f.strideLength && h.w.stopped == w.stopped
      && (f.strideLength == 0 ==> h.stride == f.stride)
  {
    hide E.FieldsSize;
  }

  /** An array with no count takes the rest of the data, so its elements are of a length of their own. */
  lemma CountlessIsRead(t: E.Target, w: E.Writing, f: Field, info: Info, counter: nat)
    requires f.Array? && IsFieldOk(f)
    ensures f.countLength == 0 ==> f.strideLength == 0 && f.stride != 0 && !IsSkipped(f, f.stride)
  {
  }

  lemma {:induction false} ElementsFlow(t: E.Target, w: E.Writing, f: Field, stride: nat, elements: seq<Info>,
                                        counter: nat, i: nat)
    requires t.Valid() && !t.preserve && f.Array? && IsShut(w) && !w.stopped
    requires IsWellFormed(f.fields, t.version) && IsPortable(f.fields, t.version, false)
    requires E.EncodeElements(t, w, f, stride, elements, counter, i).Some?
    ensures var w' := E.EncodeElements(t, w, f, stride, elements, counter, i).value;
      && IsShut(w') && !w'.stopped && |w.out| <= |w'.out|
      && (stride != 0 && i < counter ==> |w.out| < |w'.out|) && (counter <= i ==> w' == w)
    decreases f, 1, counter - i
  {
    hide IsWellFormed, IsPortable, E.EncodeElement;
    if i < counter {
      ElementFlows(t, w, f, ElementAt(elements, i), stride);
      var w' := E.EncodeElement(t, w, f, ElementAt(elements, i), stride).value;
      ElementsFlow(t, w', f, stride, elements, counter, i + 1);
    }
  }

  lemma {:induction false} ElementFlows(t: E.Target, w: E.Writing, f: Field, element: Info, stride: nat)
    requires t.Valid() && !t.preserve && f.Array? && IsShut(w) && !w.stopped
    requires IsWellFormed(f.fields, t.version) && IsPortable(f.fields, t.version, false)
    requires E.EncodeElement(t, w, f, element, stride).Some?
    ensures var w' := E.EncodeElement(t, w, f, element, stride).value;
      IsShut(w') && !w'.stopped && |w.out| + stride <= |w'.out|
    decreases f, 0
  {
    hide IsWellFormed, IsPortable, E.EncodeList, E.Copy, Grows, CarriesFrom;
    ListFlows(t, w, f.fields, element);
    var w' := E.EncodeList(t, w, f.fields, element).value;
    GrowsInSize(w, w');
    if stride > |w'.out| - |w.out| {
      ReservedSize(t, w', stride - (|w'.out| - |w.out|));
      CopyStaysShut(t, w', stride - (|w'.out| - |w.out|));
    }
  }
}

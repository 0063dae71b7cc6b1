/**
 The preserve mode keeps abreast of the source: whatever values are written, the
 position in the source is where as many of its bytes have been passed as have
 been written, or its end (libopendmi/src/encoder.c, libopendmi/src/field-encode.c).
 */
module Abreast {
  import opened Wrappers
  import opened Bytes
  import opened BitRuns
  import opened Schema
  import opened Parts
  import S = Structure
  import E = Encoding

  ghost predicate IsAbreast(t: E.Target, w: E.Writing) {
    w.pos == Min(|w.out|, t.end)
  }

  lemma PutAbreast(t: E.Target, w: E.Writing, data: seq<Byte>)
    requires t.preserve && IsAbreast(t, w)
    ensures IsAbreast(t, E.Put(t, w, data))
  {
  }

  lemma CopyAbreast(t: E.Target, w: E.Writing, n: nat)
    requires t.Valid() && t.preserve && IsAbreast(t, w)
    ensures IsAbreast(t, E.Copy(t, w, n))
  {
    hide E.Put, E.Reserved;
    PutAbreast(t, w, E.Reserved(t, w, n));
  }

  lemma {:induction false} FlushAbreast(t: E.Target, w: E.Writing)
    requires t.preserve && IsAbreast(t, w)
    ensures IsAbreast(t, E.Flush(t, w))
    decreases |w.bits|
  {
    hide E.Put, IsAbreast;
    if |w.bits| >= 8 {
      EightBitsAreAByte(w.bits[..8]);
      var rest := w.(bits := w.bits[8..]);
      SameAbreast(t, w, rest);
      PutAbreast(t, rest, [FromBits(w.bits[..8])]);
      PutKeepsBits(t, rest, [FromBits(w.bits[..8])]);
      FlushAbreast(t, E.Put(t, rest, [FromBits(w.bits[..8])]));
    }
  }

  lemma SameAbreast(t: E.Target, w: E.Writing, w': E.Writing)
    requires w'.out == w.out && w'.pos == w.pos
    ensures IsAbreast(t, w') <==> IsAbreast(t, w)
  {
  }

  lemma PutKeepsBits(t: E.Target, w: E.Writing, data: seq<Byte>)
    ensures E.Put(t, w, data).bits == w.bits
  {
  }

  lemma BitsAbreast(t: E.Target, w: E.Writing, raw: nat, count: nat)
    requires t.preserve && IsAbreast(t, w) && E.PutBits(t, w, raw, count).Some?
    ensures IsAbreast(t, E.PutBits(t, w, raw, count).value)
  {
    hide E.Flush, IsAbreast;
    var filled := w.(bits := w.bits + ToBits(raw, count), taken := w.taken + count);
    SameAbreast(t, w, filled);
    FlushAbreast(t, filled);
  }

  // Scalar fields

  lemma DataAbreast(t: E.Target, w: E.Writing, f: Field, data: Data)
    requires t.Valid() && t.preserve && IsAbreast(t, w) && E.PutData(t, w, f, data).Some?
    ensures IsAbreast(t, E.PutData(t, w, f, data).value)
  {
    hide E.Put, E.Copy, E.FindString, IsAbreast;
    if f.String? && data.number == 0 && !data.text.NoText? {
      TextAbreast(t, w, data.text);
    } else if f.String? {
      PutAbreast(t, w, [data.number % 256]);
    } else if f.Raw? && f.extent.Fixed? {
      CopyAbreast(t, w, f.extent.length);
      if f.extent.length <= |data.bytes| {
        PutAbreast(t, w, data.bytes[..f.extent.length]);
      }
    } else {
      PutAbreast(t, w, LeStore(data.number, Width(f)));
    }
  }

  lemma TextAbreast(t: E.Target, w: E.Writing, text: Text)
    requires t.preserve && IsAbreast(t, w) && !text.NoText? && E.PutString(t, w, text).Some?
    ensures IsAbreast(t, E.PutString(t, w, text).value)
  {
    hide E.FindString, E.AddString;
  }

  lemma FixedAbreast(t: E.Target, w: E.Writing, f: Field, info: Info)
    requires t.preserve && IsAbreast(t, w) && E.IsFixed(f) && E.EncodeFixed(t, w, f, info).Some?
    ensures IsAbreast(t, E.EncodeFixed(t, w, f, info).value)
  {
    hide E.Put, IsAbreast;
    if f.Uuid? {
      PutAbreast(t, w, SwapUuid(UuidAt(info, f.member.id)));
    } else if f.Raw? {
      PutAbreast(t, w, BinaryAt(info, f.member.id));
    } else {
      PutAbreast(t, w, LeStore(f.unknown, f.length));
      PutAbreast(t, w, BcdSpell(Load(info, f.member), f.length));
    }
  }

  lemma ScalarAbreast(t: E.Target, w: E.Writing, fs: seq<Field>, i: nat, info: Info, choices: seq<Choice>)
    requires t.Valid() && t.preserve && IsAbreast(t, w) && i < |fs|
    requires E.EncodeScalar(t, w, fs, i, info, choices).Some?
    ensures IsAbreast(t, E.EncodeScalar(t, w, fs, i, info, choices).value.0)
  {
    hide E.PutData, E.EncodeFixed, E.Copy, E.GovernedFit, E.ValueData, E.ExtendedOf, E.SourceData, IsAbreast;
    var f := fs[i];
    CopyAbreast(t, w, Width(f));
    CopyAbreast(t, w, E.Remaining(t, w));
    SameAbreast(t, E.Copy(t, w, E.Remaining(t, w)), E.Copy(t, w, E.Remaining(t, w)).(stopped := true));
    if E.IsFixed(f) && E.EncodeFixed(t, w, f, info).Some? {
      FixedAbreast(t, w, f, info);
    }
    forall data: Data | E.PutData(t, w, f, data).Some?
      ensures IsAbreast(t, E.PutData(t, w, f, data).value)
    {
      DataAbreast(t, w, f, data);
    }
  }

  // Lists

  /**
   Lock step: throughout an encoding in the preserve mode the position in the
   source is the number of bytes written, or the end of the source.
   */
  lemma {:induction false} ListAbreast(t: E.Target, w: E.Writing, fs: seq<Field>, info: Info)
    requires t.Valid() && t.preserve && IsAbreast(t, w) && E.EncodeList(t, w, fs, info).Some?
    ensures IsAbreast(t, E.EncodeList(t, w, fs, info).value)
    decreases fs, 4
  {
    hide IsAbreast;
    FromAbreast(t, w, fs, 0, info, Collect(fs));
  }

  lemma {:induction false} FromAbreast(t: E.Target, w: E.Writing, fs: seq<Field>, i: nat, info: Info,
                                       choices: seq<Choice>)
    requires t.Valid() && t.preserve && IsAbreast(t, w) && E.EncodeFrom(t, w, fs, i, info, choices).Some?
    ensures IsAbreast(t, E.EncodeFrom(t, w, fs, i, info, choices).value)
    decreases fs, 3, |fs| - i
  {
    hide E.EncodeOne, E.Ends, IsAbreast;
    if i < |fs| && !w.stopped {
      if fs[i].Offset? || fs[i].Preset? {
        FromAbreast(t, w, fs, i + 1, info, choices);
      } else if fs[i].Group? {
        var w' := if E.Ends(t, w, fs[i], info) then w.(stopped := true) else w;
        SameAbreast(t, w, w');
        FromAbreast(t, w', fs, i + 1, info, choices);
      } else if !IsDefined(fs[i], t.version) {
        FromAbreast(t, w, fs, i + 1, info, choices);
      } else {
        OneAbreast(t, w, fs, i, info, choices);
        var (w', choices') := E.EncodeOne(t, w, fs, i, info, choices).value;
        FromAbreast(t, w', fs, i + 1, info, choices');
      }
    }
  }

  lemma {:induction false} OneAbreast(t: E.Target, w: E.Writing, fs: seq<Field>, i: nat, info: Info,
                                      choices: seq<Choice>)
    requires t.Valid() && t.preserve && IsAbreast(t, w) && i < |fs| && E.EncodeOne(t, w, fs, i, info, choices).Some?
    ensures IsAbreast(t, E.EncodeOne(t, w, fs, i, info, choices).value.0)
    decreases fs, 2
  {
    hide E.EncodeScalar, E.EncodeList, E.EncodeVector, E.EncodeArray, E.EncodeBits, E.EncodePad, E.Copy, IsAbreast;
    var f := fs[i];
    if f.Bits? {
      RangeAbreast(t, w, f, info);
    } else if f.Pad? {
      PadAbreast(t, w, f);
    } else if f.Array? {
      ArrayAbreast(t, w, f, info);
    } else if f.Vector? {
      VectorAbreast(t, w, f, 0, RecordsAt(info, f.member.id));
    } else if f.Struct? {
      ListAbreast(t, w, f.fields, RecordAt(info, f.member.id));
    } else if f.Skip? {
      CopyAbreast(t, w, f.length);
    } else {
      ScalarAbreast(t, w, fs, i, info, choices);
    }
  }

  lemma RangeAbreast(t: E.Target, w: E.Writing, f: Field, info: Info)
    requires t.Valid() && t.preserve && IsAbreast(t, w) && f.Bits? && E.EncodeBits(t, w, f, info).Some?
    ensures IsAbreast(t, E.EncodeBits(t, w, f, info).value)
  {
    hide E.PutBits, E.ValueData, E.SourceData, E.SourceBits, IsAbreast;
    var raw := if f.range.None? then E.SourceBits(t, w, f.width)
               else E.ValueData(f, info, E.SourceData(t, w, f)).value.0.number;
    BitsAbreast(t, w, raw, f.width);
  }

  lemma PadAbreast(t: E.Target, w: E.Writing, f: Field)
    requires t.Valid() && t.preserve && IsAbreast(t, w) && f.Pad? && E.EncodePad(t, w, f).Some?
    ensures IsAbreast(t, E.EncodePad(t, w, f).value)
  {
    hide E.PutBits, E.SourceBits, IsAbreast;
    var taken := if f.unit == 0 then 0 else w.taken % f.unit;
    SameAbreast(t, w, w.(taken := 0));
    if taken != 0 {
      var count := f.unit - taken;
      var raw := E.SourceBits(t, w, count);
      BitsAbreast(t, w, raw, count);
      SameAbreast(t, E.PutBits(t, w, raw, count).value, E.PutBits(t, w, raw, count).value.(taken := 0));
    }
  }

  lemma {:induction false} VectorAbreast(t: E.Target, w: E.Writing, f: Field, i: nat, elements: seq<Info>)
    requires t.Valid() && t.preserve && IsAbreast(t, w) && f.Vector? && E.EncodeVector(t, w, f, i, elements).Some?
    ensures IsAbreast(t, E.EncodeVector(t, w, f, i, elements).value)
    decreases f, 1, f.count - i
  {
    hide E.EncodeList, IsAbreast;
    if i < f.count {
      ListAbreast(t, w, f.fields, ElementAt(elements, i));
      VectorAbreast(t, E.EncodeList(t, w, f.fields, ElementAt(elements, i)).value, f, i + 1, elements);
    }
  }

  lemma {:induction false} ArrayAbreast(t: E.Target, w: E.Writing, f: Field, info: Info)
    requires t.Valid() && t.preserve && IsAbreast(t, w) && f.Array? && E.EncodeArray(t, w, f, info).Some?
    ensures IsAbreast(t, E.EncodeArray(t, w, f, info).value)
    decreases f, 2
  {
    hide E.EncodeHeader, E.EncodeElements, E.Copy, IsSkipped, IsAbreast, E.SkipLength;
    var counter := Load(info, f.counter);
    var rest := E.Copy(t, w, E.Remaining(t, w));
    CopyAbreast(t, w, E.Remaining(t, w));
    SameAbreast(t, rest, rest.(stopped := true));
    if E.EncodeHeader(t, w, f, info, counter).Some? {
      var h := E.EncodeHeader(t, w, f, info, counter).value;
      NumbersAbreast(t, w, f, info, counter);
      CopyAbreast(t, h.w, E.SkipLength(E.Remaining(t, h.w), h.count, h.stride));
      if E.EncodeElements(t, h.w, f, h.stride, RecordsAt(info, f.member.id), counter, 0).Some? {
        ElementsAbreast(t, h.w, f, h.stride, RecordsAt(info, f.member.id), counter, 0);
      }
    }
  }

  lemma NumbersAbreast(t: E.Target, w: E.Writing, f: Field, info: Info, counter: nat)
    requires t.Valid() && t.preserve && IsAbreast(t, w) && f.Array? && E.EncodeHeader(t, w, f, info, counter).Some?
    ensures IsAbreast(t, E.EncodeHeader(t, w, f, info, counter).value.w)
  {
    hide E.FieldsSize, LeStore, E.PeekRaw, IsAbreast, E.Put;
    forall w: E.Writing, length: nat, raw: nat | IsAbreast(t, w) && E.PutRaw(t, w, length, raw).Some?
      ensures IsAbreast(t, E.PutRaw(t, w, length, raw).value)
    {
      PutAbreast(t, w, LeStore(raw, length));
    }
  }

  lemma {:induction false} ElementsAbreast(t: E.Target, w: E.Writing, f: Field, stride: nat, elements: seq<Info>,
                                           counter: nat, i: nat)
    requires t.Valid() && t.preserve && IsAbreast(t, w) && f.Array?
    requires E.EncodeElements(t, w, f, stride, elements, counter, i).Some?
    ensures IsAbreast(t, E.EncodeElements(t, w, f, stride, elements, counter, i).value)
    decreases f, 1, counter - i
  {
    hide E.EncodeElement, IsAbreast;
    if i < counter && !w.stopped {
      ElementAbreast(t, w, f, ElementAt(elements, i), stride);
      var w' := E.EncodeElement(t, w, f, ElementAt(elements, i), stride).value;
      ElementsAbreast(t, w', f, stride, elements, counter, i + 1);
    }
  }

  lemma {:induction false} ElementAbreast(t: E.Target, w: E.Writing, f: Field, element: Info, stride: nat)
    requires t.Valid() && t.preserve && IsAbreast(t, w) && f.Array? && E.EncodeElement(t, w, f, element, stride).Some?
    ensures IsAbreast(t, E.EncodeElement(t, w, f, element, stride).value)
    decreases f, 0
  {
    hide E.EncodeList, E.Copy, IsAbreast;
    ListAbreast(t, w, f.fields, element);
    var w' := E.EncodeList(t, w, f.fields, element).value;
    if !w'.stopped && |w.out| <= |w'.out| && stride > |w'.out| - |w.out| {
      CopyAbreast(t, w', stride - (|w'.out| - |w.out|));
    }
  }

  // Parts and structures

  /** A window over the source of a part is kept abreast of in the same way. */
  lemma PartAbreast(t: E.Target, w: E.Writing, fs: seq<Field>, length: nat, info: Info)
    requires t.Valid() && t.preserve && IsAbreast(t, w) && EncodePart(t, w, fs, length, info).Some?
    ensures IsAbreast(t, EncodePart(t, w, fs, length, info).value)
    ensures IsAbreast(Narrowed(t, w, length), w)
  {
    hide E.EncodeList, E.Copy;
    var begun := w.(bits := [], taken := 0, stopped := false);
    ListAbreast(Narrowed(t, w, length), begun, fs, info);
    var w' := E.EncodeList(Narrowed(t, w, length), begun, fs, info).value;
    CopyAbreast(t, w', length - (|w'.out| - |w.out|));
  }

  /** A structure begins abreast of its source, and stays so whatever values are written into it. */
  lemma StructureAbreast(e: S.Entity, fs: seq<Field>, info: Info, version: Version)
    requires var t := S.TargetOf(e, true, version); E.EncodeList(t, S.Begin(e, t), fs, info).Some?
    ensures var t := S.TargetOf(e, true, version);
      var w := E.EncodeList(t, S.Begin(e, t), fs, info).value; w.pos == Min(|w.out|, |e.body|)
  {
    hide E.EncodeList;
    var t := S.TargetOf(e, true, version);
    ListAbreast(t, S.Begin(e, t), fs, info);
  }
}

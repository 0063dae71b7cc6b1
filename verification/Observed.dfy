/**
 When nothing has been lost: what a caller can tell from the outcome of
 decoding alone. Data which is complete, or ends at a group, loses nothing, as
 long as the elements of arrays are as long as their fields.
 */
module Observed {
  import opened Wrappers
  import opened Bytes
  import opened BitRuns
  import opened Schema
  import opened WellFormed
  import opened Lockstep
  import opened Scalars
  import opened Preserve
  import opened Arrays
  import opened Identity
  import opened Structure
  import D = Decoding
  import E = Encoding

  /** Elements of a length of their own are at least as long as their fields. */
  predicate IsStrideSound(f: Field)
    requires f.Array?
  {
    var size := E.FieldsSize(f.fields);
    && (f.strideLength == 0 && f.stride != 0 ==> 0 < size <= f.stride)
    && (f.strideLength != 0 ==> 0 < size <= f.strideMinimum)
  }

  ghost predicate AreStridesSound(fs: seq<Field>)
    decreases fs
  {
    forall i | 0 <= i < |fs| ::
      && (fs[i].Array? ==> IsStrideSound(fs[i]))
      && (|NestedOf(fs[i])| > 0 ==> AreStridesSound(NestedOf(fs[i])))
  }

  lemma NestedIsSound(fs: seq<Field>, i: nat)
    requires i < |fs| && AreStridesSound(fs)
    ensures AreStridesSound(NestedOf(fs[i])) && (fs[i].Array? ==> IsStrideSound(fs[i]))
  {
    if |NestedOf(fs[i])| == 0 {
      assert NestedOf(fs[i]) == [];
    }
  }

  // Sizes

  /** Bits read since the start of a list are no more than its fields occupy. */
  ghost predicate IsWithin(st: D.Reading, start: nat, size: nat, bits: nat) {
    start <= st.pos && 8 * (st.pos - start) <= 8 * size + st.taken + |st.bits| && st.taken <= bits
  }

  /** The same, where the fields rather than the data decide how much they occupy. */
  ghost predicate IsFit(fs: seq<Field>, i: nat, st: D.Reading, start: nat, size: nat, bits: nat, sized: bool) {
    sized ==> E.SizeFrom(fs, i, size, bits) != 0 && IsWithin(st, start, size, bits)
  }

  lemma {:induction false} SizeGrows(fs: seq<Field>, i: nat, size: nat, bits: nat)
    ensures E.SizeFrom(fs, i, size, bits) == 0 || E.SizeFrom(fs, i, size, bits) >= size
    decreases |fs| - i
  {
    hide E.FieldsSize, E.UnitBytes, Width;
    if i < |fs| {
      match fs[i]
      case Bits(_, width, _, _, _, _, _) => SizeGrows(fs, i + 1, size, bits + width);
      case Pad(unit) =>
        SizeGrows(fs, i + 1, size + E.UnitBytes(bits, unit), 0);
      case Skip(length) => SizeGrows(fs, i + 1, size + length, bits);
      case Struct(_, fields) => SizeGrows(fs, i + 1, size + E.FieldsSize(fields), bits);
      case Vector(_, count, fields) =>
        var more: nat := E.FieldsSize(fields) * count;
        SizeGrows(fs, i + 1, size + more, bits);
      case Group(_, _) => SizeGrows(fs, i + 1, size, bits);
      case Offset(_) => SizeGrows(fs, i + 1, size, bits);
      case Preset(_, _) => SizeGrows(fs, i + 1, size, bits);
      case _ => SizeGrows(fs, i + 1, size + Width(fs[i]), bits);
    }
  }

  /** Units a run of bits is closed with are those its ranges are declared to fill. */
  lemma UnitsSuffice(taken: nat, bits: nat, unit: nat)
    requires unit > 0 && unit % 8 == 0 && taken <= bits
    ensures taken % unit == 0 ==> taken <= 8 * E.UnitBytes(bits, unit)
    ensures taken % unit != 0 ==> taken + (unit - taken % unit) <= 8 * E.UnitBytes(bits, unit)
  {
    var units: int, q: int, r: int := (bits + unit - 1) / unit, taken / unit, taken % unit;
    UnitsInBytes(units, unit);
    UnitsRoundUp(bits, unit);
    UnitsOf(taken, unit);
    if r != 0 {
      FewerUnits(q, units, unit);
      OneMoreUnit(q, units, unit);
    }
  }

  lemma UnitsInBytes(units: int, unit: nat)
    requires unit % 8 == 0
    ensures 8 * (units * (unit / 8)) == units * unit
  {
    var m := unit / 8;
    assert unit == 8 * m;
    assert 8 * (units * m) == units * (8 * m);
  }

  lemma UnitsRoundUp(bits: nat, unit: nat)
    requires unit > 0
    ensures bits <= (bits + unit - 1) / unit * unit
  {
    UnitsOf(bits + unit - 1, unit);
  }

  lemma UnitsOf(n: nat, unit: nat)
    requires unit > 0
    ensures n == n / unit * unit + n % unit && n % unit < unit
  {
  }

  lemma OneMoreUnit(q: int, n: int, unit: nat)
    requires q + 1 <= n
    ensures q * unit + unit <= n * unit
  {
    var d := n - (q + 1);
    assert n * unit == q * unit + unit + d * unit;
  }

  lemma FewerUnits(q: int, n: int, unit: nat)
    requires q * unit < n * unit
    ensures q + 1 <= n
  {
    var d := n - q;
    assert d * unit > 0;
  }

  lemma BitsWithin(src: D.Source, st: D.Reading, count: nat, start: nat, size: nat, bits: nat)
    requires src.Valid() && st.pos <= src.end && |st.bits| < count + 8
    requires D.TakeBits(src, st, count).0
    ensures var st' := D.TakeBits(src, st, count).1;
      && st'.taken == st.taken + count
      && (IsWithin(st, start, size, bits) ==> IsWithin(st', start, size, bits + count))
  {
    TakenBits(src, st, count);
    var (ok, st', taken) := D.TakeBits(src, st, count);
    assert |taken + st'.bits| == |st.bits + BytesBits(src.body[st.pos..st'.pos])|;
  }

  lemma TakenAligned(src: D.Source, st: D.Reading, count: nat)
    requires src.Valid() && st.pos <= src.end && IsAligned(st) && D.TakeBits(src, st, count).0
    ensures IsAligned(D.TakeBits(src, st, count).1)
  {
    TakenBits(src, st, count);
    var (ok, st', taken) := D.TakeBits(src, st, count);
    AlignedAfter(src.body, st, count, st', taken);
  }

  lemma RangeFits(src: D.Source, st: D.Reading, f: Field, info: Info, start: nat, size: nat, bits: nat)
    requires src.Valid() && f.Bits? && st.pos <= src.end && IsAligned(st)
    requires f.width > 0 && D.DecodeBits(src, f, st, info).ok
    ensures var st' := D.DecodeBits(src, f, st, info).st;
      && IsAligned(st') && st'.taken == st.taken + f.width
      && (IsWithin(st, start, size, bits) ==> IsWithin(st', start, size, bits + f.width))
  {
    hide D.TakeBits, D.IsLater, Apply;
    BitsWithin(src, st, f.width, start, size, bits);
    TakenAligned(src, st, f.width);
  }

  lemma PadFits(src: D.Source, st: D.Reading, f: Field, info: Info, start: nat, size: nat, bits: nat)
    requires src.Valid() && f.Pad? && f.unit > 0 && f.unit % 8 == 0
    requires st.pos <= src.end && IsAligned(st)
    requires D.DecodePad(src, f, st, info).ok
    ensures var st' := D.DecodePad(src, f, st, info).st;
      && IsClosed(st')
      && (IsWithin(st, start, size, bits) ==>
            IsWithin(st', start, size + E.UnitBytes(bits, f.unit), 0))
  {
    hide D.TakeBits, E.UnitBytes;
    if IsWithin(st, start, size, bits) {
      UnitsSuffice(st.taken, bits, f.unit);
    }
    var taken := st.taken % f.unit;
    if taken == 0 {
      WholeUnits(|st.bits|, st.taken, f.unit);
    } else {
      var (ok, st', _) := D.TakeBits(src, st, f.unit - taken);
      BitsWithin(src, st, f.unit - taken, start, size, bits);
      TakenAligned(src, st, f.unit - taken);
      UnitIsFilled(st.taken, f.unit);
      WholeUnits(|st'.bits|, st'.taken, f.unit);
    }
  }

  lemma ScalarFits(src: D.Source, f: Field, st: D.Reading, info: Info, choices: seq<Choice>, atEnd: bool)
    requires src.Valid() && IsScalar(f) && st.pos <= src.end
    requires var one := D.DecodeOne(src, f, st, info, choices, atEnd); one.ok
    ensures var one := D.DecodeOne(src, f, st, info, choices, atEnd);
      (Width(f) != 0 ==> one.st.pos == st.pos + Width(f)) && D.IsSameRun(st, one.st)
  {
    hide D.DecodePlain, D.DecodeExtended;
    if IsExtended(f) {
      ExtendedFits(src, f, st, info, choices);
    } else if Width(f) != 0 {
      PlainFits(src, f, st, info, choices);
    }
  }

  lemma ExtendedFits(src: D.Source, f: Field, st: D.Reading, info: Info, choices: seq<Choice>)
    requires src.Valid() && IsExtended(f) && D.DecodeExtended(src, f, st, info, choices).ok
    ensures D.DecodeExtended(src, f, st, info, choices).st.pos == st.pos + Width(f)
  {
    hide D.IsLater, Apply;
  }

  lemma PlainFits(src: D.Source, f: Field, st: D.Reading, info: Info, choices: seq<Choice>)
    requires src.Valid() && IsScalar(f) && Width(f) != 0 && D.DecodePlain(src, f, st, info, choices).ok
    ensures D.DecodePlain(src, f, st, info, choices).st.pos == st.pos + Width(f)
  {
    hide D.IsLater, D.DecodeValue, Width;
    ValueFits(src, f, st, info);
  }

  lemma ValueFits(src: D.Source, f: Field, st: D.Reading, info: Info)
    requires src.Valid() && IsScalar(f) && Width(f) != 0 && D.DecodeValue(src, f, st, info, true).ok
    ensures D.DecodeValue(src, f, st, info, true).st.pos == st.pos + Width(f)
  {
    hide D.IsLater, D.Fetch, Apply, D.DecodeCut;
    if !f.Uuid? {
      FetchFits(src, f, st, info);
    }
  }

  lemma FetchFits(src: D.Source, f: Field, st: D.Reading, info: Info)
    requires src.Valid() && IsScalar(f) && !f.Uuid? && Width(f) != 0 && D.Fetch(src, f, st, info).ok
    ensures D.Fetch(src, f, st, info).st.pos == st.pos + Width(f)
  {
    hide D.IsLater, D.FetchBcd, LeLoad;
    if f.Bcd? {
      BcdFits(src, f, st);
    }
  }

  lemma BcdFits(src: D.Source, f: Field, st: D.Reading)
    requires src.Valid() && f.Bcd? && D.FetchBcd(src, f.length, f.unknown, st).ok
    ensures D.FetchBcd(src, f.length, f.unknown, st).st.pos == st.pos + f.length
  {
    hide D.IsLater, AreDigits, BcdValue, LeLoad, LeStore;
  }

  lemma {:induction false} NestedFits(src: D.Source, fs: seq<Field>, st: D.Reading, info: Info)
    requires src.Valid() && IsWellFormed(fs, src.version) && st.pos <= src.end && IsClosed(st)
    requires var r := D.DecodeNested(src, fs, st, info); r.ok && !r.st.lost && !r.st.short
    ensures var r := D.DecodeNested(src, fs, st, info);
      && IsClosed(r.st) && st.pos <= r.st.pos
      && (E.FieldsSize(fs) != 0 ==> r.st.pos <= st.pos + E.FieldsSize(fs))
    decreases fs, 2
  {
    FromFits(src, fs, 0, st.(optional := false), PresetsFrom(fs, 0, info), Collect(fs), None, false, st.pos, 0, 0,
             E.FieldsSize(fs) != 0);
  }

  lemma {:induction false} VectorFits(src: D.Source, f: Field, i: nat, st: D.Reading, elements: seq<Info>)
    requires src.Valid() && f.Vector? && IsWellFormed(f.fields, src.version)
    requires st.pos <= src.end && IsClosed(st)
    requires var (ok, st', _) := D.DecodeVector(src, f, i, st, elements); ok && !st'.lost && !st'.short
    ensures var st' := D.DecodeVector(src, f, i, st, elements).1;
      && IsClosed(st') && st.pos <= st'.pos
      && (E.FieldsSize(f.fields) != 0 && i <= f.count ==>
            st'.pos <= st.pos + E.FieldsSize(f.fields) * (f.count - i))
    decreases f, 0, f.count - i
  {
    hide IsWellFormed, D.DecodeNested, D.IsLater, E.FieldsSize;
    if i < f.count {
      var r := D.DecodeNested(src, f.fields, st, ElementAt(elements, i));
      var size, left := E.FieldsSize(f.fields), f.count - i;
      VectorStep(src, f, i, st, elements);
      NestedFits(src, f.fields, st, ElementAt(elements, i));
      VectorFits(src, f, i + 1, r.st, D.PutElement(elements, i, r.info));
      assert size * left == size + size * (left - 1);
    }
  }

  lemma VectorStep(src: D.Source, f: Field, i: nat, st: D.Reading, elements: seq<Info>)
    requires src.Valid() && f.Vector? && i < f.count && st.pos <= src.end && D.DecodeVector(src, f, i, st, elements).0
    ensures var r := D.DecodeNested(src, f.fields, st, ElementAt(elements, i));
      var next := D.DecodeVector(src, f, i + 1, r.st, D.PutElement(elements, i, r.info));
      && r.ok && r.st.pos <= src.end && D.DecodeVector(src, f, i, st, elements) == next
      && (r.st.lost ==> next.1.lost) && (r.st.short ==> next.1.short)
  {
    hide D.DecodeNested;
  }

  lemma {:induction false} ElementsClose(src: D.Source, f: Field, stride: nat, count: nat, st: D.Reading,
                                         elements: seq<Info>, atEnd: bool)
    requires src.Valid() && f.Array? && IsWellFormed(f.fields, src.version)
    requires st.pos <= src.end && IsClosed(st)
    requires var (ok, st', _) := D.DecodeElements(src, f, stride, count, st, elements, atEnd);
      ok && !st'.lost && !st'.short
    ensures IsClosed(D.DecodeElements(src, f, stride, count, st, elements, atEnd).1)
    decreases f, 0, count
  {
    hide IsWellFormed, D.DecodeNested, D.DecodeElement;
    if count > 0 {
      var one := D.DecodeElement(src, f, stride, st);
      ElementIsRead(src, f, stride, st);
      NestedFits(src, f.fields, st, map[]);
      ElementsClose(src, f, stride, count - 1, one.st, elements + [one.info], atEnd);
    }
  }

  lemma ArrayCloses(src: D.Source, f: Field, st: D.Reading, info: Info, atEnd: bool)
    requires src.Valid() && f.Array? && IsWellFormed(f.fields, src.version)
    requires st.pos <= src.end && IsClosed(st)
    requires var r := D.DecodeArray(src, f, st, info, atEnd); r.ok && !r.st.lost && !r.st.short
    ensures IsClosed(D.DecodeArray(src, f, st, info, atEnd).st)
    decreases f, 1
  {
    hide IsWellFormed, D.DecodeElements, D.DecodeHeader, IsSkipped;
    var hd := D.DecodeHeader(src, f, st, info);
    if hd.count != 0 && !IsSkipped(f, hd.stride) {
      ElementsClose(src, f, hd.stride, hd.count, hd.st, [], atEnd);
    }
  }

  /** What is left of a list occupies no more than its fields do, and leaves no run of bits open. */
  lemma {:induction false} FromFits(src: D.Source, fs: seq<Field>, i: nat, st: D.Reading, info: Info,
                                    choices: seq<Choice>, group: Option<Member>, last: bool,
                                    start: nat, size: nat, bits: nat, sized: bool)
    requires src.Valid() && IsWellFormed(fs, src.version) && AreRunsOk(fs, i, st.taken, src.version)
    requires st.pos <= src.end && IsAligned(st) && IsFit(fs, i, st, start, size, bits, sized)
    requires var r := D.DecodeFrom(src, fs, i, st, info, choices, group, last); r.ok && !r.st.lost && !r.st.short
    ensures var r := D.DecodeFrom(src, fs, i, st, info, choices, group, last);
      && IsClosed(r.st)
      && (sized ==> start <= r.st.pos <= start + E.SizeFrom(fs, i, size, bits))
    decreases fs, 1, |fs| - i
  {
    hide IsWellFormed, IsFieldOk, D.DecodeOne, E.SizeFrom, AreFieldsOk, D.IsLater, IsAligned, IsFit, IsWithin;
    hide AreRunsOk, D.DecodeFrom;
    if i >= |fs| {
      NoFieldsFit(src, fs, i, st, info, choices, group, last, start, size, bits, sized);
    } else if IsField(fs, i, src.version) {
      FieldFits(src, fs, i, st, info, choices, group, last, start, size, bits, sized);
    } else {
      var bits' := bits + if fs[i].Bits? then fs[i].width else 0;
      PassFits(src, fs, i, st, info, choices, group, last, start, size, bits, sized);
      if !fs[i].Group? {
        FromFits(src, fs, i + 1, st, info, choices, group, last, start, size, bits', sized);
      } else if st.pos < src.end {
        FromFits(src, fs, i + 1, D.Enter(st, fs[i].since), D.MarkGroup(group, info).value, choices,
                 fs[i].present, last, start, size, bits, sized);
      }
    }
  }

  lemma {:induction false} FieldFits(src: D.Source, fs: seq<Field>, i: nat, st: D.Reading, info: Info,
                                     choices: seq<Choice>, group: Option<Member>, last: bool,
                                     start: nat, size: nat, bits: nat, sized: bool)
    requires src.Valid() && IsWellFormed(fs, src.version) && AreRunsOk(fs, i, st.taken, src.version)
    requires IsField(fs, i, src.version)
    requires st.pos <= src.end && IsAligned(st) && IsFit(fs, i, st, start, size, bits, sized)
    requires var r := D.DecodeFrom(src, fs, i, st, info, choices, group, last); r.ok && !r.st.lost && !r.st.short
    ensures var r := D.DecodeFrom(src, fs, i, st, info, choices, group, last);
      && IsClosed(r.st)
      && (sized ==> start <= r.st.pos <= start + E.SizeFrom(fs, i, size, bits))
    decreases fs, 1, |fs| - i, 0
  {
    hide IsWellFormed, IsFieldOk, D.DecodeOne, E.SizeFrom, AreFieldsOk, D.IsLater, IsAligned, IsFit, IsWithin;
    hide AreRunsOk, D.DecodeFrom;
    var f := fs[i];
    var atEnd := last && i + 1 == |fs|;
    var one := D.DecodeOne(src, f, st, info, choices, atEnd);
    FieldStep(src, fs, i, st, info, choices, group, last);
    var next := OneFits(src, fs, i, st, info, choices, atEnd, start, size, bits, sized);
    DefinedFits(fs, i + 1, one.st, DefinedFrom(f), start, next.0, next.1, sized);
    FromFits(src, fs, i + 1, D.Define(one.st, DefinedFrom(f)), one.info, one.choices, group, last,
             start, next.0, next.1, sized);
  }

  lemma NoFieldsFit(src: D.Source, fs: seq<Field>, i: nat, st: D.Reading, info: Info, choices: seq<Choice>,
                    group: Option<Member>, last: bool, start: nat, size: nat, bits: nat, sized: bool)
    requires src.Valid() && i >= |fs| && AreRunsOk(fs, i, st.taken, src.version)
    requires IsAligned(st) && IsFit(fs, i, st, start, size, bits, sized)
    requires !D.DecodeFrom(src, fs, i, st, info, choices, group, last).st.lost
    ensures var r := D.DecodeFrom(src, fs, i, st, info, choices, group, last);
      && IsClosed(r.st)
      && (sized ==> start <= r.st.pos <= start + E.SizeFrom(fs, i, size, bits))
  {
    assert st.bits == [];
  }

  lemma DefinedFits(fs: seq<Field>, i: nat, st: D.Reading, from: Version, start: nat, size: nat, bits: nat, sized: bool)
    requires IsAligned(st) && IsFit(fs, i, st, start, size, bits, sized)
    ensures IsAligned(D.Define(st, from)) && IsFit(fs, i, D.Define(st, from), start, size, bits, sized)
  {
  }

  lemma FieldStep(src: D.Source, fs: seq<Field>, i: nat, st: D.Reading, info: Info, choices: seq<Choice>,
                  group: Option<Member>, last: bool)
    requires src.Valid() && IsField(fs, i, src.version) && st.pos <= src.end
    requires var r := D.DecodeFrom(src, fs, i, st, info, choices, group, last); r.ok && !r.st.lost && !r.st.short
    ensures var one := D.DecodeOne(src, fs[i], st, info, choices, last && i + 1 == |fs|);
      && one.ok && !one.st.lost && !one.st.short && one.st.pos <= src.end
      && D.DecodeFrom(src, fs, i, st, info, choices, group, last)
      == D.DecodeFrom(src, fs, i + 1, D.Define(one.st, DefinedFrom(fs[i])), one.info, one.choices, group, last)
  {
    hide D.DecodeOne;
  }

  lemma PassFits(src: D.Source, fs: seq<Field>, i: nat, st: D.Reading, info: Info, choices: seq<Choice>,
                 group: Option<Member>, last: bool, start: nat, size: nat, bits: nat, sized: bool)
    requires src.Valid() && i < |fs| && !IsField(fs, i, src.version)
    requires AreRunsOk(fs, i, st.taken, src.version)
    requires st.pos <= src.end && IsAligned(st) && IsFit(fs, i, st, start, size, bits, sized)
    requires D.DecodeFrom(src, fs, i, st, info, choices, group, last).ok
    ensures var bits' := bits + if fs[i].Bits? then fs[i].width else 0;
      && E.SizeFrom(fs, i, size, bits) == E.SizeFrom(fs, i + 1, size, bits')
      && IsFit(fs, i + 1, st, start, size, bits', sized)
    ensures AreRunsOk(fs, i + 1, st.taken, src.version)
    ensures fs[i].Group? ==>
      var st' := D.Enter(st, fs[i].since);
      && IsAligned(st') && IsFit(fs, i + 1, st', start, size, bits, sized)
      && (st.pos < src.end ==> D.MarkGroup(group, info).Some?)
    ensures var r := D.DecodeFrom(src, fs, i, st, info, choices, group, last);
      if !fs[i].Group? then r == D.DecodeFrom(src, fs, i + 1, st, info, choices, group, last)
      else if st.pos < src.end then
        r == D.DecodeFrom(src, fs, i + 1, D.Enter(st, fs[i].since), D.MarkGroup(group, info).value, choices,
                          fs[i].present, last)
      else
        && IsClosed(r.st) && r.st.pos == st.pos
        && (sized ==> start <= st.pos <= start + E.SizeFrom(fs, i, size, bits))
  {
    hide D.DecodeOne;
    hide D.IsLater, E.SizeFrom, D.MarkGroup;
    PassSize(fs, i, size, bits, src.version);
    if sized && fs[i].Group? {
      SizeGrows(fs, i, size, bits);
    }
  }

  lemma PassSize(fs: seq<Field>, i: nat, size: nat, bits: nat, version: Version)
    requires i < |fs| && !IsField(fs, i, version)
    ensures E.SizeFrom(fs, i, size, bits)
         == E.SizeFrom(fs, i + 1, size, bits + if fs[i].Bits? then fs[i].width else 0)
  {
  }

  /** A field occupies no more than its size. */
  lemma {:induction false} OneFits(src: D.Source, fs: seq<Field>, i: nat, st: D.Reading, info: Info,
                                   choices: seq<Choice>, atEnd: bool, start: nat, size: nat, bits: nat, sized: bool)
    returns (next: (nat, nat))
    requires src.Valid() && IsField(fs, i, src.version) && IsWellFormed(fs, src.version)
    requires AreRunsOk(fs, i, st.taken, src.version)
    requires st.pos <= src.end && IsAligned(st) && IsFit(fs, i, st, start, size, bits, sized)
    requires var one := D.DecodeOne(src, fs[i], st, info, choices, atEnd); one.ok && !one.st.lost && !one.st.short
    ensures sized ==> E.SizeFrom(fs, i, size, bits) == E.SizeFrom(fs, i + 1, next.0, next.1)
    ensures var st' := D.DecodeOne(src, fs[i], st, info, choices, atEnd).st;
      && AreRunsOk(fs, i + 1, st'.taken, src.version) && IsAligned(st')
      && IsFit(fs, i + 1, st', start, next.0, next.1, sized)
    decreases fs, 0
  {
    hide IsWellFormed, IsFieldOk, D.IsLater, D.TakeBits, D.DecodeNested, D.DecodeVector, D.DecodePad, D.DecodeBits;
    hide AreFieldsOk, D.DecodePlain, D.DecodeExtended, D.DecodeArray;
    WellFormedFields(fs, i, src.version);
    NestedIsWellFormed(fs, i, src.version);
    hide IsWithin, IsClosed;
    var f := fs[i];
    SizeStep(fs, i, size, bits);
    if f.Bits? {
      RangeFits(src, st, f, info, start, size, bits);
      next := (size, bits + f.width);
    } else if f.Pad? {
      PadFits(src, st, f, info, start, size, bits);
      next := (size + E.UnitBytes(bits, f.unit), 0);
      ClosedAligned(D.DecodePad(src, f, st, info).st);
    } else {
      NoRunIsOpen(st);
      var n := OtherFits(src, f, st, info, choices, atEnd);
      var st' := D.DecodeOne(src, f, st, info, choices, atEnd).st;
      ClosedAligned(st');
      Advance(st, st', n, start, size, bits);
      next := (size + n, bits);
    }
  }

  /** Fields which are no part of a run of bits. */
  lemma {:induction false} OtherFits(src: D.Source, f: Field, st: D.Reading, info: Info, choices: seq<Choice>,
                                     atEnd: bool) returns (n: nat)
    requires src.Valid() && st.pos <= src.end && IsClosed(st) && IsWellFormed(NestedOf(f), src.version)
    requires !f.Bits? && !f.Pad? && !f.Offset? && !f.Preset? && !f.Group?
    requires var one := D.DecodeOne(src, f, st, info, choices, atEnd); one.ok && !one.st.lost && !one.st.short
    ensures n == SizeOf(f)
    ensures var st' := D.DecodeOne(src, f, st, info, choices, atEnd).st;
      IsClosed(st') && st.pos <= st'.pos && (IsSized(f) ==> st'.pos <= st.pos + n)
    decreases f, 3
  {
    hide IsWellFormed, D.DecodeNested, D.DecodeVector, D.DecodePlain, D.DecodeArray, D.DecodeExtended;
    n := SizeOf(f);
    if f.Struct? {
      NestedFits(src, f.fields, st, RecordAt(info, f.member.id));
    } else if f.Vector? {
      VectorFits(src, f, 0, st, RecordsAt(info, f.member.id));
    } else if f.Array? {
      ArrayCloses(src, f, st, info, atEnd);
    } else if f.Skip? {
      SkipFits(src, f, st, info, choices);
    } else {
      ScalarFits(src, f, st, info, choices, atEnd);
    }
  }

  /** Bytes a field outside of a run of bits occupies, where the field decides it. */
  function SizeOf(f: Field): nat {
    if f.Struct? then E.FieldsSize(f.fields)
    else if f.Vector? then E.FieldsSize(f.fields) * f.count
    else if f.Skip? then f.length
    else Width(f)
  }

  predicate IsSized(f: Field) {
    if f.Struct? || f.Vector? then E.FieldsSize(f.fields) != 0 else f.Skip? || Width(f) != 0
  }

  lemma SizeStep(fs: seq<Field>, i: nat, size: nat, bits: nat)
    requires i < |fs| && !fs[i].Offset? && !fs[i].Preset? && !fs[i].Group?
    ensures E.SizeFrom(fs, i, size, bits) ==
      if fs[i].Bits? then E.SizeFrom(fs, i + 1, size, bits + fs[i].width)
      else if fs[i].Pad? then
        E.SizeFrom(fs, i + 1, size + E.UnitBytes(bits, fs[i].unit), 0)
      else if IsSized(fs[i]) then E.SizeFrom(fs, i + 1, size + SizeOf(fs[i]), bits)
      else 0
  {
  }

  lemma SkipFits(src: D.Source, f: Field, st: D.Reading, info: Info, choices: seq<Choice>)
    requires src.Valid() && f.Skip? && D.DecodePlain(src, f, st, info, choices).ok
    ensures D.DecodePlain(src, f, st, info, choices).st.pos == st.pos + f.length
  {
    hide D.IsLater;
  }

  lemma ClosedAligned(st: D.Reading)
    requires IsClosed(st)
    ensures IsAligned(st) && st.taken == 0
  {
  }

  lemma NoRunIsOpen(st: D.Reading)
    requires IsAligned(st) && st.taken == 0
    ensures IsClosed(st)
  {
  }

  lemma Advance(st: D.Reading, st': D.Reading, n: nat, start: nat, size: nat, bits: nat)
    requires IsClosed(st) && IsClosed(st') && st.pos <= st'.pos
    ensures IsWithin(st, start, size, bits) && st'.pos <= st.pos + n ==> IsWithin(st', start, size + n, bits)
  {
  }

  // What is lost

  /** Losing anything shows in the outcome, or in digits which are none. */
  ghost predicate IsTold(st: D.Reading, ok: bool, st': D.Reading) {
    st'.lost ==> st.lost || !ok || st'.short || st'.misspelt
  }

  lemma {:induction false} ListTells(src: D.Source, fs: seq<Field>, st: D.Reading, info: Info, last: bool)
    requires src.Valid() && IsWellFormed(fs, src.version) && AreStridesSound(fs)
    requires st.pos <= src.end && IsClosed(st)
    ensures var r := D.DecodeList(src, fs, st, info, last); IsTold(st, r.ok, r.st)
    decreases fs, 4
  {
    FromTells(src, fs, 0, st, PresetsFrom(fs, 0, info), Collect(fs), None, last);
  }

  /** Nothing has been lost so far, and the runs of bits are where they should be. */
  ghost predicate IsIntact(src: D.Source, fs: seq<Field>, i: nat, st: D.Reading) {
    st.lost || st.short || st.misspelt || (IsAligned(st) && AreRunsOk(fs, i, st.taken, src.version))
  }

  lemma {:induction false} FromTells(src: D.Source, fs: seq<Field>, i: nat, st: D.Reading, info: Info,
                                     choices: seq<Choice>, group: Option<Member>, last: bool)
    requires src.Valid() && IsWellFormed(fs, src.version) && AreStridesSound(fs)
    requires st.pos <= src.end && IsIntact(src, fs, i, st)
    ensures var r := D.DecodeFrom(src, fs, i, st, info, choices, group, last); IsTold(st, r.ok, r.st)
    decreases fs, 3, |fs| - i
  {
    hide IsWellFormed, AreStridesSound, D.DecodeOne, AreRunsOk, IsAligned;
    if i < |fs| && !st.lost && !st.short && !st.misspelt {
      if IsField(fs, i, src.version) {
        hide D.DecodeFrom, D.IsLater;
        var atEnd := last && i + 1 == |fs|;
        var one := D.DecodeOne(src, fs[i], st, info, choices, atEnd);
        StepTells(src, fs, i, st, info, choices, group, last);
        if one.ok {
          OneTells(src, fs, i, st, info, choices, atEnd);
          OneIsIntact(src, fs, i, st, info, choices, atEnd);
          FromTells(src, fs, i + 1, D.Define(one.st, DefinedFrom(fs[i])), one.info, one.choices, group, last);
        }
      } else {
        PassIntact(src, fs, i, st);
        if !fs[i].Group? {
          if !fs[i].Offset? || st.pos == fs[i].offset {
            FromTells(src, fs, i + 1, st, info, choices, group, last);
          }
        } else if D.MarkGroup(group, info).Some? && st.pos < src.end {
          FromTells(src, fs, i + 1, D.Enter(st, fs[i].since), D.MarkGroup(group, info).value, choices, fs[i].present,
            last);
        }
      }
    }
  }

  lemma PassIntact(src: D.Source, fs: seq<Field>, i: nat, st: D.Reading)
    requires i < |fs| && !IsField(fs, i, src.version) && IsIntact(src, fs, i, st)
    ensures IsIntact(src, fs, i + 1, st)
    ensures fs[i].Group? ==> IsIntact(src, fs, i + 1, D.Enter(st, fs[i].since))
  {
  }

  lemma StepTells(src: D.Source, fs: seq<Field>, i: nat, st: D.Reading, info: Info, choices: seq<Choice>,
                  group: Option<Member>, last: bool)
    requires src.Valid() && IsField(fs, i, src.version) && st.pos <= src.end
    ensures var one := D.DecodeOne(src, fs[i], st, info, choices, last && i + 1 == |fs|);
      var r := D.DecodeFrom(src, fs, i, st, info, choices, group, last);
      && one.st.pos <= src.end && (one.st.short ==> r.st.short) && (one.st.misspelt ==> r.st.misspelt)
      && (if one.ok then
            r == D.DecodeFrom(src, fs, i + 1, D.Define(one.st, DefinedFrom(fs[i])), one.info, one.choices, group, last)
          else IsTold(st, r.ok, r.st))
  {
    hide D.Pending;
    hide D.DecodeOne;
  }

  lemma {:induction false} OneTells(src: D.Source, fs: seq<Field>, i: nat, st: D.Reading, info: Info,
                                    choices: seq<Choice>, atEnd: bool)
    requires src.Valid() && IsWellFormed(fs, src.version) && AreStridesSound(fs) && IsField(fs, i, src.version)
    requires st.pos <= src.end && IsAligned(st) && AreRunsOk(fs, i, st.taken, src.version)
    ensures var one := D.DecodeOne(src, fs[i], st, info, choices, atEnd); IsTold(st, one.ok, one.st)
    decreases fs, 2
  {
    hide IsWellFormed, AreStridesSound, D.DecodeNested, D.DecodeVector, D.DecodeArray, D.DecodePlain, D.DecodeExtended;
    NestedIsWellFormed(fs, i, src.version);
    NestedIsSound(fs, i);
    var f := fs[i];
    if f.Struct? {
      NestedTells(src, f.fields, st, RecordAt(info, f.member.id));
    } else if f.Vector? {
      VectorTells(src, f, 0, st, RecordsAt(info, f.member.id));
    } else if f.Array? {
      ArrayTells(src, f, st, info, atEnd);
    } else if IsExtended(f) {
      ExtendedTells(src, f, st, info, choices);
    } else if f.Bits? || f.Pad? {
      RunTells(src, f, st, info);
    } else {
      PlainTells(src, f, st, info, choices);
    }
  }

  lemma RunTells(src: D.Source, f: Field, st: D.Reading, info: Info)
    requires src.Valid() && (f.Bits? || f.Pad?) && st.pos <= src.end && IsAligned(st)
    ensures var r := if f.Bits? then D.DecodeBits(src, f, st, info) else D.DecodePad(src, f, st, info);
      IsTold(st, r.ok, r.st)
  {
    hide D.TakeBits, D.IsLater, Apply;
    var taken := if f.Pad? && f.unit != 0 then st.taken % f.unit else 0;
    var count := if f.Bits? then f.width else if taken == 0 then 0 else f.unit - taken;
    if D.TakeBits(src, st, count).0 {
      TakenBits(src, st, count);
    }
  }

  lemma ExtendedTells(src: D.Source, f: Field, st: D.Reading, info: Info, choices: seq<Choice>)
    requires src.Valid() && IsExtended(f)
    ensures var one := D.DecodeExtended(src, f, st, info, choices); IsTold(st, one.ok, one.st)
  {
    hide D.IsLater, Apply;
  }

  lemma PlainTells(src: D.Source, f: Field, st: D.Reading, info: Info, choices: seq<Choice>)
    requires src.Valid()
    ensures var one := D.DecodePlain(src, f, st, info, choices); IsTold(st, one.ok, one.st)
  {
    hide D.IsLater, Apply, D.Fetch;
    FetchTells(src, f, st, info);
  }

  lemma FetchTells(src: D.Source, f: Field, st: D.Reading, info: Info)
    requires src.Valid()
    ensures var got := D.Fetch(src, f, st, info); IsTold(st, got.ok, got.st)
  {
    hide D.IsLater, AreDigits, BcdValue, LeLoad, LeStore;
  }

  lemma {:induction false} NestedTells(src: D.Source, fs: seq<Field>, st: D.Reading, info: Info)
    requires src.Valid() && IsWellFormed(fs, src.version) && AreStridesSound(fs)
    requires st.pos <= src.end && IsClosed(st)
    ensures var r := D.DecodeNested(src, fs, st, info); IsTold(st, r.ok, r.st)
    decreases fs, 5
  {
    ListTells(src, fs, st.(optional := false), info, false);
  }

  /** A list which has been read in full, with nothing lost, leaves no run of bits open. */
  ghost predicate IsCleared(st: D.Reading) {
    st.lost || st.short || st.misspelt || IsClosed(st)
  }

  lemma NestedCleared(src: D.Source, fs: seq<Field>, st: D.Reading, info: Info)
    requires src.Valid() && IsWellFormed(fs, src.version) && st.pos <= src.end && IsClosed(st)
    requires D.DecodeNested(src, fs, st, info).ok
    ensures IsCleared(D.DecodeNested(src, fs, st, info).st)
  {
    hide IsWellFormed, D.DecodeNested;
    var r := D.DecodeNested(src, fs, st, info);
    if !r.st.lost && !r.st.short {
      NestedFits(src, fs, st, info);
    }
  }

  lemma {:induction false} VectorTells(src: D.Source, f: Field, i: nat, st: D.Reading, elements: seq<Info>)
    requires src.Valid() && f.Vector? && IsWellFormed(f.fields, src.version) && AreStridesSound(f.fields)
    requires st.pos <= src.end && IsCleared(st)
    ensures var (ok, st', _) := D.DecodeVector(src, f, i, st, elements); IsTold(st, ok, st')
    decreases f, 1, f.count - i
  {
    hide IsWellFormed, D.DecodeNested, AreStridesSound;
    if i < f.count && !st.lost && !st.short && !st.misspelt {
      var r := D.DecodeNested(src, f.fields, st, ElementAt(elements, i));
      NestedTells(src, f.fields, st, ElementAt(elements, i));
      if r.ok {
        NestedCleared(src, f.fields, st, ElementAt(elements, i));
        VectorTells(src, f, i + 1, r.st, D.PutElement(elements, i, r.info));
      }
    }
  }

  lemma {:induction false} ArrayTells(src: D.Source, f: Field, st: D.Reading, info: Info, atEnd: bool)
    requires src.Valid() && f.Array? && IsStrideSound(f)
    requires IsWellFormed(f.fields, src.version) && AreStridesSound(f.fields)
    requires st.pos <= src.end && IsClosed(st)
    ensures var r := D.DecodeArray(src, f, st, info, atEnd); IsTold(st, r.ok, r.st)
    decreases f, 2
  {
    hide IsWellFormed, D.DecodeElements, D.DecodeHeader, IsSkipped, IsStrideSound, AreStridesSound;
    var hd := D.DecodeHeader(src, f, st, info);
    HeaderTells(src, f, st, info);
    if hd.ok && hd.count != 0 && !IsSkipped(f, hd.stride) {
      ElementsTell(src, f, hd.stride, hd.count, hd.st, [], atEnd);
    }
  }

  lemma HeaderTells(src: D.Source, f: Field, st: D.Reading, info: Info)
    requires src.Valid() && f.Array? && IsStrideSound(f)
    ensures var hd := D.DecodeHeader(src, f, st, info);
      && IsTold(st, hd.ok, hd.st)
      && (hd.ok && !IsSkipped(f, hd.stride) && hd.stride != 0 ==> 0 < E.FieldsSize(f.fields) <= hd.stride)
  {
    hide D.IsLater, D.StoreOptional, E.FieldsSize, LeLoad;
  }

  lemma {:induction false} ElementsTell(src: D.Source, f: Field, stride: nat, count: nat, st: D.Reading,
                                        elements: seq<Info>, atEnd: bool)
    requires src.Valid() && f.Array? && (stride != 0 ==> 0 < E.FieldsSize(f.fields) <= stride)
    requires IsWellFormed(f.fields, src.version) && AreStridesSound(f.fields)
    requires st.pos <= src.end && IsCleared(st)
    ensures var (ok, st', _) := D.DecodeElements(src, f, stride, count, st, elements, atEnd); IsTold(st, ok, st')
    decreases f, 1, count
  {
    hide IsWellFormed, D.DecodeElement, AreStridesSound, E.FieldsSize;
    if count > 0 && !st.lost && !st.short && !st.misspelt {
      var one := D.DecodeElement(src, f, stride, st);
      if one.ok {
        ElementTells(src, f, stride, st);
        ElementsTell(src, f, stride, count - 1, one.st, elements + [one.info], atEnd);
      }
    }
  }

  lemma {:induction false} ElementTells(src: D.Source, f: Field, stride: nat, st: D.Reading)
    requires src.Valid() && f.Array? && (stride != 0 ==> 0 < E.FieldsSize(f.fields) <= stride)
    requires IsWellFormed(f.fields, src.version) && AreStridesSound(f.fields)
    requires st.pos <= src.end && IsClosed(st) && !st.lost && D.DecodeElement(src, f, stride, st).ok
    ensures var one := D.DecodeElement(src, f, stride, st); IsTold(st, one.ok, one.st) && IsCleared(one.st)
    decreases f, 0
  {
    hide IsWellFormed, D.DecodeNested, AreStridesSound, E.FieldsSize;
    NestedTells(src, f.fields, st, map[]);
    NestedCleared(src, f.fields, st, map[]);
    var r := D.DecodeNested(src, f.fields, st, map[]);
    if !r.st.lost && !r.st.short {
      NestedFits(src, f.fields, st, map[]);
    }
  }

  lemma OneIsIntact(src: D.Source, fs: seq<Field>, i: nat, st: D.Reading, info: Info,
                    choices: seq<Choice>, atEnd: bool)
    requires src.Valid() && IsWellFormed(fs, src.version) && IsField(fs, i, src.version)
    requires st.pos <= src.end && IsAligned(st) && AreRunsOk(fs, i, st.taken, src.version)
    requires D.DecodeOne(src, fs[i], st, info, choices, atEnd).ok
    ensures IsIntact(src, fs, i + 1, D.Define(D.DecodeOne(src, fs[i], st, info, choices, atEnd).st, DefinedFrom(fs[i])))
  {
    hide IsWellFormed, D.DecodeOne, AreRunsOk, IsAligned, D.IsLater;
    var one := D.DecodeOne(src, fs[i], st, info, choices, atEnd);
    if !one.st.lost && !one.st.short && !one.st.misspelt {
      var next := OneFits(src, fs, i, st, info, choices, atEnd, 0, 0, 0, false);
      DefinedFits(fs, i + 1, one.st, DefinedFrom(fs[i]), 0, 0, 0, false);
    }
  }

  /**
   Preserve mode, as far as a caller can tell: a structure which has been
   decoded, and has not been found incomplete, is encoded into its own bytes.
   */
  lemma CompleteIdentity(e: Entity, fs: seq<Field>, version: Version)
    requires IsCreated(e) && IsWellFormed(fs, version) && AreStridesSound(fs)
    requires var r := Decode(e, fs, version); r.ok && !r.st.short && !r.st.misspelt
    ensures Encode(e, fs, Decode(e, fs, version).info, true, version) == Some(e.body)
  {
    hide IsWellFormed, D.DecodeList, E.EncodeList, AreStridesSound;
    ListTells(SourceOf(e, version), fs, START, map[], true);
    PreserveIdentity(e, fs, version);
  }
}

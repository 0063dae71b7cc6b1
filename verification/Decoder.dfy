/**
 The decoding half of the engine as it runs: cursors, an accumulator of bits
 and flags changed in place (libopendmi/src/field-decode.c,
 libopendmi/src/decoder.c). Every method is proved to do what the
 specification of decoding says.
 */
module DecodingEngine {
  import opened Wrappers
  import opened Bytes
  import opened BitRuns
  import opened Schema
  import opened Buffers
  import opened Words
  import D = Decoding

  /** What decoding tells of a structure. */
  class Entity {
    var level: Version
    var isPartial: bool
    var isIncomplete: bool

    constructor ()
      ensures level == 0 && !isPartial && !isIncomplete
    {
      level, isPartial, isIncomplete := 0, false, false;
    }
  }

  // Choices

  method FindChoice(choices: seq<Choice>, key: Id) returns (found: Option<nat>)
    ensures found == Find(choices, key)
  {
    var i := 0;
    while i < |choices|
      invariant 0 <= i <= |choices| && FindFrom(choices, key, i) == Find(choices, key)
    {
      if choices[i].key == key {
        return Some(i);
      }
      i := i + 1;
    }
    return None;
  }

  /** Members the extended fields of a list are keyed on, one entry a member. */
  method CollectChoices(fs: seq<Field>) returns (choices: seq<Choice>)
    ensures choices == Collect(fs)
  {
    choices := [];
    var i := 0;
    while i < |fs|
      invariant 0 <= i <= |fs| && CollectFrom(fs, i, choices) == Collect(fs)
    {
      if IsExtended(fs[i]) {
        var found := FindChoice(choices, WhenKey(fs[i]));
        if found.None? && |choices| < CHOICE_MAX {
          choices := choices + [Choice(WhenKey(fs[i]), fs[i].whenRaw, 0, false)];
        }
      }
      i := i + 1;
    }
  }

  /** Members which mean something other than zero when they are not read are set first. */
  method ApplyPresets(fs: seq<Field>, info: Info) returns (filled: Info)
    ensures filled == PresetsFrom(fs, 0, info)
  {
    filled := info;
    var i := 0;
    while i < |fs|
      invariant 0 <= i <= |fs| && PresetsFrom(fs, i, filled) == PresetsFrom(fs, 0, info)
    {
      if fs[i].Preset? {
        filled := filled[fs[i].id := fs[i].value];
      }
      i := i + 1;
    }
  }

  // The accumulator

  /** A byte shifted above the bits there are puts its bits behind them. */
  lemma ByteIsShifted(value: nat, count: nat, data: Byte)
    requires value < Pow2(count)
    ensures ToBits(value + data * Pow2(count), count + 8) == ToBits(value, count) + ByteBits(data)
    ensures value + data * Pow2(count) < Pow2(count + 8)
  {
    hide ToBits, FromBits, Pow2, ByteBits;
    var bits := ToBits(value, count) + ByteBits(data);
    FromConcat(ToBits(value, count), ByteBits(data));
    WholeNumber(value, count);
    ByteRoundTrip(data);
    assert FromBits(bits) == value + data * Pow2(count);
    ToFromBits(bits);
    BitsAreBounded(bits);
  }

  /** Masking takes the first bits, and shifting leaves the ones behind them. */
  lemma BitsAreSplit(value: nat, count: nat, low: nat)
    requires value < Pow2(count) && low <= count
    ensures FromBits(ToBits(value, count)[..low]) == Low(value, low)
    ensures ToBits(Shr(value, low), count - low) == ToBits(value, count)[low..]
    ensures Shr(value, low) < Pow2(count - low)
  {
    var bits := ToBits(value, count);
    WholeNumber(value, count);
    assert bits == bits[..low] + bits[low..];
    FromParts(bits[..low], bits[low..]);
    ToFromBits(bits[low..]);
    BitsAreBounded(bits[low..]);
  }

  /** State of a structure being decoded, which the fields are read into. */
  class Decoder {
    const reader: Reader
    const entity: Entity
    const version: Version
    const strings: seq<Option<seq<Byte>>>
    const isPart: bool

    var bitsValue: nat
    var bitsCount: nat
    var bitsTaken: nat
    var optional: bool
    var incomplete: bool
    var defined: Version

    ghost var short: bool
    ghost var misspelt: bool
    ghost var lost: bool

    /** The accumulator, of 64 bits, holds as many bits as it counts. */
    ghost predicate Valid()
      reads this, entity, reader, reader.buffer
    {
      && reader.Valid()
      && bitsCount < 64 && bitsValue < Pow2(bitsCount)
      && (!isPart ==> entity.isIncomplete == short)
    }

    ghost function Source(): (src: D.Source)
      requires Valid()
      reads this, entity, reader, reader.buffer, reader.buffer.data
      ensures src.Valid() && src.end == reader.length
      ensures src.version == version && src.strings == strings && src.part == isPart
    {
      D.Source(reader.Range(), reader.length, version, strings, isPart)
    }

    ghost function State(): (st: D.Reading)
      reads this, entity, reader
      ensures st.pos == reader.position && st.taken == bitsTaken && st.lost == lost
      ensures st.optional == optional && st.incomplete == incomplete && |st.bits| == bitsCount
    {
      D.Reading(reader.position, ToBits(bitsValue, bitsCount), bitsTaken, optional, incomplete, short,
                entity.isPartial, entity.level, defined, misspelt, lost)
    }

    constructor (reader: Reader, entity: Entity, version: Version, strings: seq<Option<seq<Byte>>>, isPart: bool)
      requires reader.Valid()
      ensures this.reader == reader && this.entity == entity && this.version == version
      ensures this.strings == strings && this.isPart == isPart && Valid()
      ensures State() == D.Reading(reader.position, [], 0, false, false, entity.isIncomplete, entity.isPartial,
                                   entity.level, 0, false, false)
    {
      this.reader, this.entity, this.version, this.strings, this.isPart := reader, entity, version, strings, isPart;
      bitsValue, bitsCount, bitsTaken, optional, incomplete, defined := 0, 0, 0, false, false, 0;
      short, misspelt, lost := entity.isIncomplete, false, false;
    }

    ghost method Lose(so: bool)
      requires Valid()
      modifies this`lost
      ensures Valid() && Source() == old(Source()) && State() == D.LoseIf(old(State()), so)
    {
      lost := lost || so;
    }

    method SetOptional(so: bool)
      requires Valid()
      modifies this`optional
      ensures Valid() && Source() == old(Source()) && State() == old(State()).(optional := so)
    {
      optional := so;
    }

    method SetIncomplete(so: bool)
      requires Valid()
      modifies this`incomplete
      ensures Valid() && Source() == old(Source()) && State() == old(State()).(incomplete := so)
    {
      incomplete := so;
    }

    method Tell() returns (position: nat)
      ensures position == State().pos
    {
      position := reader.position;
    }

    method Has(count: nat) returns (has: bool)
      requires Valid()
      ensures has <==> count <= D.Remaining(Source(), State())
    {
      has := count <= reader.Remaining();
    }

    method SkipFrom(mark: Mark, count: nat) returns (ok: bool)
      requires Valid() && mark.buffer == reader.buffer && mark.base == reader.base
      modifies reader`position
      ensures Valid() && Source() == old(Source()) && (ok <==> mark.position + count <= Source().end)
      ensures State() == if ok then old(State()).(pos := mark.position + count) else old(State())
    {
      ok := reader.SkipFrom(mark, count);
    }

    method IsDone() returns (done: bool)
      requires Valid()
      ensures done <==> State().pos >= Source().end
    {
      done := reader.position >= reader.length;
    }

    // Numbers

    method ReadNumber(length: nat) returns (ok: bool, number: nat)
      requires Valid()
      modifies this, reader`position
      ensures Valid() && Source() == old(Source())
      ensures (ok, State(), number) == D.ReadNumber(old(Source()), old(State()), length)
    {
      if length == 0 || length > 8 {
        lost := true;
        return false, 0;
      }
      var data;
      ok, data := reader.GetBytes(length);
      number := 0;
      if ok {
        number := LoadNumber(data);
      }
    }

    /** The accumulator never overflows: it holds fewer bits than a range and a byte have. */
    method TakeBits(count: nat) returns (ok: bool, value: nat)
      requires Valid()
      modifies this, reader`position
      ensures Valid() && Source() == old(Source())
      ensures var r := D.TakeBits(old(Source()), old(State()), count);
        ok == r.0 && State() == r.1 && (ok ==> value == FromBits(r.2))
    {
      hide ToBits, FromBits, Pow2, D.IsLater, Valid, Source, State;
      value := 0;
      if count == 0 || count > D.BITS_MAX {
        Lose(true);
        return false, 0;
      }
      ghost var src, st := Source(), State();
      while bitsCount < count
        invariant Valid() && Source() == src
        invariant D.TakeBits(src, State(), count) == D.TakeBits(src, st, count)
        decreases if bitsCount < count then count - bitsCount else 0
      {
        var got := GatherByte();
        if !got {
          Lose(true);
          return false, 0;
        }
      }
      value := ShiftOut(count);
      ok := true;
    }

    /** The next byte is put above the bits there are. */
    method GatherByte() returns (ok: bool)
      requires Valid() && bitsCount < D.BITS_MAX
      modifies this`bitsValue, this`bitsCount, reader`position
      ensures Valid() && Source() == old(Source()) && (ok <==> old(State()).pos < Source().end)
      ensures bitsCount == if ok then old(bitsCount) + 8 else old(bitsCount)
      ensures var st := old(State());
        State() == if ok then st.(pos := st.pos + 1, bits := st.bits + ByteBits(Source().body[st.pos])) else st
    {
      hide ToBits, FromBits, Pow2;
      var data;
      ok, data := reader.GetBytes(1);
      if ok {
        ByteIsShifted(bitsValue, bitsCount, data[0]);
        bitsValue := bitsValue + data[0] * Pow2(bitsCount);
        bitsCount := bitsCount + 8;
      }
    }

    /** The lowest bits are masked off, and the others are shifted down. */
    method ShiftOut(count: nat) returns (value: nat)
      requires Valid() && count <= bitsCount
      modifies this`bitsValue, this`bitsCount, this`bitsTaken
      ensures Valid() && Source() == old(Source())
      ensures var st := old(State());
        && value == FromBits(st.bits[..count])
        && State() == st.(bits := st.bits[count..], taken := st.taken + count)
    {
      hide ToBits, FromBits, Pow2, Low, Shr;
      BitsAreSplit(bitsValue, bitsCount, count);
      value := Low(bitsValue, count);
      bitsValue := Shr(bitsValue, count);
      bitsCount := bitsCount - count;
      bitsTaken := bitsTaken + count;
    }

    // Scalar fields

    method ReadBcd(length: nat, unknown: nat) returns (ok: bool, data: Data)
      requires Valid()
      modifies this, reader`position
      ensures Valid() && Source() == old(Source())
      ensures D.Fetched(ok, State(), data) == D.FetchBcd(old(Source()), length, unknown, old(State()))
    {
      hide D.IsLater, LeStore, BcdValue;
      var number;
      ok, number := ReadNumber(length);
      if !ok {
        return false, D.NO_DATA;
      }
      if unknown == 0 || number != unknown {
        var digits := StoreNumber(number, length);
        misspelt := misspelt || !AreDigits(digits);
        lost := lost || !AreDigits(digits);
        number := LoadDigits(digits);
      }
      data := Data(number, NoText, []);
    }

    method ReadText() returns (ok: bool, data: Data)
      requires Valid()
      modifies this, reader`position
      ensures Valid() && Source() == old(Source())
      ensures D.Fetched(ok, State(), data) == D.FetchText(old(Source()), old(State()))
    {
      var bytes;
      ok, bytes := reader.GetBytes(1);
      data := if ok then TextData(strings, bytes[0]) else D.NO_DATA;
    }

    method ReadBytes(length: nat) returns (ok: bool, data: Data)
      requires Valid()
      modifies this, reader`position
      ensures Valid() && Source() == old(Source())
      ensures D.Fetched(ok, State(), data) == D.FetchRaw(old(Source()), length, old(State()))
    {
      var bytes;
      ok, bytes := reader.GetBytes(length);
      data := if ok then Data(0, NoText, bytes) else D.NO_DATA;
    }

    function RawLength(f: Field, info: Info): nat
      requires Valid() && f.Raw?
      reads this, entity, reader, reader.buffer
    {
      match f.extent
      case Fixed(length) => length
      case Rest => reader.Remaining()
      case Counted(m) => Load(info, m)
    }

    method Fetch(f: Field, info: Info) returns (ok: bool, data: Data)
      requires Valid()
      modifies this, reader`position
      ensures Valid() && Source() == old(Source())
      ensures D.Fetched(ok, State(), data) == D.Fetch(old(Source()), f, old(State()), info)
    {
      hide D.IsLater, D.FetchNumber, D.FetchBcd, D.FetchText, D.FetchRaw, Valid, Source, State;
      match f {
        case Integer(_, length, _, _, _, _, _, _) =>
          ok, data := ReadInteger(length);
        case String(_, _, _) =>
          ok, data := ReadText();
        case Bcd(_, length, unknown) =>
          ok, data := ReadBcd(length, unknown);
        case Raw(_, _, _, _) =>
          ok, data := ReadBytes(RawLength(f, info));
        case _ =>
          Lose(true);
          return false, D.NO_DATA;
      }
    }

    method ReadInteger(length: nat) returns (ok: bool, data: Data)
      requires Valid()
      modifies this, reader`position
      ensures Valid() && Source() == old(Source())
      ensures D.Fetched(ok, State(), data) == D.FetchNumber(old(Source()), length, old(State()))
    {
      var number;
      ok, number := ReadNumber(length);
      data := Data(number, NoText, []);
    }

    method DecodeUuid(f: Field, info: Info) returns (ok: bool, filled: Info)
      requires Valid() && f.Uuid?
      modifies this, reader`position
      ensures Valid() && Source() == old(Source())
      ensures D.Scalar(ok, State(), filled, None) == D.DecodeUuid(old(Source()), f, old(State()), info)
    {
      var bytes;
      ok, bytes := reader.GetBytes(16);
      filled := if ok then info[f.member.id := Unique(SwapUuid(bytes))] else info;
    }

    /** Bytes which are there are kept when the data ends before all of them. */
    method DecodeCut(f: Field, info: Info) returns (filled: Info)
      requires Valid() && f.Raw? && f.extent.Counted?
      modifies this, reader`position
      ensures Valid() && Source() == old(Source())
      ensures D.Scalar(false, State(), filled, None) == D.DecodeCut(old(Source()), f, old(State()), info)
    {
      hide Apply;
      var ok, bytes := reader.GetBytes(reader.Remaining());
      var writes := Apply(f, Data(0, NoText, bytes));
      filled := if writes.Some? then info + writes.value else info;
      filled := filled[f.extent.counted.id := Number(|bytes|)];
      incomplete, lost := true, true;
    }

    /** Value of a scalar field, stored unless it is an extended one's. */
    method DecodeValue(f: Field, info: Info, store: bool) returns (ok: bool, filled: Info, raw: Option<nat>)
      requires Valid()
      modifies this, reader`position
      ensures Valid() && Source() == old(Source())
      ensures D.Scalar(ok, State(), filled, raw) == D.DecodeValue(old(Source()), f, old(State()), info, store)
    {
      hide D.IsLater, D.Fetch, D.DecodeCut, D.DecodeUuid, D.DecodeFetched, Valid, Source, State;
      if f.Skip? {
        ok := Skip(f.length);
        return ok, info, None;
      }
      if f.Uuid? {
        ok, filled := DecodeUuid(f, info);
        return ok, filled, None;
      }
      var cut := IsCut(f, info);
      if cut {
        filled := DecodeCut(f, info);
        return false, filled, None;
      }
      var data;
      ok, data := Fetch(f, info);
      ok, filled, raw := StoreFetched(f, ok, data, info, store);
    }

    method Skip(length: nat) returns (ok: bool)
      requires Valid()
      modifies this`lost, reader`position
      ensures Valid() && Source() == old(Source()) && (ok <==> length <= D.Remaining(Source(), old(State())))
      ensures var st := old(State());
        State() == if ok then st.(pos := st.pos + length) else D.Lose(st)
    {
      ok := reader.Skip(length);
      lost := lost || !ok;
    }

    method IsCut(f: Field, info: Info) returns (cut: bool)
      requires Valid()
      ensures cut <==> D.IsCut(Source(), f, State(), info)
    {
      cut := f.Raw? && f.extent.Counted? && RawLength(f, info) > reader.Remaining();
    }

    method StoreFetched(f: Field, got: bool, data: Data, info: Info, store: bool)
      returns (ok: bool, filled: Info, raw: Option<nat>)
      requires Valid()
      modifies this`lost
      ensures Valid() && Source() == old(Source())
      ensures D.Scalar(ok, State(), filled, raw)
           == D.DecodeFetched(f, D.Fetched(got, old(State()), data), info, store)
    {
      hide Valid, Source, State, Apply;
      if !got {
        return false, info, None;
      }
      if !store {
        return true, info, Some(data.number);
      }
      var writes := Apply(f, data);
      if writes.None? {
        Lose(true);
        return false, info, Some(data.number);
      }
      return true, info + writes.value, Some(data.number);
    }

    method DecodeExtended(f: Field, info: Info, choices: seq<Choice>) returns (ok: bool, filled: Info)
      requires Valid() && IsExtended(f)
      modifies this, reader`position
      ensures Valid() && Source() == old(Source())
      ensures D.Step(ok, State(), filled, choices) == D.DecodeExtended(old(Source()), f, old(State()), info, choices)
    {
      hide D.IsLater, D.DecodeValue, Apply, Valid, Source, State;
      var raw;
      ok, filled, raw := DecodeValue(f, info, false);
      filled := info;
      if !ok || raw.None? {
        return false, info;
      }
      var kept := FindChoice(choices, WhenKey(f));
      if kept.None? || choices[kept.value].raw != f.whenRaw {
        return true, info;
      }
      var writes := Apply(f, Data(raw.value, NoText, []));
      if writes.None? {
        Lose(true);
        return false, info;
      }
      filled := info + writes.value;
    }

    method DecodePlain(f: Field, info: Info, choices: seq<Choice>)
      returns (ok: bool, filled: Info, kept: seq<Choice>)
      requires Valid()
      modifies this, reader`position
      ensures Valid() && Source() == old(Source())
      ensures D.Step(ok, State(), filled, kept) == D.DecodePlain(old(Source()), f, old(State()), info, choices)
    {
      hide D.IsLater, D.DecodeValue, Valid, Source, State;
      var raw;
      ok, filled, raw := DecodeValue(f, info, true);
      var c := FindChoice(choices, WhenKey(f));
      kept := choices;
      if c.Some? && raw.Some? {
        kept := choices[c.value := choices[c.value].(raw := raw.value)];
      }
    }

    // Runs of bits

    method DecodeBits(f: Field, info: Info) returns (ok: bool, filled: Info)
      requires Valid() && f.Bits?
      modifies this, reader`position
      ensures Valid() && Source() == old(Source())
      ensures D.Outcome(ok, State(), filled) == D.DecodeBits(old(Source()), f, old(State()), info)
    {
      hide D.IsLater, D.TakeBits, Apply, Valid, Source, State;
      var value;
      filled := info;
      ok, value := TakeBits(f.width);
      if ok {
        var writes := Apply(f, Data(value, NoText, []));
        if writes.None? {
          Lose(true);
          return false, info;
        }
        filled := info + writes.value;
      }
    }

    method DecodePad(f: Field, info: Info) returns (ok: bool)
      requires Valid() && f.Pad?
      modifies this, reader`position
      ensures Valid() && Source() == old(Source())
      ensures D.Outcome(ok, State(), info) == D.DecodePad(old(Source()), f, old(State()), info)
    {
      hide D.IsLater, D.TakeBits, ToBits;
      var taken := if f.unit == 0 then 0 else bitsTaken % f.unit;
      if taken != 0 {
        var reserved;
        ok, reserved := TakeBits(f.unit - taken);
        if !ok {
          return;
        }
      }
      bitsTaken := 0;
      ok := true;
    }

    // Arrays

    method ReadNumbers(f: Field) returns (ok: bool, count: nat, stride: nat, leftover: nat)
      requires Valid() && f.Array?
      modifies this, reader`position
      ensures Valid() && Source() == old(Source())
      ensures D.Numbers(ok, State(), count, stride, leftover) == D.ReadNumbers(old(Source()), f, old(State()))
    {
      hide D.IsLater, D.ReadNumber;
      count, stride, leftover := 0, f.stride, 0;
      if f.countLength == 0 {
        if f.stride == 0 {
          lost := true;
          return false, 0, 0, 0;
        }
        count := reader.Remaining() / f.stride;
        leftover := reader.Remaining() % f.stride;
      } else {
        ok, count := ReadNumber(f.countLength);
        if !ok {
          return false, 0, 0, 0;
        }
      }
      if f.strideLength != 0 {
        ok, stride := ReadNumber(f.strideLength);
        if !ok {
          return false, 0, 0, 0;
        }
      }
      ok := true;
    }

    method DecodeHeader(f: Field, info: Info)
      returns (ok: bool, filled: Info, count: nat, stride: nat, leftover: nat)
      requires Valid() && f.Array?
      modifies this, reader`position
      ensures Valid() && Source() == old(Source())
      ensures D.Header(ok, State(), filled, count, stride, leftover)
           == D.DecodeHeader(old(Source()), f, old(State()), info)
    {
      hide D.IsLater, D.ReadNumbers, D.StoreOptional, Valid, Source, State;
      filled := info;
      ok, count, stride, leftover := ReadNumbers(f);
      if !ok {
        return false, info, 0, 0, 0;
      }
      var counted := D.StoreOptional(f.countMember, filled, count);
      if counted.None? {
        Lose(true);
        return false, filled, 0, 0, 0;
      }
      filled := counted.value;
      var strided := D.StoreOptional(f.strideMember, filled, stride);
      if strided.None? {
        Lose(true);
        return false, filled, 0, 0, 0;
      }
      filled := strided.value;
    }

    method DecodeArray(f: Field, info: Info, ghost atEnd: bool) returns (ok: bool, filled: Info)
      requires Valid() && f.Array?
      modifies this, reader`position, entity
      ensures Valid() && Source() == old(Source())
      ensures D.Outcome(ok, State(), filled) == D.DecodeArray(old(Source()), f, old(State()), info, atEnd)
      decreases f, 2
    {
      hide Reader.Valid;
      hide D.IsLater, D.DecodeHeader, D.DecodeElements, Valid, Source, State, IsSkipped;
      var count, stride, leftover;
      ok, filled, count, stride, leftover := DecodeHeader(f, info);
      if !ok {
        return;
      }
      filled := filled[f.counter.id := Number(0)];
      if count == 0 {
        if leftover != 0 {
          MarkIncomplete();
        }
        return;
      }
      if IsSkipped(f, stride) {
        ok := StepOver(count * stride % WORD_LIMIT);
        return;
      }
      var elements;
      ok, elements := DecodeElements(f, stride, count, atEnd);
      filled := filled[f.member.id := Records(elements)][f.counter.id := Number(|elements|)];
      if ok && leftover != 0 {
        MarkIncomplete();
      }
    }

    /** As many of the bytes as there are. */
    method StepOver(length: nat) returns (ok: bool)
      requires Valid()
      modifies reader`position
      ensures Valid() && Source() == old(Source()) && ok
      ensures var st := old(State());
        State() == st.(pos := st.pos + Min(length, D.Remaining(Source(), st)))
    {
      var remaining := reader.Remaining();
      ok := reader.Skip(if length < remaining then length else remaining);
    }

    method DecodeElements(f: Field, stride: nat, count: nat, ghost atEnd: bool)
      returns (ok: bool, elements: seq<Info>)
      requires Valid() && f.Array?
      modifies this, reader`position, entity
      ensures Valid() && Source() == old(Source())
      ensures (ok, State(), elements)
           == D.DecodeElements(old(Source()), f, stride, count, old(State()), [], atEnd)
      decreases f, 1
    {
      hide D.IsLater, D.DecodeElement, Valid, Source, State;
      ghost var src, st := Source(), State();
      elements := [];
      var i := 0;
      while i < count
        invariant 0 <= i <= count && Valid() && Source() == src
        invariant D.DecodeElements(src, f, stride, count - i, State(), elements, atEnd)
               == D.DecodeElements(src, f, stride, count, st, [], atEnd)
      {
        ghost var before := lost;
        var element;
        ok, element := DecodeElement(f, stride);
        if !ok {
          Forget(before || !atEnd);
          return;
        }
        elements := elements + [element];
        i := i + 1;
      }
      ok := true;
    }

    /** An element which is not counted leaves nothing behind. */
    ghost method Forget(so: bool)
      requires Valid()
      modifies this`lost
      ensures Valid() && Source() == old(Source()) && State() == old(State()).(lost := so)
    {
      lost := so;
    }

    /** An element is there in full, or not at all. */
    method DecodeElement(f: Field, stride: nat) returns (ok: bool, element: Info)
      requires Valid() && f.Array?
      modifies this, reader`position, entity
      ensures Valid() && Source() == old(Source())
      ensures D.Outcome(ok, State(), element) == D.DecodeElement(old(Source()), f, stride, old(State()))
      decreases f, 0
    {
      hide D.IsLater, D.DecodeNested, Valid, Source, State;
      var has := Has(stride);
      if stride != 0 && !has {
        SetIncomplete(true);
        return false, map[];
      }
      var start := reader.MarkHere();
      ok, element := DecodeNested(f.fields, map[]);
      if !ok {
        var done := IsDone();
        SetIncomplete(done);
        return false, map[];
      }
      if stride != 0 {
        Lose(State().pos > start.position + stride);
        ok := SkipFrom(start, stride);
      }
    }

    /** Data which ends early says nothing of a structure a part of which is read. */
    method MarkIncomplete()
      requires Valid()
      modifies this`short, entity
      ensures Valid() && Source() == old(Source()) && State() == old(State()).(short := true)
    {
      short := true;
      if !isPart {
        entity.isIncomplete := true;
      }
    }

    /** A field which has not been read fails the list, unless it may be missing. */
    method Fail(ghost info: Info) returns (ok: bool)
      requires Valid()
      modifies this`short, entity
      ensures Valid() && Source() == old(Source())
      ensures D.Outcome(ok, State(), info) == D.Fail(old(State()), info)
    {
      ok := optional || incomplete;
      if ok {
        MarkIncomplete();
      }
    }

    /** The version of a group becomes the level, and what follows may be missing. */
    method Enter(since: Version)
      requires Valid()
      modifies this`optional, entity`level
      ensures Valid() && Source() == old(Source()) && State() == D.Enter(old(State()), since)
    {
      if since != 0 {
        entity.level := since;
      }
      optional := true;
    }

    method Define(from: Version)
      requires Valid()
      modifies this`defined
      ensures Valid() && Source() == old(Source()) && State() == D.Define(old(State()), from)
    {
      if from > defined {
        defined := from;
      }
    }

    method Stop()
      requires Valid()
      modifies entity
      ensures Valid() && Source() == old(Source())
      ensures State() == old(State()).(partial := old(State()).partial || !isPart)
    {
      if !isPart {
        entity.isPartial := true;
      }
    }

    method DecodeVector(f: Field, held: seq<Info>) returns (ok: bool, elements: seq<Info>)
      requires Valid() && f.Vector?
      modifies this, reader`position, entity
      ensures Valid() && Source() == old(Source())
      ensures (ok, State(), elements) == D.DecodeVector(old(Source()), f, 0, old(State()), held)
      decreases f, 1
    {
      hide D.IsLater, D.DecodeNested, Valid, Source, State;
      ghost var src, st := Source(), State();
      elements := held;
      var i := 0;
      while i < f.count
        invariant 0 <= i <= f.count && Valid() && Source() == src
        invariant D.DecodeVector(src, f, i, State(), elements) == D.DecodeVector(src, f, 0, st, held)
      {
        var element;
        ok, element := DecodeNested(f.fields, ElementAt(elements, i));
        elements := D.PutElement(elements, i, element);
        if !ok {
          return;
        }
        i := i + 1;
      }
      ok := true;
    }

    /** Groups of the enclosing list say nothing about a nested one. */
    method DecodeNested(fs: seq<Field>, info: Info) returns (ok: bool, filled: Info)
      requires Valid()
      modifies this, reader`position, entity
      ensures Valid() && Source() == old(Source())
      ensures D.Outcome(ok, State(), filled) == D.DecodeNested(old(Source()), fs, old(State()), info)
      decreases fs, 5
    {
      hide D.IsLater, D.DecodeList, Valid, Source, State;
      var before := optional;
      SetOptional(false);
      ok, filled := DecodeList(fs, info, false);
      SetOptional(before);
    }

    method DecodeOne(f: Field, info: Info, choices: seq<Choice>, ghost atEnd: bool)
      returns (ok: bool, filled: Info, kept: seq<Choice>)
      requires Valid()
      modifies this, reader`position, entity
      ensures Valid() && Source() == old(Source())
      ensures D.Step(ok, State(), filled, kept)
           == D.DecodeOne(old(Source()), f, old(State()), info, choices, atEnd)
      decreases f, 3
    {
      hide D.IsLater, D.DecodeBits, D.DecodePad, D.DecodeArray, D.DecodeVector, D.DecodeNested, Valid, Source, State;
      hide D.DecodeExtended, D.DecodePlain;
      filled, kept := info, choices;
      if f.Bits? {
        ok, filled := DecodeBits(f, info);
      } else if f.Pad? {
        ok := DecodePad(f, info);
      } else if f.Array? {
        ok, filled := DecodeArray(f, info, atEnd);
      } else if f.Vector? {
        var elements;
        ok, elements := DecodeVector(f, RecordsAt(info, f.member.id));
        filled := info[f.member.id := Records(elements)];
      } else if f.Struct? {
        var nested;
        ok, nested := DecodeNested(f.fields, RecordAt(info, f.member.id));
        filled := info[f.member.id := Record(nested)];
      } else if IsExtended(f) {
        ok, filled := DecodeExtended(f, info, choices);
      } else {
        ok, filled, kept := DecodePlain(f, info, choices);
      }
    }

    method DecodeList(fs: seq<Field>, info: Info, ghost last: bool) returns (ok: bool, filled: Info)
      requires Valid()
      modifies this, reader`position, entity
      ensures Valid() && Source() == old(Source())
      ensures D.Outcome(ok, State(), filled) == D.DecodeList(old(Source()), fs, old(State()), info, last)
      decreases fs, 4
    {
      hide D.IsLater, D.DecodeOne, ToBits, D.Pending, Collect, PresetsFrom;
      hide Store, D.Enter, D.Define, D.Fail, D.MarkGroup;
      hide Pow2, Valid, Source, State;
      ghost var src, st := Source(), State();
      filled := ApplyPresets(fs, info);
      var choices := CollectChoices(fs);
      var group: Option<Member> := None;
      ghost var whole := D.DecodeFrom(src, fs, 0, st, filled, choices, None, last);
      var i := 0;
      while i < |fs|
        invariant 0 <= i <= |fs| && Valid() && Source() == src
        invariant D.DecodeFrom(src, fs, i, State(), filled, choices, group, last) == whole
      {
        var going;
        going, ok, filled, choices, group := DecodeNext(fs, i, filled, choices, group, last);
        if !going {
          return;
        }
        i := i + 1;
      }
      var marked := D.MarkGroup(group, filled);
      if marked.None? {
        Lose(true);
        return false, filled;
      }
      return true, marked.value;
    }

    /** The next field of a list, and whether there is anything after it to read. */
    method DecodeNext(fs: seq<Field>, i: nat, info: Info, choices: seq<Choice>, group: Option<Member>, ghost last: bool)
      returns (going: bool, ok: bool, filled: Info, kept: seq<Choice>, entered: Option<Member>)
      requires Valid() && i < |fs|
      modifies this, reader`position, entity
      ensures Valid() && Source() == old(Source())
      ensures var whole := D.DecodeFrom(old(Source()), fs, i, old(State()), info, choices, group, last);
        if going then whole == D.DecodeFrom(Source(), fs, i + 1, State(), filled, kept, entered, last)
        else whole == D.Outcome(ok, State(), filled)
      decreases fs, 3
    {
      hide IsDefined;
      hide D.IsLater, D.DecodeOne, D.Pending, Store, D.Enter, D.Define, D.Fail, D.MarkGroup;
      hide Pow2, Valid, Source, State;
      var f := fs[i];
      ok, filled, kept, entered := true, info, choices, group;
      if f.Offset? {
        var position := Tell();
        if position != f.offset {
          Lose(true);
          return false, false, info, choices, group;
        }
      } else if f.Group? {
        var marked := D.MarkGroup(group, filled);
        if marked.None? {
          Lose(true);
          return false, false, info, choices, group;
        }
        filled := marked.value;
        var done := IsDone();
        if done {
          Stop();
          return false, true, filled, choices, group;
        }
        entered := f.present;
        Enter(f.since);
      } else if !f.Preset? && IsDefined(f, version) {
        ok, filled, kept := DecodeOne(f, filled, choices, last && i + 1 == |fs|);
        if !ok {
          Lose(D.Pending(fs, i));
          ok := Fail(filled);
          return false, ok, filled, kept, group;
        }
        Define(DefinedFrom(f));
      }
      going := true;
    }

    /** Ranges of bits of a later version than the groups raise the level in the end. */
    method RaiseLevel()
      modifies entity`level
      ensures State() == old(State()).(level := Max(old(State()).level, old(State()).defined))
    {
      if defined > entity.level {
        entity.level := defined;
      }
    }
  }
}

/**
 What encoding a list of fields writes: the specification of the encoding half
 of the engine (libopendmi/src/field-encode.c, libopendmi/src/encoder.c).
 */
module Encoding {
  import opened Wrappers
  import opened Bytes
  import opened BitRuns
  import opened Schema

  /**
   What a structure is written from besides its members: the mode, the data it
   has been decoded from with the window over it, the version deciding about
   ranges of bits and groups, and the strings of the structure as stored.
   */
  datatype Target = Target(preserve: bool, body: seq<Byte>, end: nat, version: Version,
                           strings: seq<Option<seq<Byte>>>) {
    predicate Valid() {
      end <= |body|
    }
  }

  /**
   State of a structure being encoded: bytes written, position in the source,
   bits gathered, and the string set built so far.
   */
  datatype Writing = Writing(
    out: seq<Byte>,
    pos: nat,
    bits: seq<bool>,
    taken: nat,
    stopped: bool,
    strings: seq<Option<seq<Byte>>>)

  type Wrote = Option<(Writing, seq<Choice>)>

  /** Source left to read; the canonical mode has none. */
  function Remaining(t: Target, w: Writing): nat {
    if t.preserve && w.pos < t.end then t.end - w.pos else 0
  }

  /** Source goes in step with what is written, for as long as it lasts. */
  function Put(t: Target, w: Writing, data: seq<Byte>): Writing {
    w.(out := w.out + data, pos := w.pos + Min(|data|, Remaining(t, w)))
  }

  function Ahead(t: Target, w: Writing, n: nat): (r: seq<Byte>)
    requires t.Valid() && n <= Remaining(t, w)
    ensures |r| == n
  {
    if n == 0 then [] else t.body[w.pos..w.pos + n]
  }

  /** Bytes the model does not hold: those of the source, then zeros. */
  function Reserved(t: Target, w: Writing, n: nat): (r: seq<Byte>)
    requires t.Valid()
    ensures |r| == n
  {
    var kept := Min(n, Remaining(t, w));
    Ahead(t, w, kept) + Zeros(n - kept)
  }

  function Copy(t: Target, w: Writing, n: nat): Writing
    requires t.Valid()
  {
    Put(t, w, Reserved(t, w, n))
  }

  function PutRaw(t: Target, w: Writing, width: nat, raw: nat): Option<Writing> {
    if width == 0 || width > 8 then None else Some(Put(t, w, LeStore(raw, width)))
  }

  function PeekRaw(t: Target, w: Writing, width: nat): Option<nat>
    requires t.Valid()
  {
    if !t.preserve || width > 8 || width > Remaining(t, w) then None else Some(LeLoad(Ahead(t, w, width)))
  }

  // Bits

  /** Bytes of a unit are written as they fill up. */
  function Flush(t: Target, w: Writing): (r: Writing)
    decreases |w.bits|
  {
    if |w.bits| < 8 then w
    else
      EightBitsAreAByte(w.bits[..8]);
      Flush(t, Put(t, w.(bits := w.bits[8..]), [FromBits(w.bits[..8])]))
  }

  const BITS_MAX: nat := 56

  function PutBits(t: Target, w: Writing, raw: nat, count: nat): Option<Writing> {
    if count == 0 || count > BITS_MAX then None
    else Some(Flush(t, w.(bits := w.bits + ToBits(raw, count), taken := w.taken + count)))
  }

  /** Bits the source holds at the position of the next range, zero past its end. */
  function SourceBits(t: Target, w: Writing, count: nat): nat
    requires t.Valid()
  {
    var length := (|w.bits| + count + 7) / 8;
    if length > 8 || length > Remaining(t, w) then 0
    else Low(Shr(LeLoad(Ahead(t, w, length)), |w.bits|), count)
  }

  // Strings

  function FindString(strings: seq<Option<seq<Byte>>>, text: seq<Byte>, i: nat): (r: Option<nat>)
    ensures r.Some? ==> i <= r.value < |strings| && strings[r.value] == Some(text)
    ensures r.None? ==> forall j | i <= j < |strings| :: strings[j] != Some(text)
    decreases |strings| - i
  {
    if i >= |strings| then None
    else if strings[i] == Some(text) then Some(i)
    else FindString(strings, text, i + 1)
  }

  /** Number of a string in the set, which shares equal strings in the canonical mode. */
  function AddString(t: Target, strings: seq<Option<seq<Byte>>>, text: seq<Byte>)
    : (r: (seq<Option<seq<Byte>>>, nat))
    ensures 1 <= r.1 <= |r.0| && r.0[r.1 - 1] == Some(text)
    ensures strings <= r.0
  {
    var found := if t.preserve then None else FindString(strings, text, 0);
    if found.Some? then (strings, found.value + 1) else (strings + [Some(text)], |strings| + 1)
  }

  function PutString(t: Target, w: Writing, text: Text): Option<Writing>
    requires !text.NoText?
  {
    var stored := text.Stored? && text.index < |t.strings| && t.strings[text.index].Some?;
    if text.Stored? && !stored then None
    else if stored && t.preserve then
      if text.index + 1 > 255 then None else Some(Put(t, w, [text.index + 1]))
    else
      var raw := if stored then t.strings[text.index].value else text.bytes;
      var (strings, number) := AddString(t, w.strings, raw);
      if number > 255 then None else Some(Put(t, w.(strings := strings), [number]))
  }

  // Values

  /** Data the source carries at the field being written. */
  function SourceData(t: Target, w: Writing, f: Field): Option<Data>
    requires t.Valid()
  {
    if !t.preserve then None
    else
      match f
      case Bits(_, width, _, _, _, _, _) =>
        if Remaining(t, w) < (|w.bits| + width + 7) / 8 then None
        else Some(Data(SourceBits(t, w, width), NoText, []))
      case String(_, _, _) =>
        if Remaining(t, w) < 1 then None
        else
          Some(TextData(t.strings, Ahead(t, w, 1)[0]))
      case Raw(_, Fixed(length), _, _) =>
        if Remaining(t, w) < length then None else Some(Data(0, NoText, Ahead(t, w, length)))
      case _ =>
        var raw := PeekRaw(t, w, Width(f));
        if raw.None? then None else Some(Data(raw.value, NoText, []))
  }

  /**
   Data for the value of a field, and whether it is exact: the data of the
   source if it decodes into the value, and what the specification spells the
   value with otherwise.
   */
  function ValueData(f: Field, info: Info, original: Option<Data>): Option<(Data, bool)> {
    if CodecOf(f).decode.Some? && CodecOf(f).encode.None? then None
    else if original.Some? && DecodesInto(f, original.value, info) then Some((original.value, true))
    else
      match ModelData(f, info)
      case None => None
      case Some(data) => Some((data, DecodesInto(f, data, info) && FitsWidth(f, data)))
  }

  function PutData(t: Target, w: Writing, f: Field, data: Data): Option<Writing>
    requires t.Valid()
  {
    match f
    case String(_, _, _) =>
      if data.number != 0 || data.text.NoText? then Some(Put(t, w, [data.number % 256]))
      else PutString(t, w, data.text)
    case Raw(_, Fixed(length), _, _) =>
      if |data.bytes| == 0 then Some(Copy(t, w, length))
      else if |data.bytes| < length then None
      else Some(Put(t, w, data.bytes[..length]))
    case _ => PutRaw(t, w, Width(f), data.number)
  }

  /** Fields the model holds the whole of. */
  predicate IsFixed(f: Field) {
    f.Uuid? || f.Bcd? || (f.Raw? && !f.extent.Fixed?)
  }

  function EncodeFixed(t: Target, w: Writing, f: Field, info: Info): Option<Writing>
    requires IsFixed(f)
  {
    match f
    case Uuid(m) => Some(Put(t, w, SwapUuid(UuidAt(info, m.id))))
    case Raw(m, _, _, _) => Some(Put(t, w, BinaryAt(info, m.id)))
    case Bcd(m, length, unknown) =>
      var number := Load(info, m);
      if length > 8 then None
      else if unknown != 0 && number == MemberMax(m) then PutRaw(t, w, length, unknown)
      else if number / Pow100(length) != 0 then None
      else if length == 0 then None
      else Some(Put(t, w, BcdSpell(number, length)))
  }

  // Extended fields

  /** Every other member a choice governs fits its plain field; nothing if it cannot be told. */
  function GovernedFit(fs: seq<Field>, at: nat, info: Info, key: Id, i: nat): (r: Option<bool>)
    decreases |fs| - i
  {
    if i >= |fs| then Some(true)
    else if i == at || IsExtended(fs[i]) || !Governs(fs, fs[i], key) then
      GovernedFit(fs, at, info, key, i + 1)
    else
      match ValueData(fs[i], info, None)
      case None => None
      case Some((_, exact)) => if exact then GovernedFit(fs, at, info, key, i + 1) else Some(false)
  }

  /** First extended field of the member of a plain one. */
  function ExtendedOf(fs: seq<Field>, key: Id, i: nat): (r: Option<nat>)
    ensures r.Some? ==> i <= r.value < |fs| && IsExtended(fs[r.value]) && Key(fs[r.value]) == key
    ensures r.None? ==> forall j | i <= j < |fs| :: IsExtended(fs[j]) ==> Key(fs[j]) != key
    decreases |fs| - i
  {
    if i >= |fs| then None
    else if IsExtended(fs[i]) && Key(fs[i]) == key then Some(i)
    else ExtendedOf(fs, key, i + 1)
  }

  function EncodeGoverning(t: Target, w: Writing, fs: seq<Field>, i: nat, info: Info, choices: seq<Choice>,
                           c: nat, original: Option<Data>, data: Data, exact: bool): Wrote
    requires t.Valid() && i < |fs| && c < |choices|
  {
    var choice := choices[c];
    var fits0 := exact && data.number != choice.whenRaw;
    var fits := if fits0 then GovernedFit(fs, i, info, choice.key, 0) else Some(false);
    if fits.None? then None
    else
      var extended := !fits.value || (original.Some? && original.value.number == choice.whenRaw);
      var data' := if extended then data.(number := choice.whenRaw) else data;
      match PutData(t, w, fs[i], data')
      case None => None
      case Some(w') => Some((w', choices[c := choice.(extended := extended)]))
  }

  function EncodePlain(t: Target, w: Writing, fs: seq<Field>, i: nat, choices: seq<Choice>, data: Data): Wrote
    requires t.Valid() && i < |fs|
  {
    var other := ExtendedOf(fs, Key(fs[i]), 0);
    var c := if other.Some? then Find(choices, WhenKey(fs[other.value])) else None;
    var pointed := c.Some? && choices[c.value].extended;
    if pointed && t.preserve then Some((Copy(t, w, Width(fs[i])), choices))
    else
      var data' := if pointed then data.(number := choices[c.value].whenRaw) else data;
      match PutData(t, w, fs[i], data')
      case None => None
      case Some(w') => Some((w', choices))
  }

  /** Scalar fields of a list. */
  function EncodeScalar(t: Target, w: Writing, fs: seq<Field>, i: nat, info: Info, choices: seq<Choice>): Wrote
    requires t.Valid() && i < |fs|
  {
    var f := fs[i];
    if t.preserve && Remaining(t, w) < Width(f) then
      Some((Copy(t, w, Remaining(t, w)).(stopped := true), choices))
    else if IsFixed(f) then
      match EncodeFixed(t, w, f, info)
      case None => None
      case Some(w') => Some((w', choices))
    else
      var original := SourceData(t, w, f);
      var c := Find(choices, WhenKey(f));
      if IsExtended(f) && (c.None? || !choices[c.value].extended) then
        Some((Copy(t, w, Width(f)), choices))
      else
        match ValueData(f, info, original)
        case None => None
        case Some((data, exact)) =>
          if IsExtended(f) then
            match PutData(t, w, f, data)
            case None => None
            case Some(w') => Some((w', choices))
          else if c.Some? then EncodeGoverning(t, w, fs, i, info, choices, c.value, original, data, exact)
          else EncodePlain(t, w, fs, i, choices, data)
  }

  function EncodeBits(t: Target, w: Writing, f: Field, info: Info): Option<Writing>
    requires t.Valid() && f.Bits?
  {
    if f.range.None? then
      PutBits(t, w, if t.preserve then SourceBits(t, w, f.width) else 0, f.width)
    else
      match ValueData(f, info, SourceData(t, w, f))
      case None => None
      case Some((data, _)) => PutBits(t, w, data.number, f.width)
  }

  function EncodePad(t: Target, w: Writing, f: Field): Option<Writing>
    requires t.Valid() && f.Pad?
  {
    var taken := if f.unit == 0 then 0 else w.taken % f.unit;
    if taken == 0 then Some(w.(taken := 0))
    else
      var count := f.unit - taken;
      match PutBits(t, w, if t.preserve then SourceBits(t, w, count) else 0, count)
      case None => None
      case Some(w') => Some(w'.(taken := 0))
  }

  // Lists

  predicate IsAbsent(f: Field, info: Info) {
    f.Group? && f.present.Some? && Load(info, f.present.value) == 0
  }

  /** A group the structure is written up to. */
  predicate Ends(t: Target, w: Writing, f: Field, info: Info)
    requires f.Group?
  {
    IsAbsent(f, info) || (if t.preserve then Remaining(t, w) == 0 else f.since != 0 && f.since > t.version)
  }

  function EncodeList(t: Target, w: Writing, fs: seq<Field>, info: Info): Option<Writing>
    requires t.Valid()
    decreases fs, 4, 0
  {
    EncodeFrom(t, w, fs, 0, info, Collect(fs))
  }

  function EncodeFrom(t: Target, w: Writing, fs: seq<Field>, i: nat, info: Info, choices: seq<Choice>)
    : Option<Writing>
    requires t.Valid()
    decreases fs, 3, |fs| - i
  {
    if i >= |fs| || w.stopped then Some(w)
    else
      var f := fs[i];
      if f.Offset? then
        if |w.out| == f.offset then EncodeFrom(t, w, fs, i + 1, info, choices) else None
      else if f.Preset? then EncodeFrom(t, w, fs, i + 1, info, choices)
      else if f.Group? then
        EncodeFrom(t, if Ends(t, w, f, info) then w.(stopped := true) else w, fs, i + 1, info, choices)
      else if !IsDefined(f, t.version) then EncodeFrom(t, w, fs, i + 1, info, choices)
      else
        match EncodeOne(t, w, fs, i, info, choices)
        case None => None
        case Some((w', choices')) => EncodeFrom(t, w', fs, i + 1, info, choices')
  }

  function EncodeOne(t: Target, w: Writing, fs: seq<Field>, i: nat, info: Info, choices: seq<Choice>): Wrote
    requires t.Valid() && i < |fs|
    decreases fs, 2, 0
  {
    match fs[i]
    case Bits(_, _, _, _, _, _, _) => Keep(EncodeBits(t, w, fs[i], info), choices)
    case Pad(_) => Keep(EncodePad(t, w, fs[i]), choices)
    case Array(_, _, _, _, _, _, _, _, _) => Keep(EncodeArray(t, w, fs[i], info), choices)
    case Vector(m, _, _) => Keep(EncodeVector(t, w, fs[i], 0, RecordsAt(info, m.id)), choices)
    case Struct(m, fields) => Keep(EncodeList(t, w, fields, RecordAt(info, m.id)), choices)
    case Skip(length) => Some((Copy(t, w, length), choices))
    case _ => EncodeScalar(t, w, fs, i, info, choices)
  }

  function Keep(w: Option<Writing>, choices: seq<Choice>): Wrote {
    if w.None? then None else Some((w.value, choices))
  }

  function EncodeVector(t: Target, w: Writing, f: Field, i: nat, elements: seq<Info>): Option<Writing>
    requires t.Valid() && f.Vector?
    decreases f, 1, f.count - i
  {
    if i >= f.count then Some(w)
    else
      match EncodeList(t, w, f.fields, ElementAt(elements, i))
      case None => None
      case Some(w') => EncodeVector(t, w', f, i + 1, elements)
  }

  // Arrays

  datatype Header = Header(w: Writing, count: nat, stride: nat)

  /** Bytes a list of fields of fixed widths occupies, zero if the data decides it. */
  function FieldsSize(fs: seq<Field>): nat
    decreases fs, 1, 0
  {
    SizeFrom(fs, 0, 0, 0)
  }

  /** Whole units the ranges of a run fill. */
  function UnitBytes(bits: nat, unit: nat): nat {
    if unit == 0 then 0 else (bits + unit - 1) / unit * (unit / 8)
  }

  function SizeFrom(fs: seq<Field>, i: nat, size: nat, bits: nat): nat
    decreases fs, 0, |fs| - i
  {
    if i >= |fs| then size
    else
      match fs[i]
      case Group(_, _) => SizeFrom(fs, i + 1, size, bits)
      case Offset(_) => SizeFrom(fs, i + 1, size, bits)
      case Preset(_, _) => SizeFrom(fs, i + 1, size, bits)
      case Bits(_, width, _, _, _, _, _) => SizeFrom(fs, i + 1, size, bits + width)
      case Pad(unit) => SizeFrom(fs, i + 1, size + UnitBytes(bits, unit), 0)
      case Skip(length) => SizeFrom(fs, i + 1, size + length, bits)
      case Struct(_, fields) =>
        var nested := FieldsSize(fields);
        if nested == 0 then 0 else SizeFrom(fs, i + 1, size + nested, bits)
      case Vector(_, count, fields) =>
        var nested := FieldsSize(fields);
        if nested == 0 then 0 else SizeFrom(fs, i + 1, size + nested * count, bits)
      case _ =>
        if Width(fs[i]) == 0 then 0 else SizeFrom(fs, i + 1, size + Width(fs[i]), bits)
  }

  function EncodeHeader(t: Target, w: Writing, f: Field, info: Info, counter: nat): Option<Header>
    requires t.Valid() && f.Array?
  {
    var original := PeekRaw(t, w, f.countLength);
    var count :=
      if f.countLength == 0 then counter
      else if f.countMember.Some? then Load(info, f.countMember.value)
      else if original.Some? && original.value > counter then original.value
      else counter;
    var counted := if f.countLength == 0 then Some(w) else PutRaw(t, w, f.countLength, count);
    if counted.None? then None
    else if f.strideLength == 0 then Some(Header(counted.value, count, f.stride))
    else
      var peeked := PeekRaw(t, counted.value, f.strideLength);
      var length :=
        if f.strideMember.Some? then Load(info, f.strideMember.value)
        else if peeked.Some? then peeked.value
        else FieldsSize(f.fields);
      match PutRaw(t, counted.value, f.strideLength, length)
      case None => None
      case Some(w') => Some(Header(w', count, length))
  }

  /** Bytes of the elements of no use, as many of them as there are. */
  function SkipLength(remaining: nat, count: nat, stride: nat): nat {
    if stride != 0 && count > remaining / stride then remaining else count * stride
  }

  function EncodeArray(t: Target, w: Writing, f: Field, info: Info): Option<Writing>
    requires t.Valid() && f.Array?
    decreases f, 2, 0
  {
    var counter := Load(info, f.counter);
    if t.preserve && Remaining(t, w) < f.countLength + f.strideLength then
      Some(Copy(t, w, Remaining(t, w)).(stopped := true))
    else
      match EncodeHeader(t, w, f, info, counter)
      case None => None
      case Some(h) =>
        if IsSkipped(f, h.stride) then
          Some(Copy(t, h.w, SkipLength(Remaining(t, h.w), h.count, h.stride)))
        else EncodeElements(t, h.w, f, h.stride, RecordsAt(info, f.member.id), counter, 0)
  }

  function EncodeElements(t: Target, w: Writing, f: Field, stride: nat, elements: seq<Info>,
                          counter: nat, i: nat): Option<Writing>
    requires t.Valid() && f.Array?
    decreases f, 1, counter - i
  {
    if i >= counter || w.stopped then Some(w)
    else
      match EncodeElement(t, w, f, ElementAt(elements, i), stride)
      case None => None
      case Some(w') => EncodeElements(t, w', f, stride, elements, counter, i + 1)
  }

  function EncodeElement(t: Target, w: Writing, f: Field, element: Info, stride: nat): Option<Writing>
    requires t.Valid() && f.Array?
    decreases f, 0, 0
  {
    match EncodeList(t, w, f.fields, element)
    case None => None
    case Some(w') =>
      if w'.stopped || |w'.out| < |w.out| then Some(w')
      else
        var written := |w'.out| - |w.out|;
        Some(if stride > written then Copy(t, w', stride - written) else w')
  }
}

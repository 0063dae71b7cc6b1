/**
 What decoding a list of fields reads from the data: the specification of the
 decoding half of the engine (libopendmi/src/field-decode.c).
 */
module Decoding {
  import opened Wrappers
  import opened Bytes
  import opened BitRuns
  import opened Schema

  /**
   Data of a structure, as far as the window over it reaches, the version its
   table declares, and its strings as stored.
   */
  datatype Source = Source(body: seq<Byte>, end: nat, version: Version,
                           strings: seq<Option<seq<Byte>>>, part: bool) {
    predicate Valid() {
      end <= |body|
    }
  }

  /**
   State of a structure being decoded. `short` is set wherever the engine takes
   the data for incomplete, and `partial` where it stops at a group.

   `lost` and `misspelt` are not kept by the engine. The first is set where what
   has been read cannot be told from the members any more: the data has ended
   inside a run of bits, a skip, a binary of a counted length or an array with
   fields after it, a handler has rejected a value, a boundary is not where it
   is declared, an element is shorter than its fields, or binary-coded decimals
   are not digits, which the second one tells of.
   */
  datatype Reading = Reading(
    pos: nat,
    bits: seq<bool>,
    taken: nat,
    optional: bool,
    incomplete: bool,
    short: bool,
    partial: bool,
    level: Version,
    defined: Version,
    misspelt: bool,
    lost: bool)

  /** Outcome of a list of fields. */
  datatype Outcome = Outcome(ok: bool, st: Reading, info: Info)

  /** Outcome of a single field of a list. */
  datatype Step = Step(ok: bool, st: Reading, info: Info, choices: seq<Choice>)

  /** Data fetched for a scalar field. */
  datatype Fetched = Fetched(ok: bool, st: Reading, data: Data)

  /** Outcome of a scalar field: `raw` is the number kept for its choice, if it was reached. */
  datatype Scalar = Scalar(ok: bool, st: Reading, info: Info, raw: Option<nat>)

  const NO_DATA := Data(0, NoText, [])

  function Remaining(src: Source, st: Reading): nat {
    if st.pos < src.end then src.end - st.pos else 0
  }

  /** Reading only goes forward, and what has been noticed stays so. */
  predicate IsLater(src: Source, st: Reading, st': Reading) {
    && (st.lost ==> st'.lost) && (st.short ==> st'.short) && (st.misspelt ==> st'.misspelt)
    && (st.pos <= src.end ==> st.pos <= st'.pos <= src.end)
  }

  /** No bits have been taken. */
  predicate IsSameRun(st: Reading, st': Reading) {
    st'.bits == st.bits && st'.taken == st.taken
  }

  /** Bytes at the position, as many as asked for. */
  function Ahead(src: Source, st: Reading, n: nat): (r: seq<Byte>)
    requires src.Valid() && n <= Remaining(src, st)
    ensures |r| == n
  {
    if n == 0 then [] else src.body[st.pos..st.pos + n]
  }

  function Lose(st: Reading): Reading {
    st.(lost := true)
  }

  function LoseIf(st: Reading, lost: bool): Reading {
    st.(lost := st.lost || lost)
  }

  function Misspell(st: Reading, misspelt: bool): Reading {
    st.(lost := st.lost || misspelt, misspelt := st.misspelt || misspelt)
  }

  // Numbers

  function ReadNumber(src: Source, st: Reading, length: nat): (r: (bool, Reading, nat))
    requires src.Valid()
    ensures IsLater(src, st, r.1)
    ensures IsSameRun(st, r.1)
  {
    if length == 0 || length > 8 then (false, Lose(st), 0)
    else if length > Remaining(src, st) then (false, st, 0)
    else (true, st.(pos := st.pos + length), LeLoad(Ahead(src, st, length)))
  }

  /** Widest range of bits the accumulator has room for, with a byte to spare. */
  const BITS_MAX: nat := 56

  /** Ranges of bits are taken from the bytes as they are needed. */
  function TakeBits(src: Source, st: Reading, count: nat): (r: (bool, Reading, seq<bool>))
    requires src.Valid()
    ensures if r.0 then |r.2| == count else r.1.lost
    ensures IsLater(src, st, r.1)
    decreases if |st.bits| < count then count - |st.bits| else 0
  {
    if count == 0 || count > BITS_MAX then (false, Lose(st), [])
    else if |st.bits| >= count then
      (true, st.(bits := st.bits[count..], taken := st.taken + count), st.bits[..count])
    else if st.pos < src.end then
      TakeBits(src, st.(pos := st.pos + 1, bits := st.bits + ByteBits(src.body[st.pos])), count)
    else (false, Lose(st), [])
  }

  // Scalar fields

  function RawLength(src: Source, f: Field, st: Reading, info: Info): nat
    requires f.Raw?
  {
    match f.extent
    case Fixed(length) => length
    case Rest => Remaining(src, st)
    case Counted(m) => Load(info, m)
  }

  function FetchNumber(src: Source, length: nat, st: Reading): (r: Fetched)
    requires src.Valid()
    ensures IsLater(src, st, r.st) && IsSameRun(st, r.st)
  {
    var (ok, st', n) := ReadNumber(src, st, length);
    Fetched(ok, st', Data(n, NoText, []))
  }

  function FetchText(src: Source, st: Reading): (r: Fetched)
    requires src.Valid()
    ensures IsLater(src, st, r.st) && IsSameRun(st, r.st)
  {
    if Remaining(src, st) < 1 then Fetched(false, st, NO_DATA)
    else
      var n := src.body[st.pos];
      Fetched(true, st.(pos := st.pos + 1), TextData(src.strings, n))
  }

  function FetchBcd(src: Source, length: nat, unknown: nat, st: Reading): (r: Fetched)
    requires src.Valid()
    ensures IsLater(src, st, r.st) && IsSameRun(st, r.st)
  {
    var (ok, st', n) := ReadNumber(src, st, length);
    if !ok then Fetched(false, st', NO_DATA)
    else if unknown != 0 && n == unknown then Fetched(true, st', Data(n, NoText, []))
    else
      var bytes := LeStore(n, length);
      Fetched(true, Misspell(st', !AreDigits(bytes)), Data(BcdValue(bytes), NoText, []))
  }

  function FetchRaw(src: Source, length: nat, st: Reading): (r: Fetched)
    requires src.Valid()
    ensures IsLater(src, st, r.st) && IsSameRun(st, r.st)
  {
    if length > Remaining(src, st) then Fetched(false, st, NO_DATA)
    else Fetched(true, st.(pos := st.pos + length), Data(0, NoText, Ahead(src, st, length)))
  }

  function Fetch(src: Source, f: Field, st: Reading, info: Info): (r: Fetched)
    requires src.Valid()
    ensures IsLater(src, st, r.st) && IsSameRun(st, r.st)
  {
    match f
    case Integer(_, length, _, _, _, _, _, _) => FetchNumber(src, length, st)
    case String(_, _, _) => FetchText(src, st)
    case Bcd(_, length, unknown) => FetchBcd(src, length, unknown, st)
    case Raw(_, _, _, _) => FetchRaw(src, RawLength(src, f, st, info), st)
    case _ => Fetched(false, Lose(st), NO_DATA)
  }

  function StepOver(src: Source, f: Field, st: Reading, info: Info): (r: Scalar)
    requires src.Valid() && f.Skip?
    ensures IsLater(src, st, r.st) && IsSameRun(st, r.st)
  {
    if f.length <= Remaining(src, st) then Scalar(true, st.(pos := st.pos + f.length), info, None)
    else Scalar(false, Lose(st), info, None)
  }

  function DecodeUuid(src: Source, f: Field, st: Reading, info: Info): (r: Scalar)
    requires src.Valid() && f.Uuid?
    ensures IsLater(src, st, r.st) && IsSameRun(st, r.st)
  {
    if 16 <= Remaining(src, st) then
      Scalar(true, st.(pos := st.pos + 16), info[f.member.id := Unique(SwapUuid(Ahead(src, st, 16)))], None)
    else Scalar(false, st, info, None)
  }

  /** Bytes another member counts more of than there are: those which are there are kept. */
  function DecodeCut(src: Source, f: Field, st: Reading, info: Info): (r: Scalar)
    requires src.Valid() && f.Raw? && f.extent.Counted?
    ensures IsLater(src, st, r.st) && IsSameRun(st, r.st)
  {
    var bytes := Ahead(src, st, Remaining(src, st));
    var writes := Apply(f, Data(0, NoText, bytes));
    var info' := if writes.Some? then info + writes.value else info;
    Scalar(false, Lose(st.(pos := st.pos + |bytes|, incomplete := true)),
           info'[f.extent.counted.id := Number(|bytes|)], None)
  }

  predicate IsCut(src: Source, f: Field, st: Reading, info: Info) {
    f.Raw? && f.extent.Counted? && RawLength(src, f, st, info) > Remaining(src, st)
  }

  /** Value of a scalar field, stored into its members unless it is an extended one. */
  function DecodeValue(src: Source, f: Field, st: Reading, info: Info, store: bool): (r: Scalar)
    requires src.Valid()
    ensures IsLater(src, st, r.st) && IsSameRun(st, r.st)
  {
    if f.Skip? then StepOver(src, f, st, info)
    else if f.Uuid? then DecodeUuid(src, f, st, info)
    else if IsCut(src, f, st, info) then DecodeCut(src, f, st, info)
    else DecodeFetched(f, Fetch(src, f, st, info), info, store)
  }

  function DecodeFetched(f: Field, got: Fetched, info: Info, store: bool): (r: Scalar) {
    if !got.ok then Scalar(false, got.st, info, None)
    else if !store then Scalar(true, got.st, info, Some(got.data.number))
    else
      match Apply(f, got.data)
      case None => Scalar(false, Lose(got.st), info, Some(got.data.number))
      case Some(writes) => Scalar(true, got.st, info + writes, Some(got.data.number))
  }

  /** An extended field replaces the value only when the plain one points at it. */
  function DecodeExtended(src: Source, f: Field, st: Reading, info: Info, choices: seq<Choice>): (r: Step)
    requires src.Valid() && IsExtended(f)
    ensures IsLater(src, st, r.st)
    ensures IsSameRun(st, r.st)
  {
    var got := DecodeValue(src, f, st, info, false);
    var kept := Find(choices, WhenKey(f));
    if !got.ok || got.raw.None? then Step(false, got.st, info, choices)
    else if kept.None? || choices[kept.value].raw != f.whenRaw then Step(true, got.st, info, choices)
    else
      match Apply(f, Data(got.raw.value, NoText, []))
      case None => Step(false, Lose(got.st), info, choices)
      case Some(writes) => Step(true, got.st, info + writes, choices)
  }

  function DecodePlain(src: Source, f: Field, st: Reading, info: Info, choices: seq<Choice>): (r: Step)
    requires src.Valid()
    ensures IsLater(src, st, r.st)
    ensures IsSameRun(st, r.st)
  {
    var got := DecodeValue(src, f, st, info, true);
    var kept := Find(choices, WhenKey(f));
    var choices' :=
      if kept.Some? && got.raw.Some? then choices[kept.value := choices[kept.value].(raw := got.raw.value)]
      else choices;
    Step(got.ok, got.st, got.info, choices')
  }

  function DecodeBits(src: Source, f: Field, st: Reading, info: Info): (r: Outcome)
    requires src.Valid() && f.Bits?
    ensures IsLater(src, st, r.st)
  {
    var (ok, st', bits) := TakeBits(src, st, f.width);
    if !ok then Outcome(false, st', info)
    else
      match Apply(f, Data(FromBits(bits), NoText, []))
      case None => Outcome(false, Lose(st'), info)
      case Some(writes) => Outcome(true, st', info + writes)
  }

  function DecodePad(src: Source, f: Field, st: Reading, info: Info): (r: Outcome)
    requires src.Valid() && f.Pad?
    ensures IsLater(src, st, r.st)
  {
    var taken := if f.unit == 0 then 0 else st.taken % f.unit;
    if taken == 0 then Outcome(true, st.(taken := 0), info)
    else
      var (ok, st', _) := TakeBits(src, st, f.unit - taken);
      Outcome(ok, if ok then st'.(taken := 0) else st', info)
  }

  // Groups

  /** Fields of a group which have all been read mark it as present. */
  function MarkGroup(group: Option<Member>, info: Info): Option<Info> {
    if group.None? then Some(info)
    else
      var writes := Store(group.value, 1);
      if writes.Some? then Some(info + writes.value) else None
  }

  /**
   A plain field which has not been read, while the one governing its extended
   field has: what the governing one is written as depends on it.
   */
  predicate Pending(fs: seq<Field>, i: nat) {
    exists j, k | 0 <= j < |fs| && 0 <= k < i && k < |fs| ::
      i <= j && !IsExtended(fs[j]) && !IsExtended(fs[k]) && Governs(fs, fs[j], Key(fs[k]))
  }

  // Lists

  function DecodeList(src: Source, fs: seq<Field>, st: Reading, info: Info, last: bool): (r: Outcome)
    requires src.Valid()
    ensures IsLater(src, st, r.st)
    decreases fs, 4, 0
  {
    DecodeFrom(src, fs, 0, st, PresetsFrom(fs, 0, info), Collect(fs), None, last)
  }

  /** Fields from the one at an index on; `last` tells that nothing follows the list. */
  function DecodeFrom(src: Source, fs: seq<Field>, i: nat, st: Reading, info: Info,
                      choices: seq<Choice>, group: Option<Member>, last: bool): (r: Outcome)
    requires src.Valid()
    ensures IsLater(src, st, r.st)
    decreases fs, 3, |fs| - i
  {
    hide Pending, MarkGroup, IsDefined, DefinedFrom;
    if i >= |fs| then Ended(st, info, group)
    else
      var f := fs[i];
      if f.Offset? then
        if st.pos == f.offset then DecodeFrom(src, fs, i + 1, st, info, choices, group, last)
        else Outcome(false, Lose(st), info)
      else if f.Preset? then
        DecodeFrom(src, fs, i + 1, st, info, choices, group, last)
      else if f.Group? then
        var marked := MarkGroup(group, info);
        if marked.None? then Outcome(false, Lose(st), info)
        else if st.pos >= src.end then
          Outcome(true, st.(partial := st.partial || !src.part), marked.value)
        else
          DecodeFrom(src, fs, i + 1, Enter(st, f.since), marked.value, choices, f.present, last)
      else if !IsDefined(f, src.version) then
        DecodeFrom(src, fs, i + 1, st, info, choices, group, last)
      else
        var one := DecodeOne(src, f, st, info, choices, last && i + 1 == |fs|);
        if one.ok then
          DecodeFrom(src, fs, i + 1, Define(one.st, DefinedFrom(f)), one.info, one.choices, group, last)
        else Fail(LoseIf(one.st, Pending(fs, i)), one.info)
  }

  /** All the fields of a list have been read. */
  function Ended(st: Reading, info: Info, group: Option<Member>): (r: Outcome) {
    var marked := MarkGroup(group, info);
    if marked.Some? then Outcome(true, st, marked.value) else Outcome(false, Lose(st), info)
  }

  /** A group the data goes into: what follows may be missing. */
  function Enter(st: Reading, since: Version): (r: Reading) {
    st.(level := if since != 0 then since else st.level, optional := true)
  }

  function Define(st: Reading, from: Version): (r: Reading) {
    st.(defined := Max(st.defined, from))
  }

  /** A field which has not been read ends the list, and fails it unless it may be missing. */
  function Fail(st: Reading, info: Info): (r: Outcome) {
    if st.optional || st.incomplete then Outcome(true, st.(short := true), info) else Outcome(false, st, info)
  }

  function DecodeOne(src: Source, f: Field, st: Reading, info: Info,
                     choices: seq<Choice>, atEnd: bool): (r: Step)
    requires src.Valid()
    ensures IsLater(src, st, r.st)
    decreases f, 3, 0
  {
    if f.Bits? then
      var r := DecodeBits(src, f, st, info);
      Step(r.ok, r.st, r.info, choices)
    else if f.Pad? then
      var r := DecodePad(src, f, st, info);
      Step(r.ok, r.st, r.info, choices)
    else if f.Array? then
      var r := DecodeArray(src, f, st, info, atEnd);
      Step(r.ok, r.st, r.info, choices)
    else if f.Vector? then
      var (ok, st', elements) := DecodeVector(src, f, 0, st, RecordsAt(info, f.member.id));
      Step(ok, st', info[f.member.id := Records(elements)], choices)
    else if f.Struct? then
      var r := DecodeNested(src, f.fields, st, RecordAt(info, f.member.id));
      Step(r.ok, r.st, info[f.member.id := Record(r.info)], choices)
    else if IsExtended(f) then DecodeExtended(src, f, st, info, choices)
    else DecodePlain(src, f, st, info, choices)
  }

  /** The groups of the enclosing list say nothing about a nested one. */
  function DecodeNested(src: Source, fs: seq<Field>, st: Reading, info: Info): (r: Outcome)
    requires src.Valid()
    ensures IsLater(src, st, r.st)
    decreases fs, 5, 0
  {
    var r := DecodeList(src, fs, st.(optional := false), info, false);
    r.(st := r.st.(optional := st.optional))
  }

  function DecodeVector(src: Source, f: Field, i: nat, st: Reading, elements: seq<Info>)
    : (r: (bool, Reading, seq<Info>))
    requires src.Valid() && f.Vector?
    ensures IsLater(src, st, r.1)
    ensures forall j | 0 <= j < i :: ElementAt(r.2, j) == ElementAt(elements, j)
    decreases f, 1, f.count - i
  {
    if i >= f.count then (true, st, elements)
    else
      var r := DecodeNested(src, f.fields, st, ElementAt(elements, i));
      var elements' := PutElement(elements, i, r.info);
      if r.ok then DecodeVector(src, f, i + 1, r.st, elements') else (false, r.st, elements')
  }

  /** Elements of a vector are held in place, zeroed until they are set. */
  function PutElement(elements: seq<Info>, i: nat, e: Info): (r: seq<Info>)
    ensures i < |r| && r[i] == e
    ensures |r| == Max(|elements|, i + 1)
    ensures forall j | 0 <= j < |r| && j != i :: r[j] == ElementAt(elements, j)
  {
    if i < |elements| then elements[i := e]
    else elements + seq(i - |elements|, _ => map[]) + [e]
  }

  // Arrays

  datatype Header = Header(ok: bool, st: Reading, info: Info, count: nat, stride: nat, leftover: nat)

  function StoreOptional(m: Option<Member>, info: Info, n: nat): Option<Info> {
    if m.None? then Some(info)
    else
      var writes := Store(m.value, n);
      if writes.Some? then Some(info + writes.value) else None
  }

  datatype Numbers = Numbers(ok: bool, st: Reading, count: nat, stride: nat, leftover: nat)

  /** How many elements an array has, and how long they are. */
  function ReadNumbers(src: Source, f: Field, st: Reading): (r: Numbers)
    requires src.Valid() && f.Array?
    ensures IsLater(src, st, r.st) && IsSameRun(st, r.st)
  {
    if f.countLength == 0 then
      if f.stride == 0 then Numbers(false, Lose(st), 0, 0, 0)
      else ReadStride(src, f, st, Remaining(src, st) / f.stride, Remaining(src, st) % f.stride)
    else
      var (ok, st', count) := ReadNumber(src, st, f.countLength);
      if ok then ReadStride(src, f, st', count, 0) else Numbers(false, st', 0, 0, 0)
  }

  function ReadStride(src: Source, f: Field, st: Reading, count: nat, leftover: nat): (r: Numbers)
    requires src.Valid() && f.Array?
    ensures IsLater(src, st, r.st) && IsSameRun(st, r.st)
  {
    if f.strideLength == 0 then Numbers(true, st, count, f.stride, leftover)
    else
      var (ok, st', stride) := ReadNumber(src, st, f.strideLength);
      if ok then Numbers(true, st', count, stride, leftover) else Numbers(false, st', 0, 0, 0)
  }

  /** Numbers an array begins with, kept in the members declared for them. */
  function DecodeHeader(src: Source, f: Field, st: Reading, info: Info): (r: Header)
    requires src.Valid() && f.Array?
    ensures IsLater(src, st, r.st)
    ensures IsSameRun(st, r.st)
  {
    var n := ReadNumbers(src, f, st);
    if !n.ok then Header(false, n.st, info, 0, 0, 0)
    else
      var counted := StoreOptional(f.countMember, info, n.count);
      if counted.None? then Header(false, Lose(n.st), info, 0, 0, 0)
      else
        var strided := StoreOptional(f.strideMember, counted.value, n.stride);
        if strided.None? then Header(false, Lose(n.st), counted.value, 0, 0, 0)
        else Header(true, n.st, strided.value, n.count, n.stride, n.leftover)
  }

  function StepOverElements(src: Source, st: Reading, length: nat): (r: Reading)
    requires src.Valid()
    ensures IsLater(src, st, r)
  {
    st.(pos := st.pos + Min(length, Remaining(src, st)))
  }

  function DecodeArray(src: Source, f: Field, st: Reading, info: Info, atEnd: bool): (r: Outcome)
    requires src.Valid() && f.Array?
    ensures IsLater(src, st, r.st)
    decreases f, 2, 0
  {
    var h := DecodeHeader(src, f, st, info);
    if !h.ok then Outcome(false, h.st, h.info)
    else
      var info0 := h.info[f.counter.id := Number(0)];
      var short := h.st.(short := h.st.short || h.leftover != 0);
      if h.count == 0 then Outcome(true, short, info0)
      else if IsSkipped(f, h.stride) then
        Outcome(true, StepOverElements(src, h.st, h.count * h.stride % WORD_LIMIT), info0)
      else
        var (ok, st', elements) := DecodeElements(src, f, h.stride, h.count, h.st, [], atEnd);
        var info' := info0[f.member.id := Records(elements)][f.counter.id := Number(|elements|)];
        Outcome(ok, if ok then st'.(short := st'.short || h.leftover != 0) else st', info')
  }

  /** Elements the data holds completely. */
  function DecodeElements(src: Source, f: Field, stride: nat, count: nat, st: Reading,
                          elements: seq<Info>, atEnd: bool): (r: (bool, Reading, seq<Info>))
    requires src.Valid() && f.Array?
    ensures IsLater(src, st, r.1)
    ensures elements <= r.2 && |r.2| <= |elements| + count
    decreases f, 1, count
  {
    if count == 0 then (true, st, elements)
    else
      var one := DecodeElement(src, f, stride, st);
      if one.ok then DecodeElements(src, f, stride, count - 1, one.st, elements + [one.info], atEnd)
      else (false, one.st.(lost := st.lost || !atEnd), elements)
  }

  /** An element is there in full or not at all. */
  function DecodeElement(src: Source, f: Field, stride: nat, st: Reading): (r: Outcome)
    requires src.Valid() && f.Array?
    ensures IsLater(src, st, r.st)
    decreases f, 0, 0
  {
    if stride != 0 && stride > Remaining(src, st) then Outcome(false, st.(incomplete := true), map[])
    else
      var r := DecodeNested(src, f.fields, st, map[]);
      if !r.ok then Outcome(false, r.st.(incomplete := r.st.pos >= src.end), map[])
      else if stride != 0 then
        Outcome(true, LoseIf(r.st, r.st.pos > st.pos + stride).(pos := st.pos + stride), r.info)
      else r
  }
}

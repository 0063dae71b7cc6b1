/**
 The field language: how a structure is laid out in the data, and the members
 of the decoded structure the fields are read into
 (libopendmi/include/opendmi/field.h, libopendmi/src/field-internal.h,
 libopendmi/src/field.c).
 */
module Schema {
  import opened Wrappers
  import opened Bytes
  import opened BitRuns

  /** Version of the specification; zero is no version. */
  type Version = nat

  /** A member of the decoded structure is known by its offset. */
  type Id = nat

  datatype Member = Member(id: Id, size: nat)

  /** Text a member points to: none, one of the structure's own strings, or another one. */
  datatype Text = NoText | Stored(index: nat) | Made(bytes: seq<Byte>)

  datatype Value =
    | Number(number: nat)
    | Words(text: Text)
    | Binary(bytes: seq<Byte>)
    | Unique(uuid: seq<Byte>)
    | Record(members: map<Id, Value>)
    | Records(elements: seq<map<Id, Value>>)

  /** The decoded structure. A member which has not been set is zeroed memory. */
  type Info = map<Id, Value>

  /**
   Data a field carries, which handlers deal with. For a string field `text`
   tells which string it is, and `bytes` what it reads.
   */
  datatype Data = Data(number: nat, text: Text, bytes: seq<Byte>)

  /**
   A decoding handler gives the members it sets, which are a function of the
   data alone; an encoding handler gives the data back.
   */
  datatype Codec = Codec(decode: Option<Data -> Option<Info>>, encode: Option<Info -> Option<Data>>)

  const PLAIN := Codec(None, None)

  /** Length of a binary field: its own, the rest of the data, or one a member holds. */
  datatype Extent = Fixed(length: nat) | Rest | Counted(counted: Member)

  /**
   A field of a list. `writes` are the members a field with handlers sets, the
   one member of its own otherwise; a split field has several of them and
   reports offset zero.
   */
  datatype Field =
    | Integer(member: Member, length: nat, writes: set<Id>, codec: Codec, unknown: nat,
              extended: bool, when: Option<Id>, whenRaw: nat)
    | String(member: Member, writes: set<Id>, codec: Codec)
    | Bcd(member: Member, length: nat, unknown: nat)
    | Raw(member: Member, extent: Extent, writes: set<Id>, codec: Codec)
    | Uuid(member: Member)
    | Struct(member: Member, fields: seq<Field>)
    | Vector(member: Member, count: nat, fields: seq<Field>)
    | Array(member: Member, counter: Member, countLength: nat, countMember: Option<Member>,
            stride: nat, strideLength: nat, strideMinimum: nat, strideMember: Option<Member>,
            fields: seq<Field>)
    | Bits(range: Option<Member>, width: nat, from: Version, before: Version,
           writes: set<Id>, codec: Codec, unknown: nat)
    | Pad(unit: nat)
    | Group(since: Version, present: Option<Member>)
    | Offset(offset: nat)
    | Preset(id: Id, value: Value)
    | Skip(length: nat)

  const WORD_LIMIT: nat := 0x1_0000_0000_0000_0000

  /** Offset a field reports as its member's, zero for the fields with none. */
  function Key(f: Field): Id {
    if f.Bits? then (if f.range.Some? then f.range.value.id else 0)
    else if f.Pad? || f.Group? || f.Offset? || f.Skip? then 0
    else if f.Preset? then f.id
    else f.member.id
  }

  predicate IsExtended(f: Field) {
    f.Integer? && f.extended
  }

  /** Offset of the member whose plain field decides about an extended one. */
  function WhenKey(f: Field): Id {
    if f.Integer? && f.when.Some? then f.when.value else Key(f)
  }

  /** Whether a table of the version defines a range of bits. */
  predicate IsDefined(f: Field, version: Version) {
    f.Bits? ==> !(f.from != 0 && version < f.from) && !(f.before != 0 && version >= f.before)
  }

  function DefinedFrom(f: Field): Version {
    if f.Bits? then f.from else 0
  }

  predicate IsSkipped(f: Field, stride: nat)
    requires f.Array?
  {
    f.strideMinimum != 0 && stride < f.strideMinimum
  }

  /** Bytes a field of a fixed width occupies, zero for the others. */
  function Width(f: Field): nat {
    match f
    case Integer(_, length, _, _, _, _, _, _) => length
    case Bcd(_, length, _) => length
    case String(_, _, _) => 1
    case Uuid(_) => 16
    case Raw(_, Fixed(length), _, _) => length
    case _ => 0
  }

  // Members

  predicate IsWordSize(size: nat) {
    size == 1 || size == 2 || size == 4 || size == 8
  }

  /** Zeroed memory, read as a value of the same kind. */
  predicate IsZero(v: Value) {
    match v
    case Number(n) => n == 0
    case Words(t) => t.NoText?
    case Binary(b) => b == []
    case Unique(b) => b == Zeros(16)
    case Record(m) => m == map[]
    case Records(e) => e == []
  }

  /** A member holds a value; one never set holds zero. */
  predicate Holds(info: Info, id: Id, v: Value) {
    if id in info then info[id] == v else IsZero(v)
  }

  predicate HoldsAll(info: Info, writes: Info) {
    forall k | k in writes :: Holds(info, k, writes[k])
  }

  /** A member holds a number. */
  predicate IsNumber(info: Info, m: Member, n: nat) {
    m.id in info && info[m.id] == Number(n)
  }

  function Load(info: Info, m: Member): nat {
    if IsWordSize(m.size) && m.id in info && info[m.id].Number? then info[m.id].number else 0
  }

  function Store(m: Member, raw: nat): Option<Info> {
    if IsWordSize(m.size) then Some(map[m.id := Number(raw % Pow256(m.size))]) else None
  }

  /** Largest value of a member, which stands for "unknown". */
  function MemberMax(m: Member): nat {
    if m.size >= 8 then WORD_LIMIT - 1 else Pow256(m.size) - 1
  }

  function RecordAt(info: Info, id: Id): Info {
    if id in info && info[id].Record? then info[id].members else map[]
  }

  function RecordsAt(info: Info, id: Id): seq<Info> {
    if id in info && info[id].Records? then info[id].elements else []
  }

  function ElementAt(elements: seq<Info>, i: nat): Info {
    if i < |elements| then elements[i] else map[]
  }

  function BinaryAt(info: Info, id: Id): seq<Byte> {
    if id in info && info[id].Binary? then info[id].bytes else []
  }

  function UuidAt(info: Info, id: Id): (uuid: seq<Byte>)
    ensures |uuid| == 16
  {
    if id in info && info[id].Unique? && |info[id].uuid| == 16 then info[id].uuid else Zeros(16)
  }

  function TextAt(info: Info, id: Id): Text {
    if id in info && info[id].Words? then info[id].text else NoText
  }

  // Strings

  /** Characters a string is stripped of at both of its ends. */
  predicate IsSpace(c: Byte) {
    9 <= c <= 13 || c == 32
  }

  function TrimmedLeft(text: seq<Byte>): seq<Byte> {
    if text != [] && IsSpace(text[0]) then TrimmedLeft(text[1..]) else text
  }

  function TrimmedRight(text: seq<Byte>): seq<Byte> {
    if text != [] && IsSpace(text[|text| - 1]) then TrimmedRight(text[..|text| - 1]) else text
  }

  function Trimmed(text: seq<Byte>): seq<Byte> {
    TrimmedRight(TrimmedLeft(text))
  }

  /** A number no string answers to refers to none. */
  function TextOf(strings: seq<Option<seq<Byte>>>, number: nat): (text: Text)
    ensures text.Stored? ==> text.index < |strings| && strings[text.index].Some?
  {
    if 1 <= number <= |strings| && strings[number - 1].Some? then Stored(number - 1) else NoText
  }

  /** Data of a string number: the string it refers to, as it is printed. */
  function TextData(strings: seq<Option<seq<Byte>>>, number: nat): Data {
    var text := TextOf(strings, number);
    Data(number, text, if text.Stored? then Trimmed(strings[text.index].value) else [])
  }

  // Values

  function ApplyNumber(m: Member, codec: Codec, unknown: nat, data: Data): Option<Info> {
    if unknown != 0 && data.number == unknown then Store(m, WORD_LIMIT - 1)
    else if codec.decode.Some? then codec.decode.value(data)
    else Store(m, data.number)
  }

  /** Members the data of a field decodes into, or nothing if a handler rejects it. */
  function Apply(f: Field, data: Data): Option<Info> {
    match f
    case Integer(m, _, _, codec, unknown, _, _, _) => ApplyNumber(m, codec, unknown, data)
    case Bits(range, _, _, _, _, codec, unknown) =>
      if range.None? then Some(map[]) else ApplyNumber(range.value, codec, unknown, data)
    case Bcd(m, _, unknown) => ApplyNumber(m, PLAIN, unknown, data)
    case String(m, _, codec) =>
      if codec.decode.Some? then codec.decode.value(data) else Some(map[m.id := Words(data.text)])
    case Raw(m, _, _, codec) =>
      if codec.decode.Some? then codec.decode.value(data) else Some(map[m.id := Binary(data.bytes)])
    case _ => Some(map[])
  }

  /** Data decodes into the values the members already hold. */
  predicate DecodesInto(f: Field, data: Data, info: Info) {
    var writes := Apply(f, data);
    writes.Some? && HoldsAll(info, writes.value)
  }

  function CodecOf(f: Field): Codec {
    if f.Integer? || f.Bits? || f.String? || f.Raw? then f.codec else PLAIN
  }

  function MemberOf(f: Field): Member {
    if f.Bits? && f.range.Some? then f.range.value
    else if f.Integer? || f.Bcd? || f.String? || f.Raw? then f.member
    else Member(0, 0)
  }

  function UnknownOf(f: Field): nat {
    if f.Integer? || f.Bits? || f.Bcd? then f.unknown else 0
  }

  predicate IsNumeric(f: Field) {
    !f.String? && !f.Raw?
  }

  /** Data the specification spells the value of a field with. */
  function ModelData(f: Field, info: Info): Option<Data> {
    var m := MemberOf(f);
    if IsNumeric(f) && IsWordSize(m.size) && UnknownOf(f) != 0 && Load(info, m) == MemberMax(m) then
      Some(Data(UnknownOf(f), NoText, []))
    else if CodecOf(f).encode.Some? then CodecOf(f).encode.value(info)
    else if f.String? then Some(Data(0, TextAt(info, m.id), []))
    else if f.Raw? then Some(Data(0, NoText, BinaryAt(info, m.id)))
    else Some(Data(Load(info, m), NoText, []))
  }

  /** Data is no wider than its field. */
  predicate FitsWidth(f: Field, data: Data) {
    var bits := if f.Bits? then f.width else 8 * Width(f);
    IsNumeric(f) && 0 < bits < 64 ==> data.number < Pow2(bits)
  }

  // Binary-coded decimal and UUID

  /** Number the digits spell, the least significant byte first. */
  function BcdValue(data: seq<Byte>): nat {
    if data == [] then 0 else data[0] % 16 + 10 * (data[0] / 16) + 100 * BcdValue(data[1..])
  }

  predicate AreDigits(data: seq<Byte>) {
    forall i | 0 <= i < |data| :: data[i] % 16 < 10 && data[i] / 16 < 10
  }

  /** Digits of a number, as the encoder spells them into the bytes of a field. */
  function BcdSpell(number: nat, length: nat): (data: seq<Byte>)
    ensures |data| == length
  {
    if length == 0 then [] else [number % 10 + 16 * (number / 10 % 10)] + BcdSpell(number / 100, length - 1)
  }

  function Pow100(n: nat): (p: nat)
    ensures p > 0
  {
    if n == 0 then 1 else 100 * Pow100(n - 1)
  }

  /** Order of the bytes of a UUID, in the data and in the member alike. */
  function SwapUuid(b: seq<Byte>): (r: seq<Byte>)
    requires |b| == 16
    ensures |r| == 16
  {
    [b[3], b[2], b[1], b[0], b[5], b[4], b[7], b[6]] + b[8..]
  }

  // Extended fields

  /** Members an extended field of the list is keyed on, with what is known of them. */
  datatype Choice = Choice(key: Id, whenRaw: nat, raw: nat, extended: bool)

  const CHOICE_MAX: nat := 8

  function FindFrom(choices: seq<Choice>, key: Id, i: nat): (r: Option<nat>)
    ensures r.Some? ==> i <= r.value < |choices| && choices[r.value].key == key
    ensures r.None? ==> forall j | i <= j < |choices| :: choices[j].key != key
    decreases |choices| - i
  {
    if i >= |choices| then None
    else if choices[i].key == key then Some(i)
    else FindFrom(choices, key, i + 1)
  }

  function Find(choices: seq<Choice>, key: Id): (r: Option<nat>)
    ensures r.Some? ==> r.value < |choices| && choices[r.value].key == key
    ensures r.None? ==> forall j | 0 <= j < |choices| :: choices[j].key != key
  {
    FindFrom(choices, key, 0)
  }

  function CollectFrom(fs: seq<Field>, i: nat, choices: seq<Choice>): seq<Choice>
    decreases |fs| - i
  {
    if i >= |fs| then choices
    else if IsExtended(fs[i]) && Find(choices, WhenKey(fs[i])).None? && |choices| < CHOICE_MAX then
      CollectFrom(fs, i + 1, choices + [Choice(WhenKey(fs[i]), fs[i].whenRaw, 0, false)])
    else CollectFrom(fs, i + 1, choices)
  }

  function Collect(fs: seq<Field>): seq<Choice> {
    CollectFrom(fs, 0, [])
  }

  /** A plain field of a member whose extended field another member governs. */
  predicate Governs(fs: seq<Field>, f: Field, key: Id) {
    Key(f) != key &&
    exists j | 0 <= j < |fs| :: IsExtended(fs[j]) && Key(fs[j]) == Key(f) && WhenKey(fs[j]) == key
  }

  // Presets

  function PresetsFrom(fs: seq<Field>, i: nat, info: Info): Info
    decreases |fs| - i
  {
    if i >= |fs| then info
    else PresetsFrom(fs, i + 1, if fs[i].Preset? then info[fs[i].id := fs[i].value] else info)
  }
}

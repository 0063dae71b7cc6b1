/**
 When the canonical mode writes a structure which is read back as it was: what
 it takes of the fields and of the values, and what it means to be read back.
 */
module Portable {
  import opened Wrappers
  import opened Bytes
  import opened BitRuns
  import opened Schema
  import opened WellFormed
  import opened Scalars
  import D = Decoding
  import E = Encoding

  // The fields

  /** Handlers of a field set all of its members, and carry nothing but what the data holds. */
  ghost predicate AreHandlersPlain(f: Field) {
    && (forall data: Data :: Apply(f, data).Some? ==> Apply(f, data).value.Keys == Writes(f))
    && (forall info: Info :: ModelData(f, info).Some? ==>
          var data := ModelData(f, info).value;
          data.text.NoText? && (if f.Raw? then data.number == 0 else data.bytes == []))
  }

  /**
   Handlers of a string set all of its members by what the text reads, wherever
   it is stored, and spell a text of their own or none.
   */
  ghost predicate AreTextHandlersPlain(f: Field) {
    && (forall data: Data :: Apply(f, data).Some? ==> Apply(f, data).value.Keys == Writes(f))
    && (forall a: Data, b: Data :: a.text.NoText? == b.text.NoText? && a.bytes == b.bytes ==>
      Apply(f, a) == Apply(f, b))
    && (forall info: Info :: ModelData(f, info).Some? ==>
          var data := ModelData(f, info).value;
          && data.number == 0 && !data.text.Stored?
          && data.bytes == (if data.text.Made? then data.text.bytes else []))
  }

  ghost predicate IsTotal(f: Field) {
    forall n: nat :: n < Pow256(Width(f)) ==> Apply(f, Data(n, NoText, [])).Some?
  }

  /** Plain and extended fields of a member set the same members, whatever the plain one holds. */
  ghost predicate ArePairsPortable(fs: seq<Field>) {
    && (forall i, j | 0 <= i < |fs| && 0 <= j < |fs| && IsPair(fs[i], fs[j]) ::
          Writes(fs[i]) == Writes(fs[j]) && IsTotal(fs[i]))
    && (forall i, j | 0 <= i < |fs| && 0 <= j < |fs| && IsExtended(fs[j]) && !IsExtended(fs[i])
                      && Key(fs[i]) == WhenKey(fs[j]) ::
          fs[j].whenRaw < Pow256(Width(fs[i])) && IsTotal(fs[i]) && E.ExtendedOf(fs, Key(fs[i]), 0).Some?)
    && (forall j | 0 <= j < |fs| && IsExtended(fs[j]) :: Find(Collect(fs), WhenKey(fs[j])).Some?)
  }

  /** Members set by the fields before one, apart from those an extended field may set. */
  ghost predicate IsHeldBefore(fs: seq<Field>, i: nat, k: Id, version: Version) {
    exists j :: 0 <= j < i && j < |fs| && IsDefined(fs[j], version) && k in Writes(fs[j])
                && (fs[j].Integer? || fs[j].Bits?) && !IsExtended(fs[j])
                && forall e | 0 <= e < |fs| :: !IsPair(fs[j], fs[e])
  }

  ghost predicate IsFieldPortable(fs: seq<Field>, i: nat, version: Version, top: bool)
    requires i < |fs|
  {
    var f := fs[i];
    match f
    case Integer(_, _, _, _, _, _, _, _) => AreHandlersPlain(f)
    case Bits(_, _, _, _, _, _, _) => AreHandlersPlain(f)
    case String(m, writes, codec) =>
      if codec.decode.None? then codec == PLAIN && writes == {m.id} else AreTextHandlersPlain(f)
    case Bcd(_, length, unknown) =>
      unknown != 0 ==> unknown < Pow256(length) && !AreDigits(LeStore(unknown, length))
    case Raw(_, extent, _, _) =>
      && AreHandlersPlain(f)
      && (extent.Rest? ==> top && i + 1 == |fs|)
      && (extent.Counted? ==> IsHeldBefore(fs, i, extent.counted.id, version))
    case Array(_, _, countLength, _, _, _, _, _, _) => countLength == 0 ==> top && i + 1 == |fs|
    case Group(_, present) => top && (present.Some? ==> IsWordSize(present.value.size))
    case _ => true
  }

  /** Lists whose groups are those of the structure itself, and where only the last field takes the rest. */
  ghost predicate IsPortable(fs: seq<Field>, version: Version, top: bool)
    decreases fs
  {
    && ArePairsPortable(fs)
    && (forall i | 0 <= i < |fs| :: IsFieldPortable(fs, i, version, top))
    && (forall i | 0 <= i < |fs| :: |NestedOf(fs[i])| > 0 ==> IsPortable(NestedOf(fs[i]), version, false))
  }

  // Where a structure ends

  /** A group a version does not have, or the structure does not hold. */
  predicate IsLeftOut(f: Field, info: Info, version: Version)
    requires f.Group?
  {
    E.IsAbsent(f, info) || (f.since != 0 && f.since > version)
  }

  /** A field some data is written for. */
  ghost predicate Carries(f: Field, info: Info, version: Version)
    decreases f, 0
  {
    && IsDefined(f, version)
    && match f
       case Bits(_, _, _, _, _, _, _) => true
       case Skip(length) => length > 0
       case Raw(m, extent, _, _) => if extent.Fixed? then extent.length > 0 else BinaryAt(info, m.id) != []
       case Array(_, counter, countLength, _, _, strideLength, _, _, _) =>
         countLength > 0 || strideLength > 0 || Load(info, counter) > 0
       case Struct(m, fields) => CarriesFrom(fields, 0, RecordAt(info, m.id), version)
       case Vector(m, count, fields) =>
         exists k :: 0 <= k < count && CarriesFrom(fields, 0, ElementAt(RecordsAt(info, m.id), k), version)
       case _ => Width(f) > 0
  }

  /** Some data is written for the fields from one on. */
  ghost predicate CarriesFrom(fs: seq<Field>, i: nat, info: Info, version: Version)
    decreases fs, 1, |fs| - i
  {
    && i < |fs|
    && if fs[i].Group? then !IsLeftOut(fs[i], info, version) && CarriesFrom(fs, i + 1, info, version)
       else Carries(fs[i], info, version) || CarriesFrom(fs, i + 1, info, version)
  }

  /** Fields of the groups up to a version, those behind which there is no data left aside. */
  ghost function EndOf(fs: seq<Field>, i: nat, info: Info, version: Version): (end: nat)
    requires i <= |fs|
    ensures i <= end <= |fs|
    decreases |fs| - i
  {
    if i == |fs| then i
    else if fs[i].Group? && (IsLeftOut(fs[i], info, version) || !CarriesFrom(fs, i + 1, info, version)) then i
    else EndOf(fs, i + 1, info, version)
  }

  // The values

  predicate IsNumberAt(info: Info, k: Id) {
    k in info ==> info[k].Number?
  }

  /** Numbers handlers give are no wider than a word. */
  predicate IsWord(f: Field, info: Info) {
    ModelData(f, info).Some? ==> ModelData(f, info).value.number < WORD_LIMIT
  }

  predicate IsBinaryAt(info: Info, k: Id) {
    k in info ==> info[k].Binary?
  }

  /** Length of an element the encoder writes for. */
  function StrideFor(f: Field, info: Info): nat
    requires f.Array?
  {
    if f.strideLength == 0 then f.stride
    else if f.strideMember.Some? then Load(info, f.strideMember.value)
    else E.FieldsSize(f.fields)
  }

  /** Numbers of an array agree with its elements, and are no wider than the data holds them. */
  predicate AreNumbersTrue(f: Field, info: Info)
    requires f.Array?
  {
    var counter, stride := Load(info, f.counter), StrideFor(f, info);
    && (f.countLength != 0 ==> counter < Pow256(f.countLength))
    && (f.countLength != 0 && f.countMember.Some? ==> Load(info, f.countMember.value) == counter)
    && (f.strideLength != 0 ==> stride < Pow256(f.strideLength))
    && (counter != 0 ==> !IsSkipped(f, stride) && (stride != 0 ==> 0 < E.FieldsSize(f.fields) <= stride))
  }

  /** The text a value is spelled with, as it is printed, reads as the value again. */
  ghost predicate IsTextFaithful(f: Field, info: Info) {
    ModelData(f, info).Some? ==>
      var data := ModelData(f, info).value;
      DecodesInto(f, data.(bytes := Trimmed(data.bytes)), info)
  }

  /** Values of a field can be carried by it. */
  ghost predicate IsFaithful(fs: seq<Field>, i: nat, info: Info, version: Version)
    requires i < |fs|
    decreases fs, 0
  {
    var f := fs[i];
    if f.Integer? then
      IsWord(f, info) && ((!f.extended && E.ExtendedOf(fs, Key(f), 0).Some?) || IsExactIn(f, info))
    else if f.Bits? then f.range.Some? ==> IsWord(f, info) && IsExactIn(f, info)
    else if f.Bcd? then IsNumberAt(info, f.member.id)
    else if f.String? then f.codec.decode.Some? ==> IsTextFaithful(f, info)
    else if f.Raw? then
      match f.extent
      case Fixed(length) => IsExactIn(f, info) && |E.ValueData(f, info, None).value.0.bytes| == length
      case Rest => IsBinaryAt(info, f.member.id)
      case Counted(m) => IsBinaryAt(info, f.member.id) && |BinaryAt(info, f.member.id)| == Load(info, m)
    else if f.Struct? then AreFaithful(f.fields, RecordAt(info, f.member.id), version)
    else if f.Vector? then
      forall k | 0 <= k < f.count :: AreFaithful(f.fields, ElementAt(RecordsAt(info, f.member.id), k), version)
    else if f.Array? then
      && AreNumbersTrue(f, info)
      && forall k | 0 <= k < Load(info, f.counter) ::
           AreFaithful(f.fields, ElementAt(RecordsAt(info, f.member.id), k), version)
    else true
  }

  /** Values of the fields which are written and read back can be carried by them. */
  ghost predicate AreFaithful(fs: seq<Field>, info: Info, version: Version)
    decreases fs, 1
  {
    forall i | 0 <= i < EndOf(fs, 0, info, version) && IsDefined(fs[i], version) :: IsFaithful(fs, i, info, version)
  }

  // What is read back

  /** Text as it is stored, if there is any. */
  function RawText(strings: seq<Option<seq<Byte>>>, text: Text): Option<seq<Byte>> {
    match text
    case NoText => None
    case Stored(index) => if index < |strings| then strings[index] else None
    case Made(bytes) => Some(bytes)
  }

  /** The string a text refers to in a set. */
  predicate RefersTo(text: Text, strings: seq<Option<seq<Byte>>>, raw: Option<seq<Byte>>) {
    if raw.None? then text.NoText?
    else text.Stored? && text.index < |strings| && strings[text.index] == raw
  }

  predicate IsHeldAt(info: Info, copy: Info, k: Id) {
    k in copy && Holds(info, k, copy[k])
  }

  /**
   A field has been read back: its members hold what they held, and its string
   number refers to the text there was.
   */
  ghost predicate IsRestored(f: Field, info: Info, copy: Info, strings: seq<Option<seq<Byte>>>,
                             built: seq<Option<seq<Byte>>>, version: Version)
    decreases f
  {
    match f
    case Integer(_, _, writes, _, _, _, _, _) => forall k | k in writes :: IsHeldAt(info, copy, k)
    case Bits(_, _, _, _, writes, _, _) => forall k | k in writes :: IsHeldAt(info, copy, k)
    case Raw(_, _, writes, _) => forall k | k in writes :: IsHeldAt(info, copy, k)
    case Bcd(m, _, _) => IsHeldAt(info, copy, m.id)
    case String(m, writes, codec) =>
      if codec.decode.Some? then forall k | k in writes :: IsHeldAt(info, copy, k)
      else
        && m.id in copy && copy[m.id].Words?
        && RefersTo(copy[m.id].text, built, RawText(strings, TextAt(info, m.id)))
    case Uuid(m) => m.id in copy && copy[m.id] == Unique(UuidAt(info, m.id))
    case Struct(m, fields) =>
      && m.id in copy && copy[m.id].Record?
      && AreRestored(fields, RecordAt(info, m.id), copy[m.id].members, strings, built, version)
    case Vector(m, count, fields) =>
      forall k | 0 <= k < count ::
        AreRestored(fields, ElementAt(RecordsAt(info, m.id), k), ElementAt(RecordsAt(copy, m.id), k),
                    strings, built, version)
    case Array(m, counter, countLength, countMember, _, strideLength, _, strideMember, fields) =>
      && IsNumber(copy, counter, Load(info, counter))
      && (countLength != 0 && countMember.Some? ==> Load(copy, countMember.value) == Load(info, countMember.value))
      && (strideLength != 0 && strideMember.Some? ==> Load(copy, strideMember.value) == Load(info, strideMember.value))
      && forall k | 0 <= k < Load(info, counter) ::
           AreRestored(fields, ElementAt(RecordsAt(info, m.id), k), ElementAt(RecordsAt(copy, m.id), k),
                       strings, built, version)
    case Group(_, present) => present.Some? ==> Load(copy, present.value) != 0
    case _ => true
  }

  /** Members of an extended field are those of its plain one. */
  ghost predicate AreRestored(fs: seq<Field>, info: Info, copy: Info, strings: seq<Option<seq<Byte>>>,
                              built: seq<Option<seq<Byte>>>, version: Version)
    decreases fs
  {
    forall i | 0 <= i < |fs| && IsDefined(fs[i], version) && !IsExtended(fs[i]) ::
      IsRestored(fs[i], info, copy, strings, built, version)
  }
}

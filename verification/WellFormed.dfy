/**
 What the engine takes for granted of a list of fields: the side conditions
 under which encoding gives back the bytes decoded.
 */
module WellFormed {
  import opened Wrappers
  import opened Bytes
  import opened Schema

  /** Members a field sets. */
  function Writes(f: Field): set<Id> {
    match f
    case Integer(_, _, writes, _, _, _, _, _) => writes
    case String(_, writes, _) => writes
    case Raw(_, _, writes, _) => writes
    case Bits(_, _, _, _, writes, _, _) => writes
    case Bcd(m, _, _) => {m.id}
    case Uuid(m) => {m.id}
    case Struct(m, _) => {m.id}
    case Vector(m, _, _) => {m.id}
    case Array(m, counter, _, count, _, _, _, stride, _) =>
      {m.id, counter.id} + (if count.Some? then {count.value.id} else {})
      + (if stride.Some? then {stride.value.id} else {})
    case Group(_, present) => if present.Some? then {present.value.id} else {}
    case _ => {}
  }

  /** A decoding handler sets the members declared for it, and has an encoding one. */
  ghost predicate IsPaired(f: Field) {
    && (CodecOf(f).decode.Some? ==> CodecOf(f).encode.Some?)
    && (forall data: Data :: Apply(f, data).Some? ==> Apply(f, data).value.Keys <= Writes(f))
  }

  /**
   Every value of a plain field is spelled by data which fits the field and
   decodes into the same value: encoding undoes decoding.
   */
  ghost predicate IsSpellable(f: Field) {
    && (forall info: Info :: ModelData(f, info).Some?)
    && (forall info: Info, n: nat ::
          n < Pow256(Width(f)) && DecodesInto(f, Data(n, NoText, []), info) ==>
          DecodesInto(f, ModelData(f, info).value, info) && FitsWidth(f, ModelData(f, info).value))
  }

  /** A member holding a number of an array is wide enough, and one of its own. */
  predicate IsHolderOk(m: Member, length: nat, elements: Id, counter: Id) {
    IsWordSize(m.size) && length <= m.size && m.id != elements && m.id != counter
  }

  ghost predicate IsFieldOk(f: Field) {
    match f
    case Integer(_, length, _, _, _, extended, when, _) =>
      1 <= length <= 8 && IsPaired(f) && (!extended ==> when.None?)
    case String(_, _, _) => IsPaired(f)
    case Raw(_, extent, _, codec) => IsPaired(f) && (!extent.Fixed? ==> codec.decode.None?)
    case Bits(_, _, _, _, _, _, _) => IsPaired(f)
    case Bcd(m, length, unknown) =>
      && 1 <= length <= m.size && IsWordSize(m.size)
      && (unknown != 0 ==> Pow100(length) <= unknown)
    case Array(m, counter, countLength, count, stride, strideLength, _, strideMember, _) =>
      && counter.size == 8 && m.id != counter.id
      && countLength <= 8 && strideLength <= 8
      && (count.Some? ==> IsHolderOk(count.value, countLength, m.id, counter.id))
      && (strideMember.Some? ==> IsHolderOk(strideMember.value, strideLength, m.id, counter.id))
      && (count.Some? && strideMember.Some? ==> count.value.id != strideMember.value.id)
      && (countLength == 0 ==> strideLength == 0 && stride != 0 && !IsSkipped(f, stride))
      && Pow256(countLength) * (if strideLength == 0 then stride else Pow256(strideLength)) <= WORD_LIMIT
    case _ => true
  }

  /** Runs of ranges of bits are closed by a pad before anything else begins. */
  predicate AreRunsOk(fs: seq<Field>, i: nat, taken: nat, version: Version)
    decreases |fs| - i
  {
    if i >= |fs| then taken == 0
    else
      match fs[i]
      case Bits(_, width, _, _, _, _, _) =>
        if IsDefined(fs[i], version) then 1 <= width <= 56 && AreRunsOk(fs, i + 1, taken + width, version)
        else AreRunsOk(fs, i + 1, taken, version)
      case Pad(unit) =>
        && unit > 0 && unit % 8 == 0
        && (taken % unit == 0 || unit - taken % unit <= 56)
        && AreRunsOk(fs, i + 1, 0, version)
      case Preset(_, _) => AreRunsOk(fs, i + 1, taken, version)
      case _ => taken == 0 && AreRunsOk(fs, i + 1, 0, version)
  }

  /** A plain field and the extended one of the same member. */
  predicate IsPair(f: Field, g: Field) {
    !IsExtended(f) && IsExtended(g) && Key(f) == Key(g)
  }

  /** A field is the plain field of a member some extended one names. */
  predicate IsNamedBy(f: Field, e: Field) {
    IsExtended(e) && !IsExtended(f) && (Key(f) == Key(e) || Key(f) == WhenKey(e))
  }

  /** Every member is set by one field, or by a plain field and its extended one. */
  ghost predicate AreApart(fs: seq<Field>, version: Version) {
    forall i, j | 0 <= i < j < |fs| && IsDefined(fs[i], version) && IsDefined(fs[j], version) ::
      IsPair(fs[i], fs[j]) || Writes(fs[i]) !! Writes(fs[j])
  }

  /** Members extended fields name are set by plain integers before them. */
  ghost predicate AreNamedIntegers(fs: seq<Field>) {
    forall i, j | 0 <= i < |fs| && 0 <= j < |fs| && IsNamedBy(fs[j], fs[i]) ::
      fs[j].Integer? && j < i && IsSpellable(fs[j])
  }

  /** A member an extended field names has one plain field. */
  ghost predicate AreNamedOnce(fs: seq<Field>) {
    forall i, j, k | 0 <= i < |fs| && 0 <= j < |fs| && 0 <= k < |fs|
                     && IsNamedBy(fs[j], fs[i]) && IsNamedBy(fs[k], fs[i]) && Key(fs[j]) == Key(fs[k]) ::
      j == k
  }

  /** Every extended field is keyed on a plain one. */
  ghost predicate AreKeyed(fs: seq<Field>) {
    forall i | 0 <= i < |fs| && IsExtended(fs[i]) ::
      exists j :: 0 <= j < |fs| && !IsExtended(fs[j]) && Key(fs[j]) == WhenKey(fs[i])
  }

  /** One extended field a member, and one pointing value a choice. */
  ghost predicate AreExtendedOnce(fs: seq<Field>) {
    forall i, j | 0 <= i < |fs| && 0 <= j < |fs| && IsExtended(fs[i]) && IsExtended(fs[j]) ::
      && (Key(fs[i]) == Key(fs[j]) ==> i == j)
      && (WhenKey(fs[i]) == WhenKey(fs[j]) ==> fs[i].whenRaw == fs[j].whenRaw)
  }

  /** A governing field comes before the ones it governs, in the same group. */
  ghost predicate AreGovernedAfter(fs: seq<Field>) {
    forall j, k | 0 <= j < |fs| && 0 <= k < |fs| && !IsExtended(fs[j]) && !IsExtended(fs[k])
                  && Governs(fs, fs[j], Key(fs[k])) ::
      k < j && forall g | k < g < j :: !fs[g].Group?
  }

  /** The extended field of a governing member is keyed on the member itself. */
  ghost predicate AreGovernorsFree(fs: seq<Field>) {
    forall i, j | 0 <= i < |fs| && 0 <= j < |fs| && IsExtended(fs[i]) && IsExtended(fs[j])
                  && Key(fs[i]) == WhenKey(fs[j]) ::
      WhenKey(fs[i]) == Key(fs[i])
  }

  ghost predicate AreChoicesOk(fs: seq<Field>) {
    && AreNamedIntegers(fs) && AreNamedOnce(fs) && AreKeyed(fs) && AreExtendedOnce(fs)
    && AreGovernedAfter(fs) && AreGovernorsFree(fs)
  }

  function NestedOf(f: Field): seq<Field> {
    if f.Struct? || f.Vector? || f.Array? then f.fields else []
  }

  ghost predicate IsWellFormed(fs: seq<Field>, version: Version)
    decreases fs
  {
    && (forall i | 0 <= i < |fs| :: IsFieldOk(fs[i]))
    && (forall i | 0 <= i < |fs| :: |NestedOf(fs[i])| > 0 ==> IsWellFormed(NestedOf(fs[i]), version))
    && AreRunsOk(fs, 0, 0, version)
    && AreApart(fs, version)
    && AreChoicesOk(fs)
  }
}

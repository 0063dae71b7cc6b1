/**
 What the fields read later leave alone: a member keeps the value it has been
 given unless some field after it may set it.
 */
module Frame {
  import opened Wrappers
  import opened Bytes
  import opened Schema
  import opened WellFormed
  import D = Decoding

  ghost predicate IsSameAt(a: Info, b: Info, k: Id) {
    (k in a <==> k in b) && (k in a ==> a[k] == b[k])
  }

  /** The plain field of a member has not been read yet. */
  ghost predicate IsUnread(fs: seq<Field>, i: nat, key: Id) {
    exists k :: i <= k < |fs| && !IsExtended(fs[k]) && Key(fs[k]) == key
  }

  /** The plain field an extended one is keyed on points at it. */
  ghost predicate IsPointed(choices: seq<Choice>, f: Field) {
    IsExtended(f) && var c := Find(choices, WhenKey(f)); c.Some? && choices[c.value].raw == f.whenRaw
  }

  /** A field from the index on may set a member. */
  ghost predicate MayWrite(fs: seq<Field>, i: nat, choices: seq<Choice>, k: Id, version: Version) {
    exists j :: i <= j < |fs| && MayWriteAt(fs, i, j, choices, k, version)
  }

  ghost predicate MayWriteAt(fs: seq<Field>, i: nat, j: nat, choices: seq<Choice>, k: Id, version: Version)
    requires j < |fs|
  {
    && IsDefined(fs[j], version) && k in Writes(fs[j])
    && (IsExtended(fs[j]) ==> IsUnread(fs, i, WhenKey(fs[j])) || IsPointed(choices, fs[j]))
  }

  /** Choices differ in what the plain fields have read at most. */
  ghost predicate AreSameKeys(a: seq<Choice>, b: seq<Choice>) {
    |a| == |b| && forall c | 0 <= c < |a| :: a[c].key == b[c].key && a[c].whenRaw == b[c].whenRaw
  }

  lemma {:induction false} SameKeysFindFrom(a: seq<Choice>, b: seq<Choice>, key: Id, i: nat)
    requires AreSameKeys(a, b)
    ensures FindFrom(a, key, i) == FindFrom(b, key, i)
    decreases |a| - i
  {
    if i < |a| {
      SameKeysFindFrom(a, b, key, i + 1);
    }
  }

  /** A field sets its own members, and an extended one only when pointed at. */
  lemma OneFrame(src: D.Source, f: Field, st: D.Reading, info: Info, choices: seq<Choice>, atEnd: bool, k: Id)
    requires src.Valid() && IsFieldOk(f)
    requires !D.DecodeOne(src, f, st, info, choices, atEnd).st.lost
    requires k in Writes(f) ==> IsExtended(f) && !IsPointed(choices, f)
    ensures IsSameAt(D.DecodeOne(src, f, st, info, choices, atEnd).info, info, k)
  {
    if f.Array? {
      ArrayFrame(src, f, st, info, atEnd, k);
    } else if !f.Struct? && !f.Vector? {
      ScalarFrame(src, f, st, info, choices, atEnd, k);
    }
  }

  lemma ScalarFrame(src: D.Source, f: Field, st: D.Reading, info: Info, choices: seq<Choice>, atEnd: bool, k: Id)
    requires src.Valid() && IsFieldOk(f)
    requires !f.Array? && !f.Vector? && !f.Struct?
    requires !D.DecodeOne(src, f, st, info, choices, atEnd).st.lost
    requires k in Writes(f) ==> IsExtended(f) && !IsPointed(choices, f)
    ensures IsSameAt(D.DecodeOne(src, f, st, info, choices, atEnd).info, info, k)
  {
    hide D.DecodeBits, D.DecodePlain, D.DecodeExtended, D.IsLater, Apply, IsFieldOk, IsPointed;
    if f.Bits? {
      BitsFrame(src, f, st, info, k);
    } else if IsExtended(f) {
      ExtendedFrame(src, f, st, info, choices, k);
    } else if !f.Pad? {
      PlainFrame(src, f, st, info, choices, k);
    }
  }

  lemma BitsFrame(src: D.Source, f: Field, st: D.Reading, info: Info, k: Id)
    requires src.Valid() && f.Bits? && IsFieldOk(f) && k !in Writes(f)
    ensures IsSameAt(D.DecodeBits(src, f, st, info).info, info, k)
  {
    hide D.TakeBits, Apply, D.IsLater;
  }

  lemma ExtendedFrame(src: D.Source, f: Field, st: D.Reading, info: Info, choices: seq<Choice>, k: Id)
    requires src.Valid() && IsExtended(f) && IsFieldOk(f)
    requires k in Writes(f) ==> !IsPointed(choices, f)
    ensures IsSameAt(D.DecodeExtended(src, f, st, info, choices).info, info, k)
  {
    hide D.Fetch, Apply, D.IsLater;
    ExtendedValue(src, f, st, info);
  }

  lemma ExtendedValue(src: D.Source, f: Field, st: D.Reading, info: Info)
    requires src.Valid() && IsExtended(f)
    ensures D.DecodeValue(src, f, st, info, false).info == info
  {
    hide D.Fetch, D.IsLater;
  }

  lemma PlainFrame(src: D.Source, f: Field, st: D.Reading, info: Info, choices: seq<Choice>, k: Id)
    requires src.Valid() && IsFieldOk(f) && !IsExtended(f) && !f.Bits? && k !in Writes(f)
    requires !D.DecodePlain(src, f, st, info, choices).st.lost
    ensures IsSameAt(D.DecodePlain(src, f, st, info, choices).info, info, k)
  {
    hide D.Fetch, Apply, D.IsLater, IsFieldOk;
    AppliedKeys(f);
  }

  /** What is decoded goes to the members of the field. */
  lemma AppliedKeys(f: Field)
    requires IsFieldOk(f)
    ensures forall data: Data :: Apply(f, data).Some? ==> Apply(f, data).value.Keys <= Writes(f)
  {
  }

  lemma ArrayFrame(src: D.Source, f: Field, st: D.Reading, info: Info, atEnd: bool, k: Id)
    requires src.Valid() && f.Array? && k !in Writes(f)
    ensures IsSameAt(D.DecodeArray(src, f, st, info, atEnd).info, info, k)
  {
    hide D.DecodeHeader, D.DecodeElements, D.IsLater;
    HeaderFrame(src, f, st, info, k);
  }

  lemma HeaderFrame(src: D.Source, f: Field, st: D.Reading, info: Info, k: Id)
    requires src.Valid() && f.Array? && k !in Writes(f)
    ensures IsSameAt(D.DecodeHeader(src, f, st, info).info, info, k)
  {
    hide D.StoreOptional, D.IsLater, D.ReadNumber;
    StoreFrame(f.countMember, k);
    StoreFrame(f.strideMember, k);
  }

  lemma StoreFrame(m: Option<Member>, k: Id)
    requires m.Some? ==> m.value.id != k
    ensures forall info: Info, n: nat ::
      D.StoreOptional(m, info, n).Some? ==> IsSameAt(D.StoreOptional(m, info, n).value, info, k)
  {
  }

  /** Reading a field changes the choice of its own member at most. */
  lemma OneChoices(src: D.Source, f: Field, st: D.Reading, info: Info, choices: seq<Choice>, atEnd: bool)
    requires src.Valid() && IsFieldOk(f)
    ensures var choices' := D.DecodeOne(src, f, st, info, choices, atEnd).choices;
      && AreSameKeys(choices, choices')
      && (forall c | 0 <= c < |choices| ::
            IsExtended(f) || choices[c].key != Key(f) ==> choices'[c] == choices[c])
  {
    hide D.DecodeBits, D.DecodePad, D.DecodeArray, D.DecodeVector, D.DecodeNested, D.IsLater, D.DecodeValue, Apply;
    if IsExtended(f) {
      ExtendedChoices(src, f, st, info, choices);
    }
  }

  lemma ExtendedChoices(src: D.Source, f: Field, st: D.Reading, info: Info, choices: seq<Choice>)
    requires src.Valid() && IsExtended(f)
    ensures D.DecodeExtended(src, f, st, info, choices).choices == choices
  {
    hide D.DecodeValue, D.IsLater;
  }

  /** A field which may not set a member is still not to set it after one more has been read. */
  lemma StillMayNotWrite(fs: seq<Field>, i: nat, a: seq<Choice>, b: seq<Choice>, k: Id, version: Version)
    requires i < |fs| && !MayWrite(fs, i, a, k, version)
    requires AreSameKeys(a, b)
    requires forall c | 0 <= c < |a| :: IsExtended(fs[i]) || a[c].key != Key(fs[i]) ==> b[c] == a[c]
    ensures !MayWrite(fs, i + 1, b, k, version)
  {
    var next := i + 1;
    forall j | next <= j < |fs|
      ensures !MayWriteAt(fs, next, j, b, k, version)
    {
      assert !MayWriteAt(fs, i, j, a, k, version);
      SameKeysFindFrom(a, b, WhenKey(fs[j]), 0);
    }
  }

  /** A member no field from the index on may set is the same in the end. */
  lemma {:induction false} FrameFrom(src: D.Source, fs: seq<Field>, i: nat, st: D.Reading, info: Info,
                                     choices: seq<Choice>, group: Option<Member>, last: bool, k: Id)
    requires src.Valid() && forall j | 0 <= j < |fs| :: IsFieldOk(fs[j])
    requires !D.DecodeFrom(src, fs, i, st, info, choices, group, last).st.lost
    requires !MayWrite(fs, i, choices, k, src.version) && (group.Some? ==> group.value.id != k)
    ensures IsSameAt(D.DecodeFrom(src, fs, i, st, info, choices, group, last).info, info, k)
    decreases |fs| - i
  {
    if i < |fs| {
      var f := fs[i];
      assert !MayWriteAt(fs, i, i, choices, k, src.version);
      if f.Offset? || f.Preset? || f.Group? || !IsDefined(f, src.version) {
        StillMayNotWrite(fs, i, choices, choices, k, src.version);
        if f.Group? {
          FrameGroup(src, fs, i, st, info, choices, group, last, k);
        } else if !f.Offset? || st.pos == f.offset {
          FrameFrom(src, fs, i + 1, st, info, choices, group, last, k);
        }
      } else {
        FrameField(src, fs, i, st, info, choices, group, last, k);
      }
    }
  }

  lemma MarkFrame(group: Option<Member>, info: Info, k: Id)
    requires group.Some? ==> group.value.id != k
    ensures D.MarkGroup(group, info).Some? ==> IsSameAt(D.MarkGroup(group, info).value, info, k)
  {
  }

  lemma {:induction false} FrameGroup(src: D.Source, fs: seq<Field>, i: nat, st: D.Reading, info: Info,
                                      choices: seq<Choice>, group: Option<Member>, last: bool, k: Id)
    requires src.Valid() && forall j | 0 <= j < |fs| :: IsFieldOk(fs[j])
    requires i < |fs| && fs[i].Group? && k !in Writes(fs[i])
    requires !D.DecodeFrom(src, fs, i, st, info, choices, group, last).st.lost
    requires !MayWrite(fs, i + 1, choices, k, src.version) && (group.Some? ==> group.value.id != k)
    ensures IsSameAt(D.DecodeFrom(src, fs, i, st, info, choices, group, last).info, info, k)
    decreases |fs| - i, 0
  {
    hide D.IsLater, MayWrite, IsFieldOk, D.MarkGroup;
    var f := fs[i];
    var marked := D.MarkGroup(group, info);
    MarkFrame(group, info, k);
    if marked.Some? && st.pos < src.end {
      var st' := D.Enter(st, f.since);
      FrameFrom(src, fs, i + 1, st', marked.value, choices, f.present, last, k);
    }
  }

  lemma {:induction false} FrameField(src: D.Source, fs: seq<Field>, i: nat, st: D.Reading, info: Info,
                                      choices: seq<Choice>, group: Option<Member>, last: bool, k: Id)
    requires src.Valid() && forall j | 0 <= j < |fs| :: IsFieldOk(fs[j])
    requires i < |fs| && IsDefined(fs[i], src.version)
    requires !fs[i].Group? && !fs[i].Offset? && !fs[i].Preset?
    requires !D.DecodeFrom(src, fs, i, st, info, choices, group, last).st.lost
    requires !MayWrite(fs, i, choices, k, src.version) && (group.Some? ==> group.value.id != k)
    ensures IsSameAt(D.DecodeFrom(src, fs, i, st, info, choices, group, last).info, info, k)
    decreases |fs| - i, 0
  {
    var f := fs[i];
    var atEnd := last && i + 1 == |fs|;
    var one := D.DecodeOne(src, f, st, info, choices, atEnd);
    assert !MayWriteAt(fs, i, i, choices, k, src.version);
    OneFrame(src, f, st, info, choices, atEnd, k);
    OneChoices(src, f, st, info, choices, atEnd);
    StillMayNotWrite(fs, i, choices, one.choices, k, src.version);
    if one.ok {
      var st' := D.Define(one.st, DefinedFrom(f));
      FrameFrom(src, fs, i + 1, st', one.info, one.choices, group, last, k);
    }
  }
}

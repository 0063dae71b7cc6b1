/**
 Encoding in the preserve mode gives back the bytes decoded: the induction over
 the field language.
 */
module Preserve {
  import opened Wrappers
  import opened Bytes
  import opened BitRuns
  import opened Schema
  import opened WellFormed
  import opened Frame
  import opened Lockstep
  import opened Scalars
  import D = Decoding
  import E = Encoding

  /** State the two have reached, where nothing has been lost so far. */
  ghost predicate HasReached(src: D.Source, st: D.Reading, t: E.Target, h: seq<Byte>, w: E.Writing) {
    IsSameSource(src, t) && IsInStep(src, st, t, h, w) && IsClosed(st)
  }

  lemma RemainingAgree(src: D.Source, st: D.Reading, t: E.Target, h: seq<Byte>, w: E.Writing)
    requires HasReached(src, st, t, h, w)
    ensures E.Remaining(t, w) == D.Remaining(src, st)
  {
  }

  predicate IsScalar(f: Field) {
    f.Integer? || f.String? || f.Raw? || f.Bcd? || f.Uuid?
  }

  /** A scalar field nothing has been lost at fails only where the data ends inside it. */
  lemma ScalarEnds(src: D.Source, st: D.Reading, f: Field, info: Info, choices: seq<Choice>, atEnd: bool)
    requires src.Valid() && IsScalar(f) && IsFieldOk(f)
    requires var one := D.DecodeOne(src, f, st, info, choices, atEnd); !one.ok && !one.st.lost
    ensures D.Remaining(src, st) < Width(f)
  {
    if f.Integer? {
      IntegerEnds(src, st, f, info, choices);
    } else {
      ValueEnds(src, st, f, info);
    }
  }

  lemma IntegerEnds(src: D.Source, st: D.Reading, f: Field, info: Info, choices: seq<Choice>)
    requires src.Valid() && f.Integer? && IsFieldOk(f)
    requires var one := if f.extended then D.DecodeExtended(src, f, st, info, choices)
                        else D.DecodePlain(src, f, st, info, choices);
      !one.ok && !one.st.lost
    ensures D.Remaining(src, st) < Width(f)
  {
  }

  lemma ValueEnds(src: D.Source, st: D.Reading, f: Field, info: Info)
    requires src.Valid() && IsScalar(f) && !f.Integer? && IsFieldOk(f)
    requires var one := D.DecodeValue(src, f, st, info, true); !one.ok && !one.st.lost
    ensures D.Remaining(src, st) < Width(f)
  {
    hide D.IsLater, Apply, D.FetchBcd, D.FetchText, D.FetchRaw, IsFieldOk;
    if !f.Uuid? {
      FetchEnds(src, st, f, info);
    }
  }

  lemma FetchEnds(src: D.Source, st: D.Reading, f: Field, info: Info)
    requires src.Valid() && (f.Bcd? || f.String? || f.Raw?) && IsFieldOk(f)
    requires !D.IsCut(src, f, st, info)
    ensures var got := D.Fetch(src, f, st, info); !got.ok && !got.st.lost ==> D.Remaining(src, st) < Width(f)
  {
    hide D.IsLater, IsPaired, Pow100, BcdValue, AreDigits;
  }

  lemma ScalarStops(src: D.Source, st: D.Reading, t: E.Target, h: seq<Byte>, w: E.Writing,
                    fs: seq<Field>, i: nat, written: seq<Choice>, final: Info)
    requires IsSameSource(src, t) && IsInStep(src, st, t, h, w) && IsClosed(st)
    requires i < |fs| && IsScalar(fs[i]) && D.Remaining(src, st) < Width(fs[i])
    ensures var r := E.EncodeScalar(t, w, fs, i, final, written);
      r.Some? && IsKept(t, h, r.value.0) && r.value.0.stopped
  {
    CopyKeeps(t, h, w, E.Remaining(t, w));
  }

  /** Fields the model holds the whole of, and the other ones no extended field names. */
  lemma UnnamedScalarKeeps(src: D.Source, st: D.Reading, t: E.Target, h: seq<Byte>, w: E.Writing,
                           fs: seq<Field>, i: nat, info: Info, read: seq<Choice>, written: seq<Choice>, final: Info)
    requires IsSameSource(src, t) && IsInStep(src, st, t, h, w) && IsClosed(st)
    requires i < |fs| && IsScalar(fs[i]) && !fs[i].Integer? && AreFieldsOk(fs, src.version)
    requires AreOf(fs, read) && AreMatched(fs, i, read, written)
    requires var one := D.DecodePlain(src, fs[i], st, info, read);
      one.ok && !one.st.lost && IsSettled(fs, i, one.info, one.choices, src.version, final)
    ensures var one := D.DecodePlain(src, fs[i], st, info, read);
      var r := E.EncodeScalar(t, w, fs, i, final, written);
      && one.choices == read && r.Some? && r.value.1 == written && IsInStep(src, one.st, t, h, r.value.0)
  {
    hide D.DecodePlain, D.DecodeValue, E.EncodeScalar, E.EncodeFixed, IsFieldOk, IsInStep, D.IsLater, AreSameStrings;
    hide AreApart, AreKeyed, AreExtendedOnce, AreGovernedAfter, AreGovernorsFree, MayWrite, D.Fetch, AreOf;
    var f := fs[i];
    OnlyIntegersAreNamed(fs, i, read);
    assert E.ExtendedOf(fs, Key(f), 0).None?;
    UnnamedIsRead(src, f, st, info, read);
    UnpairedIsNotOverwritten(fs, i, read, src.version);
    if E.IsFixed(f) {
      FixedKeeps(src, st, t, h, w, f, info, final);
      FixedIsEnough(src, f, st, info);
      RemainingAgree(src, st, t, h, w);
      FixedIsWritten(t, w, fs, i, final, written);
    } else {
      UnnamedKeeps(src, st, t, h, w, fs, i, info, read, written, final);
    }
  }

  lemma UnnamedIsRead(src: D.Source, f: Field, st: D.Reading, info: Info, read: seq<Choice>)
    requires src.Valid() && IsScalar(f) && !f.Integer? && Find(read, Key(f)).None?
    ensures var one, value := D.DecodePlain(src, f, st, info, read), D.DecodeValue(src, f, st, info, true);
      one == D.Step(value.ok, value.st, value.info, read)
  {
    hide D.IsLater, D.DecodeValue;
  }

  lemma FixedIsWritten(t: E.Target, w: E.Writing, fs: seq<Field>, i: nat, final: Info, written: seq<Choice>)
    requires t.Valid() && i < |fs| && E.IsFixed(fs[i]) && Width(fs[i]) <= E.Remaining(t, w)
    ensures E.EncodeScalar(t, w, fs, i, final, written) == E.Keep(E.EncodeFixed(t, w, fs[i], final), written)
  {
    hide E.EncodeFixed;
  }

  lemma FixedKeeps(src: D.Source, st: D.Reading, t: E.Target, h: seq<Byte>, w: E.Writing, f: Field, info: Info,
                   final: Info)
    requires IsSameSource(src, t) && IsInStep(src, st, t, h, w) && IsClosed(st)
    requires E.IsFixed(f) && IsFieldOk(f)
    requires var one := D.DecodeValue(src, f, st, info, true);
      one.ok && !one.st.lost && forall k | k in Writes(f) :: IsSameAt(final, one.info, k)
    ensures var r := E.EncodeFixed(t, w, f, final);
      r.Some? && IsInStep(src, D.DecodeValue(src, f, st, info, true).st, t, h, r.value)
  {
    assert f.member.id in Writes(f) by {
      if f.Raw? {
        assert Apply(f, Data(0, NoText, [])).Some?;
      }
    }
    if f.Uuid? {
      UuidKeeps(src, st, t, h, w, f, info, final);
    } else if f.Bcd? {
      BcdKeeps(src, st, t, h, w, f, info, final);
    } else {
      BinaryKeeps(src, st, t, h, w, f, info, final);
    }
  }

  lemma FixedIsEnough(src: D.Source, f: Field, st: D.Reading, info: Info)
    requires src.Valid() && E.IsFixed(f) && IsFieldOk(f) && D.DecodeValue(src, f, st, info, true).ok
    ensures Width(f) <= D.Remaining(src, st)
  {
  }

  lemma ScalarKeeps(src: D.Source, st: D.Reading, t: E.Target, h: seq<Byte>, w: E.Writing,
                    fs: seq<Field>, i: nat, info: Info, read: seq<Choice>, written: seq<Choice>, final: Info,
                    atEnd: bool)
    requires HasReached(src, st, t, h, w)
    requires i < |fs| && IsScalar(fs[i]) && AreFieldsOk(fs, src.version)
    requires AreOf(fs, read) && AreMatched(fs, i, read, written)
    requires var one := D.DecodeOne(src, fs[i], st, info, read, atEnd);
      && one.ok && !one.st.lost && IsSettled(fs, i, one.info, one.choices, src.version, final)
      && IsGovernedExact(fs, i, read, one.choices, final)
    ensures var one := D.DecodeOne(src, fs[i], st, info, read, atEnd);
      var r := E.EncodeScalar(t, w, fs, i, final, written);
      && r.Some? && HasReached(src, one.st, t, h, r.value.0) && AreMatched(fs, i + 1, one.choices, r.value.1)
  {
    hide D.DecodeOne, D.DecodePlain, D.DecodeExtended, E.EncodeScalar, IsInStep;
    hide IsSettled, AreMatched, AreOf, IsFieldOk;
    hide D.IsLater, AreSameStrings, AreFieldsOk, AreNamedIntegers, AreGovernedExact, AreApart;
    var f := fs[i];
    ScalarIsRead(src, f, st, info, read, atEnd);
    ScalarStaysClosed(src, st, f, info, read, atEnd);
    if !f.Integer? {
      ListIsOk(fs, src.version);
      UnnamedScalarKeeps(src, st, t, h, w, fs, i, info, read, written, final);
      OnlyIntegersAreNamed(fs, i, read);
      MatchedAfterOther(fs, i, read, written);
    } else if f.extended {
      ExtendedScalarKeeps(src, st, t, h, w, fs, i, info, read, written, final);
    } else if Find(read, Key(f)).Some? {
      PlainChoices(src, f, st, info, read);
      GoverningKeeps(src, st, t, h, w, fs, i, info, read, written, final);
    } else {
      PlainKeeps(src, st, t, h, w, fs, i, info, read, written, final);
    }
  }

  lemma PlainChoices(src: D.Source, f: Field, st: D.Reading, info: Info, read: seq<Choice>)
    requires src.Valid()
    ensures |D.DecodePlain(src, f, st, info, read).choices| == |read|
  {
    hide D.IsLater, D.DecodeValue;
  }

  lemma ScalarIsRead(src: D.Source, f: Field, st: D.Reading, info: Info, read: seq<Choice>, atEnd: bool)
    requires src.Valid() && IsScalar(f)
    ensures D.DecodeOne(src, f, st, info, read, atEnd) ==
      if IsExtended(f) then D.DecodeExtended(src, f, st, info, read) else D.DecodePlain(src, f, st, info, read)
  {
    hide D.IsLater, D.DecodePlain, D.DecodeExtended;
  }

  lemma ScalarStaysClosed(src: D.Source, st: D.Reading, f: Field, info: Info, choices: seq<Choice>, atEnd: bool)
    requires src.Valid() && IsScalar(f) && IsClosed(st)
    ensures IsClosed(D.DecodeOne(src, f, st, info, choices, atEnd).st)
  {
  }

  lemma ExtendedScalarKeeps(src: D.Source, st: D.Reading, t: E.Target, h: seq<Byte>, w: E.Writing, fs: seq<Field>,
                            i: nat, info: Info, read: seq<Choice>, written: seq<Choice>, final: Info)
    requires HasReached(src, st, t, h, w)
    requires i < |fs| && IsExtended(fs[i]) && AreFieldsOk(fs, src.version)
    requires AreOf(fs, read) && AreMatched(fs, i, read, written)
    requires var one := D.DecodeExtended(src, fs[i], st, info, read);
      one.ok && !one.st.lost && IsSettled(fs, i, one.info, one.choices, src.version, final)
    ensures var one := D.DecodeExtended(src, fs[i], st, info, read);
      var r := E.EncodeScalar(t, w, fs, i, final, written);
      && r.Some? && IsInStep(src, one.st, t, h, r.value.0) && AreMatched(fs, i + 1, one.choices, r.value.1)
  {
    ChoiceOfExtended(fs, i, read);
    ExtendedIsNotOverwritten(fs, i, read, src.version);
    ExtendedKeeps(src, st, t, h, w, fs, i, info, read, written, final);
    MatchedAfterOther(fs, i, read, written);
  }

  lemma ExtendedIsNotOverwritten(fs: seq<Field>, i: nat, choices: seq<Choice>, version: Version)
    requires i < |fs| && IsExtended(fs[i]) && AreApart(fs, version)
    ensures forall k | k in Writes(fs[i]) :: !MayWrite(fs, i + 1, choices, k, version)
  {
    forall k | k in Writes(fs[i])
      ensures !MayWrite(fs, i + 1, choices, k, version)
    {
      IsNotOverwritten(fs, i, choices, version, k);
    }
  }

  // What holds in the end

  /** The group whose fields are being read is one before them. */
  ghost predicate IsGroupBefore(fs: seq<Field>, i: nat, group: Option<Member>) {
    group.Some? ==> exists g :: 0 <= g < i && g < |fs| && fs[g].Group? && fs[g].present == group
  }

  lemma GroupIsApart(fs: seq<Field>, i: nat, group: Option<Member>, version: Version)
    requires i < |fs| && AreApart(fs, version) && AreNamedIntegers(fs) && IsDefined(fs[i], version)
      && IsGroupBefore(fs, i, group)
    ensures group.Some? ==> group.value.id !in Writes(fs[i])
  {
    if group.Some? {
      var g :| 0 <= g < i && fs[g].Group? && fs[g].present == group;
      assert !IsNamedBy(fs[g], fs[i]);
      assert IsPair(fs[g], fs[i]) || Writes(fs[g]) !! Writes(fs[i]);
    }
  }

  /** The members of a field which has been read hold what it has read, unless a later one sets them. */
  lemma SettledFrom(src: D.Source, fs: seq<Field>, i: nat, st: D.Reading, info: Info, choices: seq<Choice>,
                    group: Option<Member>, last: bool)
    requires src.Valid() && i < |fs| && AreFieldsOk(fs, src.version) && IsDefined(fs[i], src.version)
    requires IsGroupBefore(fs, i, group)
    requires !D.DecodeFrom(src, fs, i + 1, st, info, choices, group, last).st.lost
    ensures IsSettled(fs, i, info, choices, src.version,
                      D.DecodeFrom(src, fs, i + 1, st, info, choices, group, last).info)
  {
    hide AreApart, AreNamedOnce, AreKeyed, AreExtendedOnce, AreGovernedAfter, AreGovernorsFree, D.DecodeFrom, D.IsLater;
    GroupIsApart(fs, i, group, src.version);
    var final := D.DecodeFrom(src, fs, i + 1, st, info, choices, group, last).info;
    forall k | k in Writes(fs[i]) && !MayWrite(fs, i + 1, choices, k, src.version)
      ensures IsSameAt(final, info, k)
    {
      FrameFrom(src, fs, i + 1, st, info, choices, group, last, k);
    }
  }

  lemma GovernedIsNamed(fs: seq<Field>, j: nat, key: Id) returns (e: nat)
    requires j < |fs| && !IsExtended(fs[j]) && Governs(fs, fs[j], key) && AreNamedIntegers(fs)
    ensures e < |fs| && IsPair(fs[j], fs[e]) && WhenKey(fs[e]) == key && Key(fs[j]) != key
    ensures fs[j].Integer? && IsSpellable(fs[j])
  {
    e :| 0 <= e < |fs| && IsExtended(fs[e]) && Key(fs[e]) == Key(fs[j]) && WhenKey(fs[e]) == key;
    assert IsNamedBy(fs[j], fs[e]);
  }

  lemma SameKeysAreOf(fs: seq<Field>, a: seq<Choice>, b: seq<Choice>)
    requires AreOf(fs, a) && AreSameKeys(a, b)
    ensures AreOf(fs, b)
  {
    forall c | 0 <= c < |b|
      ensures IsOf(fs, b[c])
    {
      assert IsOf(fs, a[c]);
    }
  }

  /** A member which has just been read, and is not pointed elsewhere. */
  lemma ExactHere(src: D.Source, fs: seq<Field>, j: nat, st: D.Reading, info: Info,
                  choices: seq<Choice>, group: Option<Member>, last: bool, k: nat, e: nat)
    requires src.Valid() && AreFieldsOk(fs, src.version) && IsGroupBefore(fs, j, group)
    requires k < j < |fs| && e < |fs| && IsPair(fs[j], fs[e]) && WhenKey(fs[e]) == Key(fs[k]) != Key(fs[j])
    requires fs[j].Integer? && IsSpellable(fs[j]) && AreOf(fs, choices) && !IsUnread(fs, j, Key(fs[k]))
    requires var c := Find(choices, Key(fs[k])); c.Some? && choices[c.value].raw != choices[c.value].whenRaw
    requires D.DecodeOne(src, fs[j], st, info, choices, last && j + 1 == |fs|).ok
    requires !D.DecodeFrom(src, fs, j, st, info, choices, group, last).st.lost
    ensures IsExactIn(fs[j], D.DecodeFrom(src, fs, j, st, info, choices, group, last).info)
  {
    hide AreApart, AreNamedIntegers, AreNamedOnce, AreKeyed, AreGovernedAfter, AreGovernorsFree, AreOf;
    var f := fs[j];
    var one := D.DecodePlain(src, f, st, info, choices);
    var st' := D.Define(one.st, DefinedFrom(f));
    var final := D.DecodeFrom(src, fs, j + 1, st', one.info, one.choices, group, last).info;
    SettledFrom(src, fs, j, st', one.info, one.choices, group, last);
    SameKeysFindFrom(choices, one.choices, WhenKey(fs[e]), 0);
    ChoiceOfExtended(fs, e, choices);
    UnreadStep(fs, j, WhenKey(fs[e]));
    assert E.ExtendedOf(fs, Key(f), 0) == Some(e);
    IntegerIsHeld(src, st, fs, j, info, choices, final);
    var data := D.Fetch(src, f, st, info).data;
    assert data.number < Pow256(Width(f)) by {
      LoadIsBounded(D.Ahead(src, st, f.length));
    }
    assert DecodesInto(f, Data(data.number, NoText, []), final);
  }

  lemma GovernedIsInGroup(fs: seq<Field>, i: nat, j: nat, k: nat)
    requires k < i <= j < |fs| && !IsExtended(fs[k]) && !IsExtended(fs[j]) && Governs(fs, fs[j], Key(fs[k]))
    requires AreGovernedAfter(fs) && AreNamedIntegers(fs)
    ensures !fs[i].Group?
  {
    if i == j {
      var e := GovernedIsNamed(fs, j, Key(fs[k]));
    }
  }

  /** A governed member has been read, and its plain field can carry it. */
  lemma {:induction false} ExactFrom(src: D.Source, fs: seq<Field>, i: nat, st: D.Reading, info: Info,
                                     choices: seq<Choice>, group: Option<Member>, last: bool, j: nat, k: nat)
    requires src.Valid() && AreFieldsOk(fs, src.version) && IsGroupBefore(fs, i, group)
    requires k < i <= j < |fs| && !IsExtended(fs[k]) && !IsExtended(fs[j]) && Governs(fs, fs[j], Key(fs[k]))
    requires AreOf(fs, choices) && !IsUnread(fs, i, Key(fs[k]))
    requires var c := Find(choices, Key(fs[k])); c.Some? && choices[c.value].raw != choices[c.value].whenRaw
    requires !D.DecodeFrom(src, fs, i, st, info, choices, group, last).st.lost
    ensures IsExactIn(fs[j], D.DecodeFrom(src, fs, i, st, info, choices, group, last).info)
    decreases |fs| - i
  {
    hide AreApart, AreNamedIntegers, AreNamedOnce, AreKeyed, AreExtendedOnce, AreGovernorsFree;
    hide D.DecodeOne, IsFieldOk, AreOf, D.IsLater, IsExactIn, AreGovernedAfter;
    var f := fs[i];
    var e := GovernedIsNamed(fs, j, Key(fs[k]));
    GovernedIsInGroup(fs, i, j, k);
    if f.Offset? || f.Preset? || !IsDefined(f, src.version) {
      UnreadStep(fs, i, Key(fs[k]));
      ExactFrom(src, fs, i + 1, st, info, choices, group, last, j, k);
    } else {
      var atEnd := last && i + 1 == |fs|;
      var one := D.DecodeOne(src, f, st, info, choices, atEnd);
      assert one.ok by {
        assert D.Pending(fs, i);
      }
      var st' := D.Define(one.st, DefinedFrom(f));
      OneChoices(src, f, st, info, choices, atEnd);
      SameKeysFindFrom(choices, one.choices, Key(fs[k]), 0);
      if i == j {
        ExactHere(src, fs, i, st, info, choices, group, last, k, e);
      } else {
        UnreadStep(fs, i, Key(fs[k]));
        SameKeysAreOf(fs, choices, one.choices);
        ExactFrom(src, fs, i + 1, st', one.info, one.choices, group, last, j, k);
      }
    }
  }
}

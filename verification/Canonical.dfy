/**
 The canonical mode: a structure written from scratch for a version is read
 back as it was, up to the groups of that version.
 */
module Canonical {
  import opened Wrappers
  import opened Bytes
  import opened BitRuns
  import opened Schema
  import opened WellFormed
  import opened Frame
  import opened Lockstep
  import opened Scalars
  import opened Preserve
  import opened Arrays
  import opened Identity
  import opened Observed
  import opened Stream
  import opened Reread
  import opened Portable
  import opened Carried
  import opened Rounds
  import S = Structure
  import D = Decoding
  import E = Encoding

  // What has been read back stays read back

  lemma RestoredStays(f: Field, info: Info, copy: Info, copy': Info, t: E.Target, built: seq<Option<seq<Byte>>>)
    requires IsRestored(f, info, copy, t.strings, built, t.version)
    requires f.String? && f.codec.decode.None? ==> f.writes == {f.member.id}
    requires forall k | k in Writes(f) :: IsSameAt(copy', copy, k)
    ensures IsRestored(f, info, copy', t.strings, built, t.version)
  {
    hide AreRestored, RefersTo, Holds, RawText, IsHeldAt;
    HeldStays(Writes(f), info, copy, copy');
    if f.Struct? || f.Vector? || f.Uuid? || f.Bcd? || (f.String? && f.codec.decode.None?) {
      assert f.member.id in Writes(f);
    } else if f.Array? {
      ArrayStays(f, info, copy, copy', t, built);
    } else if f.Group? && f.present.Some? {
      assert f.present.value.id in Writes(f);
    }
  }

  lemma HeldStays(writes: set<Id>, info: Info, copy: Info, copy': Info)
    requires forall k | k in writes :: IsSameAt(copy', copy, k)
    ensures forall k | k in writes :: IsHeldAt(info, copy, k) ==> IsHeldAt(info, copy', k)
  {
    forall k | k in writes && IsHeldAt(info, copy, k)
      ensures IsHeldAt(info, copy', k)
    {
      assert IsSameAt(copy', copy, k);
    }
  }

  lemma ArrayStays(f: Field, info: Info, copy: Info, copy': Info, t: E.Target, built: seq<Option<seq<Byte>>>)
    requires f.Array? && IsRestored(f, info, copy, t.strings, built, t.version)
    requires forall k | k in Writes(f) :: IsSameAt(copy', copy, k)
    ensures IsRestored(f, info, copy', t.strings, built, t.version)
  {
    hide AreRestored;
    assert f.member.id in Writes(f) && f.counter.id in Writes(f);
    assert f.countMember.Some? ==> f.countMember.value.id in Writes(f);
    assert f.strideMember.Some? ==> f.strideMember.value.id in Writes(f);
  }

  /** A string with no handlers sets its own member. */
  predicate AreStringsPlain(fs: seq<Field>) {
    forall j | 0 <= j < |fs| && fs[j].String? && fs[j].codec.decode.None? :: fs[j].writes == {fs[j].member.id}
  }

  /** A plain integer whose extended field is still to be read. */
  ghost predicate IsAwaited(fs: seq<Field>, i: nat, j: nat, read: seq<Choice>)
    requires j < |fs|
  {
    exists e :: i <= e < |fs| && IsWaitingFor(fs, j, e, read)
  }

  ghost predicate ArePointing(fs: seq<Field>, i: nat, j: nat, copy: Info, read: seq<Choice>)
    requires j < |fs|
  {
    forall e | i <= e < |fs| && IsWaitingFor(fs, j, e, read) :: IsPointing(fs[j], copy, fs[e].whenRaw)
  }

  ghost predicate IsDone(fs: seq<Field>, i: nat, j: nat, info: Info, copy: Info, t: E.Target,
                         built: seq<Option<seq<Byte>>>, read: seq<Choice>, group: Option<Member>)
    requires j < |fs|
  {
    || !IsDefined(fs[j], t.version)
    || (fs[j].Group? && fs[j].present == group)
    || IsExtended(fs[j])
    || (if fs[j].Integer? then
          && ArePointing(fs, i, j, copy, read)
          && (IsAwaited(fs, i, j, read) || IsRestored(fs[j], info, copy, t.strings, built, t.version))
        else IsRestored(fs[j], info, copy, t.strings, built, t.version))
  }

  /** All the fields before one have been read back. */
  ghost predicate AreDone(fs: seq<Field>, i: nat, info: Info, copy: Info, t: E.Target,
                          built: seq<Option<seq<Byte>>>, read: seq<Choice>, group: Option<Member>) {
    forall j | 0 <= j < i && j < |fs| :: IsDone(fs, i, j, info, copy, t, built, read, group)
  }

  /** A field which has just been read holds what it held, or its extended field is going to. */
  ghost predicate IsDoneNow(fs: seq<Field>, i: nat, info: Info, copy: Info, t: E.Target, built: seq<Option<seq<Byte>>>,
                            read: seq<Choice>)
    requires i < |fs|
  {
    if fs[i].Integer? && !fs[i].extended then IsPlainRestored(fs, i, info, copy, read)
    else if IsExtended(fs[i]) then IsPointed(read, fs[i]) ==> forall k | k in Writes(fs[i]) :: IsHeldAt(info, copy, k)
    else IsRestored(fs[i], info, copy, t.strings, built, t.version)
  }

  /** A field sets its own members, and an extended one only when pointed at. */
  ghost predicate IsFramed(f: Field, copy: Info, copy': Info, read: seq<Choice>) {
    forall k | k !in Writes(f) || (IsExtended(f) && !IsPointed(read, f)) :: IsSameAt(copy', copy, k)
  }

  /** Choices of other members are left alone. */
  ghost predicate AreChoicesFramed(f: Field, read: seq<Choice>, read': seq<Choice>) {
    && AreSameKeys(read, read')
    && forall c | 0 <= c < |read| :: IsExtended(f) || read[c].key != Key(f) ==> read'[c] == read[c]
  }

  lemma StillPointed(fs: seq<Field>, i: nat, e: nat, read: seq<Choice>, read': seq<Choice>)
    requires i < |fs| && e < |fs| && AreChoicesFramed(fs[i], read, read') && !IsUnread(fs, i, WhenKey(fs[e]))
    ensures IsPointed(read, fs[e]) <==> IsPointed(read', fs[e])
  {
    SameKeysFindFrom(read, read', WhenKey(fs[e]), 0);
    if !IsExtended(fs[i]) {
      assert Key(fs[i]) != WhenKey(fs[e]);
    }
  }

  /** Once a plain field has been read, so has the one its extended field is keyed on. */
  lemma KeyIsKnown(fs: seq<Field>, i: nat, j: nat, e: nat)
    requires j < i <= |fs| && e < |fs| && IsPair(fs[j], fs[e]) && AreNamedOnce(fs) && AreGovernedAfter(fs)
    ensures !IsUnread(fs, i, WhenKey(fs[e]))
  {
    hide Governs, AreNamedOnce, AreGovernedAfter;
    if WhenKey(fs[e]) == Key(fs[j]) {
      NamedIsRead(fs, j, e);
    } else {
      GovernorIsRead(fs, j, e);
    }
  }

  lemma PlainIsDone(fs: seq<Field>, i: nat, info: Info, copy: Info, t: E.Target, built: seq<Option<seq<Byte>>>,
                    read: seq<Choice>, group: Option<Member>)
    requires i < |fs| && fs[i].Integer? && !fs[i].extended && IsPlainRestored(fs, i, info, copy, read)
    requires AreNamedIntegers(fs)
    ensures IsDone(fs, i + 1, i, info, copy, t, built, read, group)
  {
    hide IsPointed, IsHeldAt, IsPointing, IsSpellable;
    if e: nat :| e < |fs| && IsWaitingFor(fs, i, e, read) {
      assert IsNamedBy(fs[i], fs[e]);
      assert i + 1 <= e;
    }
  }

  /** A plain field is done once its extended one has been read. */
  lemma PairIsDone(fs: seq<Field>, i: nat, j: nat, info: Info, copy: Info, t: E.Target, built: seq<Option<seq<Byte>>>,
                   read: seq<Choice>)
    requires i < |fs| && j < |fs| && IsPair(fs[j], fs[i]) && ArePairsPortable(fs) && AreNamedIntegers(fs)
    requires IsPointed(read, fs[i]) && IsDoneNow(fs, i, info, copy, t, built, read)
    ensures IsRestored(fs[j], info, copy, t.strings, built, t.version)
  {
    hide IsPointed, IsHeldAt, IsTotal;
    assert IsNamedBy(fs[j], fs[i]);
    assert Writes(fs[j]) == Writes(fs[i]);
  }

  lemma EarlierStaysDone(fs: seq<Field>, i: nat, j: nat, info: Info, copy: Info, copy': Info, t: E.Target,
                         built: seq<Option<seq<Byte>>>, read: seq<Choice>, read': seq<Choice>, group: Option<Member>)
    requires j < i < |fs| && IsDefined(fs[i], t.version)
    requires AreFieldsOk(fs, t.version) && ArePairsPortable(fs) && AreStringsPlain(fs)
    requires IsDone(fs, i, j, info, copy, t, built, read, group)
    requires IsFramed(fs[i], copy, copy', read) && AreChoicesFramed(fs[i], read, read')
    requires IsExtended(fs[i]) ==> read' == read && IsDoneNow(fs, i, info, copy', t, built, read)
    ensures IsDone(fs, i + 1, j, info, copy', t, built, read', group)
  {
    hide AreFieldsOk, AreApart, AreNamedIntegers, ArePairsPortable, IsPointed, IsRestored, AreChoicesFramed, IsUnread;
    hide IsDoneNow, IsPointing, IsFramed, AreNamedOnce, AreGovernedAfter, AreStringsPlain;
    ListIsOk(fs, t.version);
    if IsDefined(fs[j], t.version) && !IsExtended(fs[j]) && !(fs[j].Group? && fs[j].present == group) {
      PointingStays(fs, i, j, copy, copy', t.version, read, read');
      if IsPair(fs[j], fs[i]) && IsPointed(read, fs[i]) {
        PairIsDone(fs, i, j, info, copy', t, built, read);
      } else if fs[j].Integer? && IsAwaited(fs, i, j, read) {
        var e :| i <= e < |fs| && IsWaitingFor(fs, j, e, read);
        KeyIsKnown(fs, i, j, e);
        StillPointed(fs, i, e, read, read');
        assert IsWaitingFor(fs, j, e, read');
      } else {
        OthersAreFramed(fs, i, j, copy, copy', read, t.version);
        StringIsPlain(fs, j);
        RestoredStays(fs[j], info, copy, copy', t, built);
      }
    }
  }

  lemma StringIsPlain(fs: seq<Field>, j: nat)
    requires j < |fs| && AreStringsPlain(fs)
    ensures fs[j].String? && fs[j].codec.decode.None? ==> fs[j].writes == {fs[j].member.id}
  {
  }

  /** A field which points at an extended one still to be read goes on doing so. */
  lemma PointingStays(fs: seq<Field>, i: nat, j: nat, copy: Info, copy': Info, version: Version, read: seq<Choice>,
                      read': seq<Choice>)
    requires j < i < |fs| && IsDefined(fs[i], version) && IsDefined(fs[j], version) && AreFieldsOk(fs, version)
    requires IsFramed(fs[i], copy, copy', read) && AreChoicesFramed(fs[i], read, read')
    requires fs[j].Integer? ==> ArePointing(fs, i, j, copy, read)
    ensures fs[j].Integer? ==> ArePointing(fs, i + 1, j, copy', read')
  {
    hide AreFieldsOk, AreApart, AreNamedIntegers, IsPointed, AreChoicesFramed, IsUnread, IsPointing, IsFramed;
    hide AreNamedOnce, AreGovernedAfter, AreExtendedOnce;
    ListIsOk(fs, version);
    var next := i + 1;
    if fs[j].Integer? {
      forall e | next <= e < |fs| && IsWaitingFor(fs, j, e, read')
        ensures IsPointing(fs[j], copy', fs[e].whenRaw)
      {
        KeyIsKnown(fs, i, j, e);
        StillPointed(fs, i, e, read, read');
        assert IsWaitingFor(fs, j, e, read);
        NoOtherPair(fs, i, j, e);
        OthersAreFramed(fs, i, j, copy, copy', read, version);
        SamePointing(fs[j], copy, copy', fs[e].whenRaw);
      }
    }
  }

  lemma NoOtherPair(fs: seq<Field>, i: nat, j: nat, e: nat)
    requires i < e < |fs| && j < |fs| && IsPair(fs[j], fs[e]) && AreExtendedOnce(fs)
    ensures !IsPair(fs[j], fs[i])
  {
  }

  lemma SamePointing(f: Field, copy: Info, copy': Info, whenRaw: nat)
    requires IsPointing(f, copy, whenRaw) && forall k | k in Writes(f) :: IsSameAt(copy', copy, k)
    ensures IsPointing(f, copy', whenRaw)
  {
    hide Apply, Pow256;
  }

  lemma OthersAreFramed(fs: seq<Field>, i: nat, j: nat, copy: Info, copy': Info, read: seq<Choice>, version: Version)
    requires j < i < |fs| && IsDefined(fs[i], version) && IsDefined(fs[j], version) && AreApart(fs, version)
    requires IsFramed(fs[i], copy, copy', read) && !(IsPair(fs[j], fs[i]) && IsPointed(read, fs[i]))
    ensures forall k | k in Writes(fs[j]) :: IsSameAt(copy', copy, k)
  {
    hide IsPointed;
    assert IsPair(fs[j], fs[i]) || Writes(fs[j]) !! Writes(fs[i]);
  }

  lemma FieldIsDone(fs: seq<Field>, i: nat, info: Info, copy: Info, copy': Info, t: E.Target,
                    built: seq<Option<seq<Byte>>>, read: seq<Choice>, read': seq<Choice>, group: Option<Member>)
    requires IsField(fs, i, t.version) && AreFieldsOk(fs, t.version) && ArePairsPortable(fs) && AreStringsPlain(fs)
    requires AreDone(fs, i, info, copy, t, built, read, group)
    requires IsFramed(fs[i], copy, copy', read) && AreChoicesFramed(fs[i], read, read')
    requires IsDoneNow(fs, i, info, copy', t, built, read') && (IsExtended(fs[i]) ==> read' == read)
    ensures AreDone(fs, i + 1, info, copy', t, built, read', group)
  {
    hide AreFieldsOk, AreNamedIntegers, ArePairsPortable, IsFramed, AreChoicesFramed, IsDone, AreApart, AreNamedOnce;
    hide AreGovernedAfter, IsDoneNow, AreStringsPlain;
    ListIsOk(fs, t.version);
    var next := i + 1;
    forall j | 0 <= j < i
      ensures IsDone(fs, next, j, info, copy', t, built, read', group)
    {
      assert IsDone(fs, i, j, info, copy, t, built, read, group);
      EarlierStaysDone(fs, i, j, info, copy, copy', t, built, read, read', group);
    }
    LatestIsDone(fs, i, info, copy', t, built, read', group);
  }

  lemma LatestIsDone(fs: seq<Field>, i: nat, info: Info, copy: Info, t: E.Target, built: seq<Option<seq<Byte>>>,
                     read: seq<Choice>, group: Option<Member>)
    requires i < |fs| && IsDoneNow(fs, i, info, copy, t, built, read) && AreNamedIntegers(fs)
    ensures IsDone(fs, i + 1, i, info, copy, t, built, read, group)
  {
    hide IsRestored, IsPlainRestored, AreNamedIntegers, IsAwaited, ArePointing;
    if fs[i].Integer? && !fs[i].extended {
      PlainIsDone(fs, i, info, copy, t, built, read, group);
    }
  }

  // What is read back of a structure

  /** The value of a plain field is carried by an extended one, in a group which is not read. */
  ghost predicate IsGivenUp(fs: seq<Field>, end: nat, j: nat, e: nat, info: Info)
    requires j < |fs| && e < |fs|
  {
    end <= e && IsPair(fs[j], fs[e]) && IsWidened(fs, WhenKey(fs[e]), fs[e].whenRaw, info)
  }

  /**
   The fields before an end have been read back, or point at extended ones
   behind it.
   */
  ghost predicate AreBack(fs: seq<Field>, end: nat, info: Info, copy: Info, t: E.Target,
                          built: seq<Option<seq<Byte>>>) {
    forall j | 0 <= j < end && j < |fs| && IsDefined(fs[j], t.version) && !IsExtended(fs[j]) ::
      && (forall e | 0 <= e < |fs| && IsGivenUp(fs, end, j, e, info) :: IsPointing(fs[j], copy, fs[e].whenRaw))
      && ((exists e :: 0 <= e < |fs| && IsGivenUp(fs, end, j, e, info))
          || IsRestored(fs[j], info, copy, t.strings, built, t.version))
  }

  /** What a list of fields is read back with, and where the decoder stands then. */
  ghost predicate IsListBack(src: D.Source, r: D.Outcome, x: seq<Byte>, b: nat, fs: seq<Field>, end: nat, info: Info,
                             t: E.Target, built: seq<Option<seq<Byte>>>, w: E.Writing, top: bool) {
    && r.ok && !r.st.lost && !r.st.short && AreBack(fs, end, info, r.info, t, built)
    && (top || (!w.stopped && IsAt(src, r.st, x, b, w)))
  }

  /** What is taken of a list and its values. */
  ghost predicate IsListOk(fs: seq<Field>, info: Info, version: Version, top: bool) {
    IsWellFormed(fs, version) && IsPortable(fs, version, top) && AreFaithful(fs, info, version)
  }

  lemma {:induction false} ListRound(src: D.Source, st: D.Reading, x: seq<Byte>, b: nat, t: E.Target, w: E.Writing,
                                     fs: seq<Field>, info: Info, copy: Info, built: seq<Option<seq<Byte>>>,
                                     top: bool, last: bool)
    requires IsRound(src, x, b, t, built) && IsAt(src, st, x, b, w) && IsShut(w) && !w.stopped
    requires IsListOk(fs, info, t.version, top) && !st.lost && !st.short
    requires E.EncodeList(t, w, fs, info).Some?
    requires var w' := E.EncodeList(t, w, fs, info).value;
      IsAhead(w', x) && w'.strings <= built && (top ==> |x| == |w'.out|)
    ensures IsListBack(src, D.DecodeList(src, fs, st, copy, last), x, b, fs, EndOf(fs, 0, info, t.version), info, t,
      built,
                       E.EncodeList(t, w, fs, info).value, top)
    decreases fs, 4
  {
    hide IsListOk, IsAt, IsAhead, IsShut, D.DecodeFrom, E.EncodeFrom, IsListBack, IsRound, D.IsLater, AreChoicesAt;
    var choices := Collect(fs);
    RoundIsValid(src, x, b, t, built);
    ListOk(fs, info, t.version, top);
    StartsMatched(fs, info, src.version);
    AtIsSteady(src, st, x, b, w);
    ShutIsSteady(w);
    FromRound(src, st, x, b, t, w, fs, 0, info, PresetsFrom(fs, 0, copy), choices, choices, built, None, top, last);
  }

  lemma ListOk(fs: seq<Field>, info: Info, version: Version, top: bool)
    requires IsListOk(fs, info, version, top)
    ensures IsWellFormed(fs, version) && IsPortable(fs, version, top) && AreFaithful(fs, info, version)
    ensures AreFieldsOk(fs, version) && AreRunsOk(fs, 0, 0, version) && ArePairsPortable(fs)
    ensures AreStringsPlain(fs)
  {
    hide AreFaithful, ArePairsPortable;
    forall j | 0 <= j < |fs| && fs[j].String? && fs[j].codec.decode.None?
      ensures fs[j].writes == {fs[j].member.id}
    {
      assert IsFieldPortable(fs, j, version, top);
    }
  }

  lemma ShutIsSteady(w: E.Writing)
    requires IsShut(w)
    ensures IsSteady(w) && w.taken == 0
  {
  }

  lemma StartsMatched(fs: seq<Field>, info: Info, version: Version)
    requires AreFieldsOk(fs, version)
    ensures AreChoicesAt(fs, 0, info, Collect(fs), Collect(fs))
  {
    hide AreFieldsOk, AreNamedIntegers, AreKeyed, AreOf;
    ListIsOk(fs, version);
    NoneOf(fs);
    CollectedAreOf(fs, 0, []);
    NothingIsRead(fs, Collect(fs));
    NothingIsWidened(fs, info, Collect(fs));
  }

  lemma NoneOf(fs: seq<Field>)
    ensures AreOf(fs, [])
  {
  }

  lemma NothingIsWidened(fs: seq<Field>, info: Info, choices: seq<Choice>)
    requires AreKeyed(fs) && AreOf(fs, choices)
    ensures AreWidened(fs, 0, info, choices)
  {
    forall c | 0 <= c < |choices|
      ensures IsUnread(fs, 0, choices[c].key)
    {
      assert IsOf(fs, choices[c]);
    }
  }

  /** Nothing waits for a field which is no extended one. */
  lemma DoneStays(fs: seq<Field>, i: nat, info: Info, copy: Info, t: E.Target, built: seq<Option<seq<Byte>>>,
                  read: seq<Choice>, group: Option<Member>, group': Option<Member>)
    requires i < |fs| && !IsExtended(fs[i]) && AreDone(fs, i, info, copy, t, built, read, group)
    requires group == group' || group.None?
    requires IsDone(fs, i + 1, i, info, copy, t, built, read, group')
    ensures AreDone(fs, i + 1, info, copy, t, built, read, group')
  {
    hide IsPointed;
    var next := i + 1;
    forall j | 0 <= j < i
      ensures IsDone(fs, next, j, info, copy, t, built, read, group')
    {
      StillDone(fs, i, j, info, copy, t, built, read, group, group');
    }
  }

  lemma StillDone(fs: seq<Field>, i: nat, j: nat, info: Info, copy: Info, t: E.Target, built: seq<Option<seq<Byte>>>,
                  read: seq<Choice>, group: Option<Member>, group': Option<Member>)
    requires j < i < |fs| && !IsExtended(fs[i]) && IsDone(fs, i, j, info, copy, t, built, read, group)
    requires group == group' || group.None?
    ensures IsDone(fs, i + 1, j, info, copy, t, built, read, group')
  {
    hide IsPointed, IsRestored, IsPointing;
    if fs[j].Integer? && IsAwaited(fs, i, j, read) {
      var e :| i <= e < |fs| && IsWaitingFor(fs, j, e, read);
      assert i + 1 <= e;
    } else if fs[j].Group? && fs[j].present.None? {
      NoMarkNeeded(fs[j], info, copy, t, built);
    }
  }

  lemma NoMarkNeeded(f: Field, info: Info, copy: Info, t: E.Target, built: seq<Option<seq<Byte>>>)
    requires f.Group? && f.present.None?
    ensures IsRestored(f, info, copy, t.strings, built, t.version)
  {
  }

  /** Once a group is marked, all of the fields before are done. */
  lemma MarkIsDone(fs: seq<Field>, i: nat, info: Info, copy: Info, t: E.Target, built: seq<Option<seq<Byte>>>,
                   read: seq<Choice>, group: Option<Member>, top: bool)
    requires i <= |fs| && AreFieldsOk(fs, t.version) && IsListOk(fs, info, t.version, top)
      && IsGroupBefore(fs, i, group)
    requires AreDone(fs, i, info, copy, t, built, read, group)
    ensures D.MarkGroup(group, copy).Some?
    ensures AreDone(fs, i, info, D.MarkGroup(group, copy).value, t, built, read, None)
  {
    hide AreFieldsOk, IsListOk, IsGroupBefore, IsDone, D.MarkGroup;
    MarkIsMade(fs, i, info, copy, t.version, group, top);
    var marked := D.MarkGroup(group, copy).value;
    forall j | 0 <= j < i
      ensures IsDone(fs, i, j, info, marked, t, built, read, None)
    {
      assert IsDone(fs, i, j, info, copy, t, built, read, group);
      MarkedIsDone(fs, i, j, info, copy, t, built, read, group, top);
    }
  }

  lemma MarkIsMade(fs: seq<Field>, i: nat, info: Info, copy: Info, version: Version, group: Option<Member>, top: bool)
    requires i <= |fs| && IsListOk(fs, info, version, top) && IsGroupBefore(fs, i, group)
    ensures D.MarkGroup(group, copy).Some?
    ensures group.Some? ==> Load(D.MarkGroup(group, copy).value, group.value) == 1
    ensures forall k | group.None? || k != group.value.id :: IsSameAt(D.MarkGroup(group, copy).value, copy, k)
  {
    hide IsWellFormed, AreFaithful, ArePairsPortable;
    if group.Some? {
      var g :| 0 <= g < i && g < |fs| && fs[g].Group? && fs[g].present == group;
      assert IsFieldPortable(fs, g, version, top);
      OneByte(group.value.size);
    }
  }

  lemma OneByte(size: nat)
    requires size > 0
    ensures 1 % Pow256(size) == 1
  {
    SmallModulo(1, Pow256(size));
  }

  lemma MarkedIsDone(fs: seq<Field>, i: nat, j: nat, info: Info, copy: Info, t: E.Target,
                     built: seq<Option<seq<Byte>>>, read: seq<Choice>, group: Option<Member>, top: bool)
    requires j < i <= |fs| && AreFieldsOk(fs, t.version) && IsListOk(fs, info, t.version, top)
    requires IsGroupBefore(fs, i, group) && IsDone(fs, i, j, info, copy, t, built, read, group)
    ensures D.MarkGroup(group, copy).Some?
    ensures IsDone(fs, i, j, info, D.MarkGroup(group, copy).value, t, built, read, None)
  {
    hide AreFieldsOk, IsListOk, D.MarkGroup, IsAwaited, AreApart;
    hide AreNamedIntegers, IsGroupBefore, IsRestored, IsPointing;
    hide AreStringsPlain, IsWaitingFor;
    MarkIsMade(fs, i, info, copy, t.version, group, top);
    ListIsOk(fs, t.version);
    ListOk(fs, info, t.version, top);
    var marked := D.MarkGroup(group, copy).value;
    if fs[j].Group? && fs[j].present == group {
      MarkedIsRestored(fs[j], info, marked, t, built);
    } else if IsDefined(fs[j], t.version) && !IsExtended(fs[j]) {
      MarkIsApart(fs, i, j, group, t.version);
      forall k | k in Writes(fs[j])
        ensures IsSameAt(marked, copy, k)
      {
      }
      if fs[j].Integer? {
        PointingUnmarked(fs, i, j, copy, marked, read);
      }
      if IsRestored(fs[j], info, copy, t.strings, built, t.version) {
        StringIsPlain(fs, j);
        RestoredStays(fs[j], info, copy, marked, t, built);
      }
    }
  }

  lemma PointingUnmarked(fs: seq<Field>, i: nat, j: nat, copy: Info, copy': Info, read: seq<Choice>)
    requires j < |fs| && ArePointing(fs, i, j, copy, read) && forall k | k in Writes(fs[j]) :: IsSameAt(copy', copy, k)
    ensures ArePointing(fs, i, j, copy', read)
  {
    hide IsPointing, IsPointed;
    forall e | i <= e < |fs| && IsWaitingFor(fs, j, e, read)
      ensures IsPointing(fs[j], copy', fs[e].whenRaw)
    {
      SamePointing(fs[j], copy, copy', fs[e].whenRaw);
    }
  }

  lemma MarkedIsRestored(f: Field, info: Info, copy: Info, t: E.Target, built: seq<Option<seq<Byte>>>)
    requires f.Group? && (f.present.Some? ==> Load(copy, f.present.value) == 1)
    ensures IsRestored(f, info, copy, t.strings, built, t.version)
  {
  }

  lemma MarkIsApart(fs: seq<Field>, i: nat, j: nat, group: Option<Member>, version: Version)
    requires j < i <= |fs| && IsDefined(fs[j], version) && !(fs[j].Group? && fs[j].present == group)
    requires AreApart(fs, version) && AreNamedIntegers(fs) && IsGroupBefore(fs, i, group)
    ensures group.Some? ==> group.value.id !in Writes(fs[j])
  {
    if group.Some? {
      var g :| 0 <= g < i && g < |fs| && fs[g].Group? && fs[g].present == group;
      assert !IsNamedBy(fs[g], fs[j]);
      if g < j {
        assert IsPair(fs[g], fs[j]) || Writes(fs[g]) !! Writes(fs[j]);
        assert group.value.id in Writes(fs[g]);
      } else {
        assert IsPair(fs[j], fs[g]) || Writes(fs[j]) !! Writes(fs[g]);
        assert group.value.id in Writes(fs[g]);
      }
    }
  }

  /** Whether a plain field points at its extended one is told by the values, once it has been read. */
  lemma PointedByValues(fs: seq<Field>, i: nat, j: nat, e: nat, info: Info, read: seq<Choice>, written: seq<Choice>)
    requires j < i <= |fs| && e < |fs| && IsPair(fs[j], fs[e]) && AreChoicesOk(fs) && ArePairsPortable(fs)
    requires AreChoicesAt(fs, i, info, read, written)
    ensures IsPointed(read, fs[e]) <==> IsWidened(fs, WhenKey(fs[e]), fs[e].whenRaw, info)
  {
    hide AreWidened, IsWidened, IsTotal, AreOf, AreMatched, IsUnread, AreKeyed, AreSameKeys, AreChoicesAt;
    hide AreNamedIntegers, AreNamedOnce, AreExtendedOnce, AreGovernedAfter, AreGovernorsFree;
    ChoicesAre(fs, i, info, read, written);
    SameKeysFindFrom(Collect(fs), read, WhenKey(fs[e]), 0);
    SameKeysFindFrom(read, written, WhenKey(fs[e]), 0);
    PairIsTotal(fs, j, e);
    KeyIsKnown(fs, i, j, e);
    ChoiceOfExtended(fs, e, read);
    ChosenByValues(fs, i, info, read, written, Find(read, WhenKey(fs[e])).value);
  }

  lemma ChosenByValues(fs: seq<Field>, i: nat, info: Info, read: seq<Choice>, written: seq<Choice>, c: nat)
    requires AreMatched(fs, i, read, written) && AreWidened(fs, i, info, written) && c < |read|
    requires !IsUnread(fs, i, read[c].key)
    ensures read[c].raw == read[c].whenRaw <==> IsWidened(fs, read[c].key, read[c].whenRaw, info)
  {
    hide IsWidened, IsUnread;
  }

  lemma AllAreBack(fs: seq<Field>, i: nat, info: Info, copy: Info, t: E.Target, built: seq<Option<seq<Byte>>>,
                   read: seq<Choice>, written: seq<Choice>)
    requires i <= |fs| && AreDone(fs, i, info, copy, t, built, read, None)
    requires AreFieldsOk(fs, t.version) && ArePairsPortable(fs) && AreChoicesAt(fs, i, info, read, written)
    ensures AreBack(fs, i, info, copy, t, built)
  {
    hide IsRestored, IsWidened, IsPointing, AreFieldsOk, ArePairsPortable, AreChoicesAt, IsDone;
    forall j | 0 <= j < i && IsDefined(fs[j], t.version) && !IsExtended(fs[j])
      ensures forall e | 0 <= e < |fs| && IsGivenUp(fs, i, j, e, info) :: IsPointing(fs[j], copy, fs[e].whenRaw)
      ensures (exists e :: 0 <= e < |fs| && IsGivenUp(fs, i, j, e, info))
              || IsRestored(fs[j], info, copy, t.strings, built, t.version)
    {
      assert IsDone(fs, i, j, info, copy, t, built, read, None);
      OneIsBack(fs, i, j, info, copy, t, built, read, written);
    }
  }

  lemma OneIsBack(fs: seq<Field>, i: nat, j: nat, info: Info, copy: Info, t: E.Target, built: seq<Option<seq<Byte>>>,
                  read: seq<Choice>, written: seq<Choice>)
    requires j < i <= |fs| && IsDone(fs, i, j, info, copy, t, built, read, None)
    requires IsDefined(fs[j], t.version) && !IsExtended(fs[j])
    requires AreFieldsOk(fs, t.version) && ArePairsPortable(fs) && AreChoicesAt(fs, i, info, read, written)
    ensures forall e | 0 <= e < |fs| && IsGivenUp(fs, i, j, e, info) :: IsPointing(fs[j], copy, fs[e].whenRaw)
    ensures (exists e :: 0 <= e < |fs| && IsGivenUp(fs, i, j, e, info))
            || IsRestored(fs[j], info, copy, t.strings, built, t.version)
  {
    hide IsRestored, IsPointing, AreFieldsOk, ArePairsPortable, AreChoicesAt;
    hide IsWidened, IsPointed, AreNamedOnce, AreKeyed;
    hide AreExtendedOnce, AreGovernedAfter, AreGovernorsFree, AreApart, IsSpellable, AreChoicesOk;
    ListIsOk(fs, t.version);
    forall e | 0 <= e < |fs| && IsPair(fs[j], fs[e])
      ensures fs[j].Integer? && (IsPointed(read, fs[e]) <==> IsWidened(fs, WhenKey(fs[e]), fs[e].whenRaw, info))
    {
      assert IsNamedBy(fs[j], fs[e]);
      PointedByValues(fs, i, j, e, info, read, written);
    }
    if fs[j].Group? && fs[j].present.None? {
      NoMarkNeeded(fs[j], info, copy, t, built);
    }
    if fs[j].Integer? && IsAwaited(fs, i, j, read) {
      var e :| i <= e < |fs| && IsWaitingFor(fs, j, e, read);
      assert IsGivenUp(fs, i, j, e, info);
    }
  }

  lemma {:induction false} FromRound(src: D.Source, st: D.Reading, x: seq<Byte>, b: nat, t: E.Target, w: E.Writing,
                                     fs: seq<Field>, i: nat, info: Info, copy: Info, read: seq<Choice>,
                                     written: seq<Choice>, built: seq<Option<seq<Byte>>>, group: Option<Member>,
                                     top: bool, last: bool)
    requires IsRound(src, x, b, t, built) && IsAt(src, st, x, b, w) && !w.stopped
    requires i <= |fs| && IsListOk(fs, info, t.version, top) && !st.lost && !st.short
    requires AreRunsOk(fs, i, w.taken, t.version) && IsGroupBefore(fs, i, group)
    requires EndOf(fs, i, info, t.version) == EndOf(fs, 0, info, t.version)
    requires AreChoicesAt(fs, i, info, read, written) && AreDone(fs, i, info, copy, t, built, read, group)
    requires E.EncodeFrom(t, w, fs, i, info, written).Some?
    requires var w' := E.EncodeFrom(t, w, fs, i, info, written).value;
      IsAhead(w', x) && w'.strings <= built && (top ==> |x| == |w'.out|)
    ensures IsListBack(src, D.DecodeFrom(src, fs, i, st, copy, read, group, last), x, b, fs,
                       EndOf(fs, i, info, t.version), info, t, built,
                       E.EncodeFrom(t, w, fs, i, info, written).value, top)
    decreases fs, 3, |fs| - i, 1
  {
    hide IsRound, IsAt, IsListOk, AreRunsOk, IsGroupBefore, AreChoicesAt, AreDone, E.EncodeFrom, D.DecodeFrom, IsAhead;
    hide IsListBack, D.IsLater, EndOf;
    RoundIsValid(src, x, b, t, built);
    if i == |fs| {
      EndRound(src, st, x, b, t, w, fs, info, copy, read, written, built, group, top, last);
    } else if fs[i].Group? {
      GroupRound(src, st, x, b, t, w, fs, i, info, copy, read, written, built, group, top, last);
    } else if IsField(fs, i, t.version) {
      FieldRound(src, st, x, b, t, w, fs, i, info, copy, read, written, built, group, top, last);
    } else {
      PassRound(src, st, x, b, t, w, fs, i, info, copy, read, written, built, group, top, last);
    }
  }

  lemma EndRound(src: D.Source, st: D.Reading, x: seq<Byte>, b: nat, t: E.Target, w: E.Writing,
                 fs: seq<Field>, info: Info, copy: Info, read: seq<Choice>, written: seq<Choice>,
                 built: seq<Option<seq<Byte>>>, group: Option<Member>, top: bool, last: bool)
    requires IsRound(src, x, b, t, built) && IsAt(src, st, x, b, w) && !w.stopped
    requires IsListOk(fs, info, t.version, top) && !st.lost && !st.short && IsGroupBefore(fs, |fs|, group)
    requires AreDone(fs, |fs|, info, copy, t, built, read, group) && AreChoicesAt(fs, |fs|, info, read, written)
    ensures E.EncodeFrom(t, w, fs, |fs|, info, written) == Some(w)
    ensures IsListBack(src, D.DecodeFrom(src, fs, |fs|, st, copy, read, group, last), x, b, fs,
                       EndOf(fs, |fs|, info, t.version), info, t, built, w, top)
  {
    hide IsAt, IsListOk, IsGroupBefore, AreDone, D.IsLater, AreFieldsOk, IsRound, D.MarkGroup, AreBack, AreChoicesAt;
    hide AreStringsPlain, ArePairsPortable;
    RoundIsValid(src, x, b, t, built);
    ListOk(fs, info, t.version, top);
    MarkIsDone(fs, |fs|, info, copy, t, built, read, group, top);
    AllAreBack(fs, |fs|, info, D.MarkGroup(group, copy).value, t, built, read, written);
  }

  /** Fields which occupy no bits. */
  lemma {:induction false} PassRound(src: D.Source, st: D.Reading, x: seq<Byte>, b: nat, t: E.Target, w: E.Writing,
                                     fs: seq<Field>, i: nat, info: Info, copy: Info, read: seq<Choice>,
                                     written: seq<Choice>, built: seq<Option<seq<Byte>>>, group: Option<Member>,
                                     top: bool, last: bool)
    requires IsRound(src, x, b, t, built) && IsAt(src, st, x, b, w) && !w.stopped
    requires i < |fs| && IsListOk(fs, info, t.version, top) && !st.lost && !st.short
    requires !fs[i].Group? && !IsField(fs, i, t.version)
    requires AreRunsOk(fs, i, w.taken, t.version) && IsGroupBefore(fs, i, group)
    requires EndOf(fs, i, info, t.version) == EndOf(fs, 0, info, t.version)
    requires AreChoicesAt(fs, i, info, read, written) && AreDone(fs, i, info, copy, t, built, read, group)
    requires E.EncodeFrom(t, w, fs, i, info, written).Some?
    requires var w' := E.EncodeFrom(t, w, fs, i, info, written).value;
      IsAhead(w', x) && w'.strings <= built && (top ==> |x| == |w'.out|)
    ensures IsListBack(src, D.DecodeFrom(src, fs, i, st, copy, read, group, last), x, b, fs,
                       EndOf(fs, i, info, t.version), info, t, built,
                       E.EncodeFrom(t, w, fs, i, info, written).value, top)
    decreases fs, 3, |fs| - i, 0
  {
    hide IsRound, IsAt, IsListOk, AreRunsOk, IsGroupBefore, AreChoicesAt, AreDone, E.EncodeFrom, D.DecodeFrom, IsAhead;
    hide IsListBack, D.IsLater, AreFieldsOk, IsDone, EndOf;
    RoundIsValid(src, x, b, t, built);
    ListOk(fs, info, t.version, top);
    PassBoth(src, st, x, b, t, w, fs, i, info, copy, read, written, group, last);
    PassChoices(fs, i, info, read, written, t.version);
    PassDone(fs, i, info, copy, t, built, read, group);
    DoneStays(fs, i, info, copy, t, built, read, group, group);
    GroupStaysBefore(fs, i, group);
    FromRound(src, st, x, b, t, w, fs, i + 1, info, copy, read, written, built, group, top, last);
  }

  lemma PassDone(fs: seq<Field>, i: nat, info: Info, copy: Info, t: E.Target, built: seq<Option<seq<Byte>>>,
                 read: seq<Choice>, group: Option<Member>)
    requires i < |fs| && !fs[i].Group? && !IsField(fs, i, t.version)
    ensures IsDone(fs, i + 1, i, info, copy, t, built, read, group)
  {
  }

  lemma PassChoices(fs: seq<Field>, i: nat, info: Info, read: seq<Choice>, written: seq<Choice>, version: Version)
    requires i < |fs| && !IsExtended(fs[i]) && !fs[i].Integer? && AreFieldsOk(fs, version)
    requires AreChoicesAt(fs, i, info, read, written)
    ensures AreChoicesAt(fs, i + 1, info, read, written)
  {
    hide AreFieldsOk, AreNamedIntegers, AreOf, AreWidened, AreChoicesAt, AreMatched;
    ListIsOk(fs, version);
    ChoicesAre(fs, i, info, read, written);
    OnlyIntegersAreNamed(fs, i, read);
    ChoicesAfterOther(fs, i, info, read, written);
  }

  lemma PassBoth(src: D.Source, st: D.Reading, x: seq<Byte>, b: nat, t: E.Target, w: E.Writing, fs: seq<Field>, i: nat,
                 info: Info, copy: Info, read: seq<Choice>, written: seq<Choice>, group: Option<Member>, last: bool)
    requires src.Valid() && t.Valid() && t.version == src.version && IsAt(src, st, x, b, w) && !w.stopped
    requires i < |fs| && !fs[i].Group? && !IsField(fs, i, t.version) && AreRunsOk(fs, i, w.taken, t.version)
    requires E.EncodeFrom(t, w, fs, i, info, written).Some?
    ensures E.EncodeFrom(t, w, fs, i, info, written) == E.EncodeFrom(t, w, fs, i + 1, info, written)
    ensures D.DecodeFrom(src, fs, i, st, copy, read, group, last)
      == D.DecodeFrom(src, fs, i + 1, st, copy, read, group, last)
    ensures AreRunsOk(fs, i + 1, w.taken, t.version) && !fs[i].Integer? && !IsExtended(fs[i])
    ensures EndOf(fs, i, info, t.version) == EndOf(fs, i + 1, info, t.version)
  {
    hide IsAt, D.IsLater;
    if fs[i].Offset? {
      AtIsSteady(src, st, x, b, w);
      StandsBehind(src, st, x, b, w);
    }
  }

  /** A group ends the structure on both sides, or on none of them. */
  lemma {:induction false} GroupRound(src: D.Source, st: D.Reading, x: seq<Byte>, b: nat, t: E.Target, w: E.Writing,
                                      fs: seq<Field>, i: nat, info: Info, copy: Info, read: seq<Choice>,
                                      written: seq<Choice>, built: seq<Option<seq<Byte>>>, group: Option<Member>,
                                      top: bool, last: bool)
    requires IsRound(src, x, b, t, built) && IsAt(src, st, x, b, w) && !w.stopped
    requires i < |fs| && IsListOk(fs, info, t.version, top) && !st.lost && !st.short && fs[i].Group?
    requires AreRunsOk(fs, i, w.taken, t.version) && IsGroupBefore(fs, i, group)
    requires EndOf(fs, i, info, t.version) == EndOf(fs, 0, info, t.version)
    requires AreChoicesAt(fs, i, info, read, written) && AreDone(fs, i, info, copy, t, built, read, group)
    requires E.EncodeFrom(t, w, fs, i, info, written).Some?
    requires var w' := E.EncodeFrom(t, w, fs, i, info, written).value;
      IsAhead(w', x) && w'.strings <= built && (top ==> |x| == |w'.out|)
    ensures IsListBack(src, D.DecodeFrom(src, fs, i, st, copy, read, group, last), x, b, fs,
                       EndOf(fs, i, info, t.version), info, t, built,
                       E.EncodeFrom(t, w, fs, i, info, written).value, top)
    decreases fs, 3, |fs| - i, 0
  {
    hide IsRound, IsAt, IsListOk, AreRunsOk, IsGroupBefore, AreChoicesAt, AreDone, E.EncodeFrom, D.DecodeFrom, IsAhead;
    hide IsListBack, D.IsLater, AreFieldsOk, IsDone, D.MarkGroup, EndOf, IsLeftOut, D.Enter;
    RoundIsValid(src, x, b, t, built);
    ListOk(fs, info, t.version, top);
    OnlyTopHasGroups(fs, i, t.version, top);
    MarkIsDone(fs, i, info, copy, t, built, read, group, top);
    var marked := D.MarkGroup(group, copy).value;
    if IsLeftOut(fs[i], info, t.version) || !CarriesFrom(fs, i + 1, info, t.version) {
      LastRound(src, st, x, b, t, w, fs, i, info, copy, read, written, built, group, top, last);
    } else {
      EnterBoth(src, st, x, b, t, w, fs, i, info, copy, read, written, group, top, last);
      PassChoices(fs, i, info, read, written, t.version);
      EnterDone(fs, i, info, marked, t, built, read);
      DoneStays(fs, i, info, marked, t, built, read, None, fs[i].present);
      EnterGroup(fs, i);
      FromRound(src, D.Enter(st, fs[i].since), x, b, t, w, fs, i + 1, info, marked, read, written, built,
                fs[i].present, top, last);
    }
  }

  lemma EnterGroup(fs: seq<Field>, i: nat)
    requires i < |fs| && fs[i].Group?
    ensures IsGroupBefore(fs, i + 1, fs[i].present)
  {
  }

  lemma EnterDone(fs: seq<Field>, i: nat, info: Info, copy: Info, t: E.Target, built: seq<Option<seq<Byte>>>,
                  read: seq<Choice>)
    requires i < |fs| && fs[i].Group?
    ensures IsDone(fs, i + 1, i, info, copy, t, built, read, fs[i].present)
  {
    hide IsRestored;
  }

  /** Behind a group which is left out, or which has no data, there is nothing to read. */
  lemma LastRound(src: D.Source, st: D.Reading, x: seq<Byte>, b: nat, t: E.Target, w: E.Writing, fs: seq<Field>,
                  i: nat, info: Info, copy: Info, read: seq<Choice>, written: seq<Choice>,
                  built: seq<Option<seq<Byte>>>, group: Option<Member>, top: bool, last: bool)
    requires IsRound(src, x, b, t, built) && IsAt(src, st, x, b, w) && !w.stopped && !st.lost && !st.short
    requires i < |fs| && fs[i].Group? && top && AreRunsOk(fs, i, w.taken, t.version)
    requires IsWellFormed(fs, t.version) && IsPortable(fs, t.version, top)
    requires IsLeftOut(fs[i], info, t.version) || !CarriesFrom(fs, i + 1, info, t.version)
    requires E.EncodeFrom(t, w, fs, i, info, written).Some?
    requires |x| == |E.EncodeFrom(t, w, fs, i, info, written).value.out|
    requires D.MarkGroup(group, copy).Some? && AreChoicesAt(fs, i, info, read, written)
    requires AreDone(fs, i, info, D.MarkGroup(group, copy).value, t, built, read, None)
    ensures IsListBack(src, D.DecodeFrom(src, fs, i, st, copy, read, group, last), x, b, fs,
                       EndOf(fs, i, info, t.version), info, t, built,
                       E.EncodeFrom(t, w, fs, i, info, written).value, top)
  {
    hide IsAt, AreDone, D.MarkGroup, D.IsLater, AreBack, IsWellFormed, IsPortable, CarriesFrom, AreChoicesAt, AreRunsOk;
    hide E.EncodeFrom, AreFieldsOk;
    WellFormedFields(fs, i, t.version);
    PairsArePortable(fs, t.version, top);
    AtIsSteady(src, st, x, b, w);
    GroupIsShut(fs, i, w, t.version);
    StandsBehind(src, st, x, b, w);
    DataIsWhole(src, st, x, b, w);
    AllAreBack(fs, i, info, D.MarkGroup(group, copy).value, t, built, read, written);
    NothingFollows(t, w, fs, i, info, written, top);
    LastGives(src, fs, i, st, copy, read, group, last);
  }

  lemma PairsArePortable(fs: seq<Field>, version: Version, top: bool)
    requires IsPortable(fs, version, top)
    ensures ArePairsPortable(fs)
  {
    hide ArePairsPortable, IsFieldPortable;
  }

  lemma GroupIsShut(fs: seq<Field>, i: nat, w: E.Writing, version: Version)
    requires i < |fs| && fs[i].Group? && AreRunsOk(fs, i, w.taken, version) && IsSteady(w)
    ensures IsShut(w) && AreRunsOk(fs, i + 1, w.taken, version)
  {
  }

  lemma NothingFollows(t: E.Target, w: E.Writing, fs: seq<Field>, i: nat, info: Info, written: seq<Choice>, top: bool)
    requires t.Valid() && !t.preserve && IsShut(w) && !w.stopped && i < |fs| && fs[i].Group?
    requires IsWellFormed(fs, t.version) && IsPortable(fs, t.version, top) && AreRunsOk(fs, i + 1, w.taken, t.version)
    requires IsLeftOut(fs[i], info, t.version) || !CarriesFrom(fs, i + 1, info, t.version)
    requires E.EncodeFrom(t, w, fs, i, info, written).Some?
    ensures |E.EncodeFrom(t, w, fs, i, info, written).value.out| == |w.out|
  {
    hide IsWellFormed, IsPortable, CarriesFrom, AreRunsOk;
    if IsLeftOut(fs[i], info, t.version) {
      assert E.EncodeFrom(t, w, fs, i, info, written) == Some(w.(stopped := true));
    } else {
      ShutIsSteady(w);
      FromFlows(t, w, fs, i + 1, info, written, top);
    }
  }

  lemma LastGives(src: D.Source, fs: seq<Field>, i: nat, st: D.Reading, copy: Info, read: seq<Choice>,
                  group: Option<Member>, last: bool)
    requires src.Valid() && i < |fs| && fs[i].Group? && st.pos >= src.end && D.MarkGroup(group, copy).Some?
    ensures D.DecodeFrom(src, fs, i, st, copy, read, group, last)
         == D.Outcome(true, st.(partial := st.partial || !src.part), D.MarkGroup(group, copy).value)
  {
    hide D.MarkGroup, D.IsLater;
  }

  /** A group which is written is followed by data. */
  lemma EnterBoth(src: D.Source, st: D.Reading, x: seq<Byte>, b: nat, t: E.Target, w: E.Writing, fs: seq<Field>, i: nat,
                  info: Info, copy: Info, read: seq<Choice>, written: seq<Choice>, group: Option<Member>,
                  top: bool, last: bool)
    requires src.Valid() && t.Valid() && !t.preserve && t.version == src.version && IsAt(src, st, x, b, w) && !w.stopped
    requires i < |fs| && fs[i].Group? && CarriesFrom(fs, i + 1, info, t.version)
    requires IsWellFormed(fs, t.version) && IsPortable(fs, t.version, top)
    requires AreRunsOk(fs, i, w.taken, t.version) && !IsLeftOut(fs[i], info, t.version)
    requires D.MarkGroup(group, copy).Some?
    requires E.EncodeFrom(t, w, fs, i, info, written).Some?
      && IsAhead(E.EncodeFrom(t, w, fs, i, info, written).value, x)
    ensures E.EncodeFrom(t, w, fs, i, info, written) == E.EncodeFrom(t, w, fs, i + 1, info, written)
    ensures D.DecodeFrom(src, fs, i, st, copy, read, group, last)
         == D.DecodeFrom(src, fs, i + 1, D.Enter(st, fs[i].since), D.MarkGroup(group, copy).value, read,
                         fs[i].present, last)
    ensures IsAt(src, D.Enter(st, fs[i].since), x, b, w) && AreRunsOk(fs, i + 1, w.taken, t.version)
    ensures EndOf(fs, i, info, t.version) == EndOf(fs, i + 1, info, t.version)
    ensures !st.lost && !st.short ==> !D.Enter(st, fs[i].since).lost && !D.Enter(st, fs[i].since).short
  {
    hide D.IsLater, IsWellFormed, IsAhead, D.MarkGroup, StreamOf, IsData, IsPortable, CarriesFrom;
    AtIsSteady(src, st, x, b, w);
    StandsBehind(src, st, x, b, w);
    DataIsWhole(src, st, x, b, w);
    MoreIsThere(t, w, fs, i + 1, info, written, x, top);
  }

  /** Values which carry data make what is written longer. */
  lemma MoreIsThere(t: E.Target, w: E.Writing, fs: seq<Field>, i: nat, info: Info, written: seq<Choice>, x: seq<Byte>,
                    top: bool)
    requires t.Valid() && !t.preserve && IsShut(w) && !w.stopped && IsWellFormed(fs, t.version)
    requires IsPortable(fs, t.version, top) && CarriesFrom(fs, i, info, t.version)
      && AreRunsOk(fs, i, w.taken, t.version)
    requires E.EncodeFrom(t, w, fs, i, info, written).Some?
      && IsAhead(E.EncodeFrom(t, w, fs, i, info, written).value, x)
    ensures |w.out| < |x|
  {
    hide IsWellFormed, StreamOf, E.EncodeFrom, AreRunsOk, IsPortable, CarriesFrom;
    ShutIsSteady(w);
    FromFlows(t, w, fs, i, info, written, top);
  }

  lemma OneIsWritten(t: E.Target, w: E.Writing, fs: seq<Field>, i: nat, info: Info, written: seq<Choice>)
    requires t.Valid() && IsField(fs, i, t.version) && !w.stopped && E.EncodeFrom(t, w, fs, i, info, written).Some?
    ensures E.EncodeOne(t, w, fs, i, info, written).Some?
  {
    hide E.EncodeOne;
  }

  lemma {:induction false} FieldRound(src: D.Source, st: D.Reading, x: seq<Byte>, b: nat, t: E.Target, w: E.Writing,
                                      fs: seq<Field>, i: nat, info: Info, copy: Info, read: seq<Choice>,
                                      written: seq<Choice>, built: seq<Option<seq<Byte>>>, group: Option<Member>,
                                      top: bool, last: bool)
    requires IsRound(src, x, b, t, built) && IsAt(src, st, x, b, w) && !w.stopped
    requires IsListOk(fs, info, t.version, top) && !st.lost && !st.short && IsField(fs, i, t.version)
    requires AreRunsOk(fs, i, w.taken, t.version) && IsGroupBefore(fs, i, group)
    requires EndOf(fs, i, info, t.version) == EndOf(fs, 0, info, t.version)
    requires AreChoicesAt(fs, i, info, read, written) && AreDone(fs, i, info, copy, t, built, read, group)
    requires E.EncodeFrom(t, w, fs, i, info, written).Some?
    requires var w' := E.EncodeFrom(t, w, fs, i, info, written).value;
      IsAhead(w', x) && w'.strings <= built && (top ==> |x| == |w'.out|)
    ensures IsListBack(src, D.DecodeFrom(src, fs, i, st, copy, read, group, last), x, b, fs,
                       EndOf(fs, i, info, t.version), info, t, built,
                       E.EncodeFrom(t, w, fs, i, info, written).value, top)
    decreases fs, 3, |fs| - i, 0
  {
    hide IsRound, IsAt, IsListOk, AreRunsOk, IsGroupBefore, AreChoicesAt, AreDone, E.EncodeFrom, D.DecodeFrom, IsAhead;
    hide IsListBack, D.IsLater, AreFieldsOk, IsWellFormed, E.EncodeOne, D.DecodeOne, IsFaithful, IsFieldPortable;
    hide IsFramed, AreChoicesFramed, IsDoneNow, EndOf, IsPortable, AreFaithful, ArePairsPortable, IsDone;
    RoundIsValid(src, x, b, t, built);
    ListOk(fs, info, t.version, top);
    OneIsWritten(t, w, fs, i, info, written);
    EncodeStep(t, w, fs, i, info, written);
    var (w', written') := E.EncodeOne(t, w, fs, i, info, written).value;
    RestIsAhead(src, st, t, w, fs, i, info, written, x, b, built);
    var atEnd := last && i + 1 == |fs|;
    EndPasses(fs, i, info, t.version);
    var one := D.DecodeOne(src, fs[i], st, copy, read, atEnd);
    FieldOk(fs, i, info, t.version, top);
    if fs[i].Raw? && fs[i].extent.Counted? {
      CountIsHeld(fs, i, info, copy, t, built, read, group, top);
    }
    OneRound(src, st, x, b, t, w, fs, i, info, copy, read, written, built, top, atEnd);
    WhatIsBack(src, st, one, x, b, t, w', fs, i, info, copy, read, written', built);
    OneIsFramed(src, st, fs, i, copy, read, atEnd, t.version);
    FieldIsDone(fs, i, info, copy, one.info, t, built, read, one.choices, group);
    DecodeStepOk(src, fs, i, st, copy, read, group, last);
    GroupStaysBefore(fs, i, group);
    DefinedAt(src, one.st, x, b, w', DefinedFrom(fs[i]));
    FromRound(src, D.Define(one.st, DefinedFrom(fs[i])), x, b, t, w', fs, i + 1, info, one.info, one.choices, written',
              built, group, top, last);
  }

  lemma DefinedAt(src: D.Source, st: D.Reading, x: seq<Byte>, b: nat, w: E.Writing, from: Version)
    requires IsAt(src, st, x, b, w)
    ensures IsAt(src, D.Define(st, from), x, b, w)
    ensures D.Define(st, from).lost == st.lost && D.Define(st, from).short == st.short
  {
  }

  lemma EndPasses(fs: seq<Field>, i: nat, info: Info, version: Version)
    requires i < |fs| && !fs[i].Group?
    ensures EndOf(fs, i, info, version) == EndOf(fs, i + 1, info, version)
  {
  }

  lemma DecodeStepOk(src: D.Source, fs: seq<Field>, i: nat, st: D.Reading, info: Info, read: seq<Choice>,
                     group: Option<Member>, last: bool)
    requires src.Valid() && IsField(fs, i, src.version)
    requires D.DecodeOne(src, fs[i], st, info, read, last && i + 1 == |fs|).ok
    ensures var one := D.DecodeOne(src, fs[i], st, info, read, last && i + 1 == |fs|);
      D.DecodeFrom(src, fs, i, st, info, read, group, last)
      == D.DecodeFrom(src, fs, i + 1, D.Define(one.st, DefinedFrom(fs[i])), one.info, one.choices, group, last)
  {
    hide D.DecodeOne, D.IsLater;
  }

  /** What a field writes is still the beginning of what is written in the end. */
  lemma RestIsAhead(src: D.Source, st: D.Reading, t: E.Target, w: E.Writing, fs: seq<Field>, i: nat, info: Info,
                    written: seq<Choice>, x: seq<Byte>, b: nat, built: seq<Option<seq<Byte>>>)
    requires t.Valid() && !t.preserve && IsWellFormed(fs, t.version) && IsField(fs, i, t.version)
    requires IsAt(src, st, x, b, w) && AreRunsOk(fs, i, w.taken, t.version) && !w.stopped
    requires E.EncodeOne(t, w, fs, i, info, written).Some? && E.EncodeFrom(t, w, fs, i, info, written).Some?
    requires var w' := E.EncodeFrom(t, w, fs, i, info, written).value; IsAhead(w', x) && w'.strings <= built
    ensures var w' := E.EncodeOne(t, w, fs, i, info, written).value.0;
      && IsAhead(w', x) && w'.strings <= built && AreRunsOk(fs, i + 1, w'.taken, t.version)
      && (i + 1 == |fs| ==> E.EncodeFrom(t, w, fs, i, info, written) == Some(w'))
  {
    hide IsWellFormed, E.EncodeOne, StreamOf, E.EncodeFrom, IsAt, AreDistinct;
    AtIsSteady(src, st, x, b, w);
    EncodeStep(t, w, fs, i, info, written);
    OneGrows(t, w, fs, i, info, written);
    var (w', written') := E.EncodeOne(t, w, fs, i, info, written).value;
    FromGrows(t, w', fs, i + 1, info, written');
  }

  lemma FieldOk(fs: seq<Field>, i: nat, info: Info, version: Version, top: bool)
    requires i < EndOf(fs, 0, info, version) && IsListOk(fs, info, version, top) && IsDefined(fs[i], version)
    ensures IsFieldPortable(fs, i, version, top) && IsFaithful(fs, i, info, version)
  {
    hide IsFieldPortable, IsFaithful, IsWellFormed;
  }

  /** Members which count the bytes of a later field have been read back. */
  lemma CountIsHeld(fs: seq<Field>, i: nat, info: Info, copy: Info, t: E.Target, built: seq<Option<seq<Byte>>>,
                    read: seq<Choice>, group: Option<Member>, top: bool)
    requires i < |fs| && fs[i].Raw? && fs[i].extent.Counted? && IsFieldPortable(fs, i, t.version, top)
    requires AreDone(fs, i, info, copy, t, built, read, group)
    ensures IsHeldAt(info, copy, fs[i].extent.counted.id)
  {
    hide IsHeldAt, IsPointed, AreHandlersPlain;
    var k := fs[i].extent.counted.id;
    var j :| 0 <= j < i && j < |fs| && IsDefined(fs[j], t.version) && k in Writes(fs[j])
             && (fs[j].Integer? || fs[j].Bits?) && !IsExtended(fs[j])
             && forall e | 0 <= e < |fs| :: !IsPair(fs[j], fs[e]);
    assert IsDone(fs, i, j, info, copy, t, built, read, group);
  }

  lemma OneIsFramed(src: D.Source, st: D.Reading, fs: seq<Field>, i: nat, copy: Info, read: seq<Choice>, atEnd: bool,
                    version: Version)
    requires src.Valid() && i < |fs| && AreFieldsOk(fs, version)
      && !D.DecodeOne(src, fs[i], st, copy, read, atEnd).st.lost
    ensures var one := D.DecodeOne(src, fs[i], st, copy, read, atEnd);
      IsFramed(fs[i], copy, one.info, read) && AreChoicesFramed(fs[i], read, one.choices)
  {
    hide D.DecodeOne, IsFieldOk, AreApart, AreChoicesOk, IsPointed;
    var one := D.DecodeOne(src, fs[i], st, copy, read, atEnd);
    OneChoices(src, fs[i], st, copy, read, atEnd);
    forall k | k !in Writes(fs[i]) || (IsExtended(fs[i]) && !IsPointed(read, fs[i]))
      ensures IsSameAt(one.info, copy, k)
    {
      OneFrame(src, fs[i], st, copy, read, atEnd, k);
    }
  }

  /** A field has been read back, and the decoder stands behind it. */
  ghost predicate IsOneBack(src: D.Source, st: D.Reading, one: D.Step, x: seq<Byte>, b: nat, t: E.Target, w: E.Writing,
                            fs: seq<Field>, i: nat, info: Info, read: seq<Choice>, written: seq<Choice>,
                            built: seq<Option<seq<Byte>>>)
    requires i < |fs|
  {
    && one.ok && !one.st.lost && !one.st.short && !w.stopped && IsAt(src, one.st, x, b, w)
    && AreChoicesAt(fs, i + 1, info, one.choices, written)
    && IsDoneNow(fs, i, info, one.info, t, built, one.choices) && (IsExtended(fs[i]) ==> one.choices == read)
  }

  lemma WhatIsBack(src: D.Source, st: D.Reading, one: D.Step, x: seq<Byte>, b: nat, t: E.Target, w: E.Writing,
                   fs: seq<Field>, i: nat, info: Info, copy: Info, read: seq<Choice>, written: seq<Choice>,
                   built: seq<Option<seq<Byte>>>)
    requires i < |fs| && IsOneBack(src, st, one, x, b, t, w, fs, i, info, read, written, built)
    ensures one.ok && !one.st.lost && !one.st.short && !w.stopped && IsAt(src, one.st, x, b, w)
    ensures AreChoicesAt(fs, i + 1, info, one.choices, written)
    ensures IsDoneNow(fs, i, info, one.info, t, built, one.choices) && (IsExtended(fs[i]) ==> one.choices == read)
  {
  }

  lemma {:induction false} OneRound(src: D.Source, st: D.Reading, x: seq<Byte>, b: nat, t: E.Target, w: E.Writing,
                                    fs: seq<Field>, i: nat, info: Info, copy: Info, read: seq<Choice>,
                                    written: seq<Choice>, built: seq<Option<seq<Byte>>>, top: bool, atEnd: bool)
    requires IsRound(src, x, b, t, built) && IsAt(src, st, x, b, w) && !w.stopped && !st.lost && !st.short
    requires IsField(fs, i, t.version) && IsListOk(fs, info, t.version, top) && i < EndOf(fs, 0, info, t.version)
    requires AreRunsOk(fs, i, w.taken, t.version) && AreChoicesAt(fs, i, info, read, written)
    requires fs[i].Raw? && fs[i].extent.Counted? ==> IsHeldAt(info, copy, fs[i].extent.counted.id)
    requires E.EncodeOne(t, w, fs, i, info, written).Some?
    requires var w' := E.EncodeOne(t, w, fs, i, info, written).value.0;
      IsAhead(w', x) && w'.strings <= built && (top && i + 1 == |fs| ==> |x| == |w'.out|)
    ensures var (w', written') := E.EncodeOne(t, w, fs, i, info, written).value;
      IsOneBack(src, st, D.DecodeOne(src, fs[i], st, copy, read, atEnd), x, b, t, w', fs, i, info, read, written',
        built)
    decreases fs, 2
  {
    hide IsRound, IsAt, IsListOk, AreRunsOk, AreChoicesAt, IsAhead, D.IsLater, AreFieldsOk, IsWellFormed, E.EncodeOne;
    hide D.DecodeOne, IsFaithful, IsFieldPortable, IsOneBack, IsPortable, AreFaithful, ArePairsPortable, IsHeldAt;
    hide IsFieldOk;
    RoundIsValid(src, x, b, t, built);
    ListOk(fs, info, t.version, top);
    WellFormedFields(fs, i, t.version);
    FieldOk(fs, i, info, t.version, top);
    AtIsSteady(src, st, x, b, w);
    if fs[i].Bits? || fs[i].Pad? {
      RunRound(src, st, x, b, t, w, fs, i, info, copy, read, written, built, top, atEnd);
    } else {
      NoRunOpen(fs, i, w, t.version);
      if IsScalar(fs[i]) {
        ScalarRound(src, st, x, b, t, w, fs, i, info, copy, read, written, built, top, atEnd);
      } else {
        PassChoices(fs, i, info, read, written, t.version);
        if fs[i].Skip? {
          SkipRound(src, st, x, b, t, w, fs, i, info, copy, read, written, built, atEnd);
        } else {
          NestedIsOk(fs, i, info, t.version, top);
          NestedOneRound(src, st, x, b, t, w, fs, i, info, copy, read, written, built, top, atEnd);
        }
      }
    }
  }

  lemma NoRunOpen(fs: seq<Field>, i: nat, w: E.Writing, version: Version)
    requires IsField(fs, i, version) && AreRunsOk(fs, i, w.taken, version) && IsSteady(w)
    requires !fs[i].Bits? && !fs[i].Pad?
    ensures IsShut(w)
  {
  }

  lemma RunRound(src: D.Source, st: D.Reading, x: seq<Byte>, b: nat, t: E.Target, w: E.Writing, fs: seq<Field>, i: nat,
                 info: Info, copy: Info, read: seq<Choice>, written: seq<Choice>, built: seq<Option<seq<Byte>>>,
                 top: bool, atEnd: bool)
    requires IsRound(src, x, b, t, built) && IsAt(src, st, x, b, w) && !w.stopped && !st.lost && !st.short
    requires IsField(fs, i, t.version) && (fs[i].Bits? || fs[i].Pad?) && AreFieldsOk(fs, t.version)
    requires IsFieldPortable(fs, i, t.version, top) && IsFaithful(fs, i, info, t.version)
    requires AreRunsOk(fs, i, w.taken, t.version) && AreChoicesAt(fs, i, info, read, written)
    requires E.EncodeOne(t, w, fs, i, info, written).Some?
      && IsAhead(E.EncodeOne(t, w, fs, i, info, written).value.0, x)
    ensures var (w', written') := E.EncodeOne(t, w, fs, i, info, written).value;
      IsOneBack(src, st, D.DecodeOne(src, fs[i], st, copy, read, atEnd), x, b, t, w', fs, i, info, read, written',
        built)
  {
    hide IsRound, IsAt, AreChoicesAt, IsAhead, D.IsLater;
    hide AreFieldsOk, E.EncodeBits, E.EncodePad, D.DecodeBits, D.DecodePad;
    hide AreHandlersPlain, IsHeldAt, IsExactIn, IsWord, IsPointed, IsFaithful, IsFieldPortable;
    RoundIsValid(src, x, b, t, built);
    ScalarIsOk(fs, i, info, t.version, top);
    AtIsSteady(src, st, x, b, w);
    PassChoices(fs, i, info, read, written, t.version);
    var f := fs[i];
    if f.Bits? {
      BitsRound(src, st, x, b, t, w, f, info, copy);
      BitsGrow(t, w, f, info);
    } else {
      PadRound(src, st, x, b, t, w, f, copy);
      PadGrows(t, w, f);
    }
  }

  lemma ScalarRound(src: D.Source, st: D.Reading, x: seq<Byte>, b: nat, t: E.Target, w: E.Writing, fs: seq<Field>,
                    i: nat, info: Info, copy: Info, read: seq<Choice>, written: seq<Choice>,
                    built: seq<Option<seq<Byte>>>, top: bool, atEnd: bool)
    requires IsRound(src, x, b, t, built) && IsAt(src, st, x, b, w) && IsShut(w) && !w.stopped && !st.lost && !st.short
    requires IsField(fs, i, t.version) && IsScalar(fs[i]) && AreFieldsOk(fs, t.version) && ArePairsPortable(fs)
    requires IsFieldPortable(fs, i, t.version, top) && IsFaithful(fs, i, info, t.version)
    requires AreChoicesAt(fs, i, info, read, written)
    requires fs[i].Raw? && fs[i].extent.Counted? ==> IsHeldAt(info, copy, fs[i].extent.counted.id)
    requires E.EncodeOne(t, w, fs, i, info, written).Some?
    requires var w' := E.EncodeOne(t, w, fs, i, info, written).value.0;
      IsAhead(w', x) && w'.strings <= built && (top && i + 1 == |fs| ==> |x| == |w'.out|)
    ensures var (w', written') := E.EncodeOne(t, w, fs, i, info, written).value;
      IsOneBack(src, st, D.DecodeOne(src, fs[i], st, copy, read, atEnd), x, b, t, w', fs, i, info, read, written',
        built)
  {
    hide IsRound, IsAt, AreChoicesAt, IsAhead, D.IsLater, AreFieldsOk, E.EncodeScalar, D.DecodePlain, D.DecodeExtended;
    hide D.DecodeOne, AreHandlersPlain, IsHeldAt, IsExactIn, IsWord, ArePairsPortable, IsPlainRestored, IsPointed;
    hide IsHeldBefore, IsRestored, IsFaithful, IsFieldPortable;
    var f := fs[i];
    RoundIsValid(src, x, b, t, built);
    ScalarIsOk(fs, i, info, t.version, top);
    ScalarIsWritten(t, w, fs, i, info, written);
    ScalarIsRead(src, f, st, copy, read, atEnd);
    ScalarHasPut(t, w, fs, i, info, written);
    if !f.Integer? {
      OtherScalarRound(src, st, x, b, t, w, fs, i, info, copy, read, written, built, top);
    } else if f.extended {
      ExtendedRound(src, st, x, b, t, w, fs, i, info, copy, read, written);
    } else if Find(read, Key(f)).Some? {
      GoverningRound(src, st, x, b, t, w, fs, i, info, copy, read, written);
    } else {
      PlainRound(src, st, x, b, t, w, fs, i, info, copy, read, written);
    }
  }

  lemma ScalarIsWritten(t: E.Target, w: E.Writing, fs: seq<Field>, i: nat, info: Info, written: seq<Choice>)
    requires t.Valid() && i < |fs| && IsScalar(fs[i])
    ensures E.EncodeOne(t, w, fs, i, info, written) == E.EncodeScalar(t, w, fs, i, info, written)
  {
    hide E.EncodeScalar;
  }

  lemma SkipRound(src: D.Source, st: D.Reading, x: seq<Byte>, b: nat, t: E.Target, w: E.Writing, fs: seq<Field>, i: nat,
                  info: Info, copy: Info, read: seq<Choice>, written: seq<Choice>, built: seq<Option<seq<Byte>>>,
                  atEnd: bool)
    requires src.Valid() && t.Valid() && IsAt(src, st, x, b, w) && IsShut(w) && !w.stopped && !st.lost && !st.short
    requires i < |fs| && fs[i].Skip? && AreChoicesAt(fs, i + 1, info, read, written)
    requires E.EncodeOne(t, w, fs, i, info, written).Some?
      && IsAhead(E.EncodeOne(t, w, fs, i, info, written).value.0, x)
    ensures var (w', written') := E.EncodeOne(t, w, fs, i, info, written).value;
      IsOneBack(src, st, D.DecodeOne(src, fs[i], st, copy, read, atEnd), x, b, t, w', fs, i, info, read, written',
        built)
  {
    hide IsAt, IsAhead, AreChoicesAt, D.IsLater, E.Reserved, D.DecodePlain;
    var f := fs[i];
    var data := E.Reserved(t, w, f.length);
    CopyIsPut(t, w, f.length);
    ReservedIsPut(t, w, f.length);
    BytesAreReread(src, st, x, b, w, E.Copy(t, w, f.length), data);
    SkippedOver(src, f, st, copy, read);
  }

  lemma SkippedOver(src: D.Source, f: Field, st: D.Reading, copy: Info, read: seq<Choice>)
    requires src.Valid() && f.Skip? && f.length <= D.Remaining(src, st)
    ensures D.DecodePlain(src, f, st, copy, read) == D.Step(true, st.(pos := st.pos + f.length), copy, read)
  {
    hide D.IsLater;
  }

  // Fields made of other fields

  /** What is taken of the fields of a field, and of each of its values. */
  ghost predicate AreElementsOk(f: Field, info: Info, version: Version) {
    && IsWellFormed(NestedOf(f), version) && IsPortable(NestedOf(f), version, false)
    && (f.Struct? ==> IsListOk(f.fields, RecordAt(info, f.member.id), version, false))
    && (f.Vector? ==> forall k | 0 <= k < f.count ::
          IsListOk(f.fields, ElementAt(RecordsAt(info, f.member.id), k), version, false))
    && (f.Array? ==> forall k | 0 <= k < Load(info, f.counter) ::
          IsListOk(f.fields, ElementAt(RecordsAt(info, f.member.id), k), version, false))
  }

  lemma NestedIsOk(fs: seq<Field>, i: nat, info: Info, version: Version, top: bool)
    requires i < EndOf(fs, 0, info, version) && IsListOk(fs, info, version, top) && IsDefined(fs[i], version)
    ensures AreElementsOk(fs[i], info, version)
  {
    hide AreFaithful, ArePairsPortable, IsFieldPortable, IsPortable, EndOf;
    NestedIsWellFormed(fs, i, version);
    NestedIsPortable(fs, i, version, top);
    FieldOk(fs, i, info, version, top);
  }

  lemma NoGroups(fs: seq<Field>, i: nat, info: Info, version: Version)
    requires i <= |fs| && IsPortable(fs, version, false)
    ensures EndOf(fs, i, info, version) == |fs|
    decreases |fs| - i
  {
    hide ArePairsPortable;
    if i < |fs| {
      assert IsFieldPortable(fs, i, version, false);
      NoGroups(fs, i + 1, info, version);
    }
  }

  lemma {:induction false} NestedRound(src: D.Source, st: D.Reading, x: seq<Byte>, b: nat, t: E.Target, w: E.Writing,
                                       fs: seq<Field>, info: Info, copy: Info, built: seq<Option<seq<Byte>>>)
    requires IsRound(src, x, b, t, built) && IsAt(src, st, x, b, w) && IsShut(w) && !w.stopped
    requires IsListOk(fs, info, t.version, false) && !st.lost && !st.short
    requires E.EncodeList(t, w, fs, info).Some?
    requires var w' := E.EncodeList(t, w, fs, info).value; IsAhead(w', x) && w'.strings <= built
    ensures var r, w' := D.DecodeNested(src, fs, st, copy), E.EncodeList(t, w, fs, info).value;
      && r.ok && !r.st.lost && !r.st.short && IsAt(src, r.st, x, b, w') && IsShut(w') && !w'.stopped
      && AreRestored(fs, info, r.info, t.strings, built, t.version)
    decreases fs, 5
  {
    hide IsRound, IsAt, IsListOk, IsAhead, D.IsLater, D.DecodeList, E.EncodeList, IsRestored, IsShut, EndOf;
    RoundIsValid(src, x, b, t, built);
    ListOk(fs, info, t.version, false);
    OptionalAt(src, st, x, b, w, false);
    ListRound(src, st.(optional := false), x, b, t, w, fs, info, copy, built, false, false);
    NoGroups(fs, 0, info, t.version);
    ListGrows(t, w, fs, info);
    var r := D.DecodeList(src, fs, st.(optional := false), copy, false);
    OptionalAt(src, r.st, x, b, E.EncodeList(t, w, fs, info).value, st.optional);
  }

  lemma OptionalAt(src: D.Source, st: D.Reading, x: seq<Byte>, b: nat, w: E.Writing, optional: bool)
    requires IsAt(src, st, x, b, w)
    ensures IsAt(src, st.(optional := optional), x, b, w)
  {
  }

  lemma {:induction false} NestedOneRound(src: D.Source, st: D.Reading, x: seq<Byte>, b: nat, t: E.Target,
                                          w: E.Writing, fs: seq<Field>, i: nat, info: Info, copy: Info,
                                          read: seq<Choice>, written: seq<Choice>, built: seq<Option<seq<Byte>>>,
                                          top: bool, atEnd: bool)
    requires IsRound(src, x, b, t, built) && IsAt(src, st, x, b, w) && IsShut(w) && !w.stopped && !st.lost && !st.short
    requires i < |fs| && IsNested(fs[i]) && IsFieldOk(fs[i]) && AreElementsOk(fs[i], info, t.version)
    requires IsFieldPortable(fs, i, t.version, top) && IsFaithful(fs, i, info, t.version)
    requires AreChoicesAt(fs, i + 1, info, read, written)
    requires E.EncodeOne(t, w, fs, i, info, written).Some?
    requires var w' := E.EncodeOne(t, w, fs, i, info, written).value.0;
      IsAhead(w', x) && w'.strings <= built && (top && i + 1 == |fs| ==> |x| == |w'.out|)
    ensures var (w', written') := E.EncodeOne(t, w, fs, i, info, written).value;
      IsOneBack(src, st, D.DecodeOne(src, fs[i], st, copy, read, atEnd), x, b, t, w', fs, i, info, read, written',
        built)
    decreases fs, 1
  {
    hide IsRound, IsAt, IsAhead, D.IsLater, D.DecodeNested, D.DecodeVector, D.DecodeArray, E.EncodeList, E.EncodeVector;
    hide E.EncodeArray, AreChoicesAt, AreRestored, IsShut, AreNumbersTrue, AreFaithful, IsListOk, IsPointed, IsRestored;
    hide D.DecodeOne, E.EncodeOne, IsFieldOk, E.FieldsSize;
    RoundIsValid(src, x, b, t, built);
    var f := fs[i];
    NestedIsWritten(t, w, fs, i, info, written);
    NestedGives(src, f, st, copy, read, atEnd);
    if f.Struct? {
      NestedRound(src, st, x, b, t, w, f.fields, RecordAt(info, f.member.id), RecordAt(copy, f.member.id), built);
    } else if f.Vector? {
      VectorRound(src, st, x, b, t, w, f, 0, RecordsAt(info, f.member.id), RecordsAt(copy, f.member.id), built);
    } else {
      ArrayRound(src, st, x, b, t, w, f, info, copy, built, atEnd);
    }
    var one := D.DecodeOne(src, f, st, copy, read, atEnd);
    NestedIsRestored(f, info, one.info, t, built);
  }

  /** Fields of fields have been read back when each of their lists has. */
  lemma NestedIsRestored(f: Field, info: Info, copy: Info, t: E.Target, built: seq<Option<seq<Byte>>>)
    requires IsNested(f)
    requires f.Struct? ==>
      && f.member.id in copy && copy[f.member.id].Record?
      && AreRestored(f.fields, RecordAt(info, f.member.id), copy[f.member.id].members, t.strings, built, t.version)
    requires f.Vector? ==> forall k | 0 <= k < f.count ::
      AreRestored(f.fields, ElementAt(RecordsAt(info, f.member.id), k), ElementAt(RecordsAt(copy, f.member.id), k),
                  t.strings, built, t.version)
    requires f.Array? ==> IsRestored(f, info, copy, t.strings, built, t.version)
    ensures IsRestored(f, info, copy, t.strings, built, t.version)
  {
    hide AreRestored;
  }

  lemma NestedIsWritten(t: E.Target, w: E.Writing, fs: seq<Field>, i: nat, info: Info, written: seq<Choice>)
    requires t.Valid() && i < |fs| && IsNested(fs[i])
    ensures E.EncodeOne(t, w, fs, i, info, written) == E.Keep(EncodeNested(t, w, fs[i], info), written)
  {
    hide E.EncodeList, E.EncodeVector, E.EncodeArray;
  }

  lemma NestedGives(src: D.Source, f: Field, st: D.Reading, copy: Info, read: seq<Choice>, atEnd: bool)
    requires src.Valid() && IsNested(f)
    ensures D.DecodeOne(src, f, st, copy, read, atEnd) ==
      match f
      case Struct(m, fields) =>
        var r := D.DecodeNested(src, fields, st, RecordAt(copy, m.id));
        D.Step(r.ok, r.st, copy[m.id := Record(r.info)], read)
      case Vector(m, _, _) =>
        var (ok, st', elements) := D.DecodeVector(src, f, 0, st, RecordsAt(copy, m.id));
        D.Step(ok, st', copy[m.id := Records(elements)], read)
      case _ =>
        var r := D.DecodeArray(src, f, st, copy, atEnd);
        D.Step(r.ok, r.st, r.info, read)
  {
    hide D.DecodeNested, D.DecodeVector, D.DecodeArray, D.IsLater;
  }

  lemma {:induction false} VectorRound(src: D.Source, st: D.Reading, x: seq<Byte>, b: nat, t: E.Target, w: E.Writing,
                                       f: Field, i: nat, elements: seq<Info>, copies: seq<Info>,
                                       built: seq<Option<seq<Byte>>>)
    requires IsRound(src, x, b, t, built) && IsAt(src, st, x, b, w) && IsShut(w) && !w.stopped && !st.lost && !st.short
    requires f.Vector? && IsWellFormed(f.fields, t.version)
    requires forall k | i <= k < f.count :: IsListOk(f.fields, ElementAt(elements, k), t.version, false)
    requires E.EncodeVector(t, w, f, i, elements).Some?
    requires var w' := E.EncodeVector(t, w, f, i, elements).value; IsAhead(w', x) && w'.strings <= built
    ensures var w' := E.EncodeVector(t, w, f, i, elements).value;
      var (ok, st', copies') := D.DecodeVector(src, f, i, st, copies);
      && ok && !st'.lost && !st'.short && IsAt(src, st', x, b, w') && !w'.stopped
      && forall k | i <= k < f.count ::
           AreRestored(f.fields, ElementAt(elements, k), ElementAt(copies', k), t.strings, built, t.version)
    decreases f, 1, f.count - i
  {
    hide IsRound, IsAt, IsListOk, IsAhead, D.IsLater, D.DecodeNested, E.EncodeList, AreRestored, IsShut, IsWellFormed;
    hide StreamOf, AreDistinct;
    RoundIsValid(src, x, b, t, built);
    if i < f.count {
      var w' := E.EncodeList(t, w, f.fields, ElementAt(elements, i)).value;
      ListGrows(t, w, f.fields, ElementAt(elements, i));
      VectorGrows(t, w', f, i + 1, elements);
      AheadBefore(w', E.EncodeVector(t, w', f, i + 1, elements).value, x, built);
      NestedRound(src, st, x, b, t, w, f.fields, ElementAt(elements, i), ElementAt(copies, i), built);
      var r := D.DecodeNested(src, f.fields, st, ElementAt(copies, i));
      var copies' := D.PutElement(copies, i, r.info);
      VectorRound(src, r.st, x, b, t, w', f, i + 1, elements, copies', built);
      assert ElementAt(copies', i) == r.info;
    }
  }

  lemma AheadBefore(w: E.Writing, w': E.Writing, x: seq<Byte>, built: seq<Option<seq<Byte>>>)
    requires Grows(w, w') && IsAhead(w', x) && w'.strings <= built
    ensures IsAhead(w, x) && w.strings <= built
  {
    hide StreamOf;
  }

  // Arrays

  lemma {:induction false} ElementRound(src: D.Source, st: D.Reading, x: seq<Byte>, b: nat, t: E.Target, w: E.Writing,
                                        f: Field, element: Info, stride: nat, built: seq<Option<seq<Byte>>>)
    requires IsRound(src, x, b, t, built) && IsAt(src, st, x, b, w) && IsShut(w) && !w.stopped && !st.lost && !st.short
    requires f.Array? && IsListOk(f.fields, element, t.version, false)
    requires stride != 0 ==> 0 < E.FieldsSize(f.fields) <= stride
    requires E.EncodeElement(t, w, f, element, stride).Some?
    requires var w' := E.EncodeElement(t, w, f, element, stride).value; IsAhead(w', x) && w'.strings <= built
    ensures var one, w' := D.DecodeElement(src, f, stride, st), E.EncodeElement(t, w, f, element, stride).value;
      && one.ok && !one.st.lost && !one.st.short && IsAt(src, one.st, x, b, w') && IsShut(w') && !w'.stopped
      && AreRestored(f.fields, element, one.info, t.strings, built, t.version)
      && (stride != 0 ==> |w'.out| == |w.out| + stride)
    decreases f, 0
  {
    hide IsRound, IsAt, IsListOk, IsAhead, D.IsLater, D.DecodeNested, D.DecodeElement, E.EncodeList, AreRestored;
    hide IsWellFormed, StreamOf, AreDistinct, E.FieldsSize, E.EncodeElement, IsShut, Grows, E.Copy, IsClosed;
    RoundIsValid(src, x, b, t, built);
    ListOk(f.fields, element, t.version, false);
    ElementListIsWritten(t, w, f, element, stride);
    ListGrows(t, w, f.fields, element);
    ElementIsWritten(t, w, f, element, stride);
    var w1 := E.EncodeList(t, w, f.fields, element).value;
    var w2 := E.EncodeElement(t, w, f, element, stride).value;
    var padding := if !w1.stopped && |w.out| <= |w1.out| && stride > |w1.out| - |w.out|
                   then stride - (|w1.out| - |w.out|) else 0;
    PaddingGrows(t, w1, w2, padding);
    AheadBefore(w1, w2, x, built);
    NestedRound(src, st, x, b, t, w, f.fields, element, map[], built);
    var r := D.DecodeNested(src, f.fields, st, map[]);
    StandsBehind(src, st, x, b, w);
    DataIsWhole(src, st, x, b, w);
    NestedFits(src, f.fields, st, map[]);
    StandsBehind(src, r.st, x, b, w1);
    GrowsLonger(w, w1);
    PaddingIsReread(src, r.st, x, b, t, w1, w2, padding);
    ElementGives(src, f, stride, st);
    assert D.DecodeElement(src, f, stride, st).st == r.st.(pos := r.st.pos + padding);
  }

  lemma GrowsLonger(w: E.Writing, w': E.Writing)
    requires Grows(w, w')
    ensures |w.out| <= |w'.out|
  {
  }

  lemma ElementListIsWritten(t: E.Target, w: E.Writing, f: Field, element: Info, stride: nat)
    requires t.Valid() && f.Array? && E.EncodeElement(t, w, f, element, stride).Some?
    ensures E.EncodeList(t, w, f.fields, element).Some?
  {
    hide E.EncodeList, E.Copy;
  }

  lemma PaddingGrows(t: E.Target, w: E.Writing, w': E.Writing, n: nat)
    requires t.Valid() && IsShut(w) && (w' == E.Copy(t, w, n) || (n == 0 && w' == w))
    ensures Grows(w, w') && IsShut(w') && w'.stopped == w.stopped && |w'.out| == |w.out| + n
  {
    hide E.Copy, E.Put, E.Reserved, Grows, HasPut;
    CopyIsPut(t, w, n);
    PutHasPut(t, w, E.Reserved(t, w, n));
    PutIsShut(w, E.Put(t, w, E.Reserved(t, w, n)));
    ReservedIsPut(t, w, n);
    GrowsReflexive(w);
  }

  /** Bytes an element is padded out with are stepped over. */
  lemma PaddingIsReread(src: D.Source, st: D.Reading, x: seq<Byte>, b: nat, t: E.Target, w: E.Writing, w': E.Writing,
                        n: nat)
    requires src.Valid() && t.Valid() && IsAt(src, st, x, b, w) && IsShut(w) && IsAhead(w', x)
    requires w' == E.Copy(t, w, n) || (n == 0 && w' == w)
    ensures n <= D.Remaining(src, st) && IsAt(src, st.(pos := st.pos + n), x, b, w')
  {
    hide IsAt, IsAhead, E.Copy, E.Reserved;
    if w' == E.Copy(t, w, n) {
      CopyIsPut(t, w, n);
      ReservedIsPut(t, w, n);
      BytesAreReread(src, st, x, b, w, w', E.Reserved(t, w, n));
    } else {
      assert st.(pos := st.pos + 0) == st;
    }
  }

  lemma ElementGives(src: D.Source, f: Field, stride: nat, st: D.Reading)
    requires src.Valid() && f.Array? && stride <= D.Remaining(src, st)
    requires var r := D.DecodeNested(src, f.fields, st, map[]);
      r.ok && !r.st.lost && (stride != 0 ==> r.st.pos <= st.pos + stride)
    ensures var one, r := D.DecodeElement(src, f, stride, st), D.DecodeNested(src, f.fields, st, map[]);
      one.ok && one.info == r.info && one.st == (if stride == 0 then r.st else r.st.(pos := st.pos + stride))
  {
    hide D.DecodeNested, D.IsLater;
  }

  lemma {:induction false} ElementsRound(src: D.Source, st: D.Reading, x: seq<Byte>, b: nat, t: E.Target, w: E.Writing,
                                         f: Field, stride: nat, elements: seq<Info>, counter: nat, copies: seq<Info>,
                                         built: seq<Option<seq<Byte>>>, atEnd: bool)
    requires IsRound(src, x, b, t, built) && IsAt(src, st, x, b, w) && IsShut(w) && !w.stopped && !st.lost && !st.short
    requires f.Array? && IsWellFormed(f.fields, t.version) && |copies| <= counter
    requires forall k | |copies| <= k < counter :: IsListOk(f.fields, ElementAt(elements, k), t.version, false)
    requires |copies| < counter && stride != 0 ==> 0 < E.FieldsSize(f.fields) <= stride
    requires E.EncodeElements(t, w, f, stride, elements, counter, |copies|).Some?
    requires var w' := E.EncodeElements(t, w, f, stride, elements, counter, |copies|).value;
      IsAhead(w', x) && w'.strings <= built
    ensures var w' := E.EncodeElements(t, w, f, stride, elements, counter, |copies|).value;
      var (ok, st', all) := D.DecodeElements(src, f, stride, counter - |copies|, st, copies, atEnd);
      && ok && !st'.lost && !st'.short && IsAt(src, st', x, b, w') && !w'.stopped
      && |all| == counter && copies <= all
      && (forall k | |copies| <= k < counter ::
            AreRestored(f.fields, ElementAt(elements, k), ElementAt(all, k), t.strings, built, t.version))
      && (stride != 0 ==> |w'.out| == |w.out| + (counter - |copies|) * stride)
    decreases f, 1, counter - |copies|
  {
    hide IsRound, IsAt, IsListOk, IsAhead, D.IsLater, D.DecodeElement, E.EncodeElement, AreRestored, IsShut;
    hide IsWellFormed, Grows, E.FieldsSize;
    RoundIsValid(src, x, b, t, built);
    var i := |copies|;
    if i < counter {
      var w' := E.EncodeElement(t, w, f, ElementAt(elements, i), stride).value;
      ElementGrows(t, w, f, ElementAt(elements, i), stride);
      ElementsGrow(t, w', f, stride, elements, counter, i + 1);
      AheadBefore(w', E.EncodeElements(t, w', f, stride, elements, counter, i + 1).value, x, built);
      ElementRound(src, st, x, b, t, w, f, ElementAt(elements, i), stride, built);
      var one := D.DecodeElement(src, f, stride, st);
      var copies' := copies + [one.info];
      ElementsRound(src, one.st, x, b, t, w', f, stride, elements, counter, copies', built, atEnd);
      var all := D.DecodeElements(src, f, stride, counter - |copies'|, one.st, copies', atEnd).2;
      assert ElementAt(all, i) == copies'[i] == one.info;
      OneMoreStride(counter - i, stride);
    }
  }

  lemma OneMoreStride(n: nat, stride: nat)
    requires n > 0
    ensures stride + (n - 1) * stride == n * stride
  {
  }

  /** Numbers an array begins with are written as they are. */
  lemma HeaderWrites(t: E.Target, w: E.Writing, f: Field, info: Info)
    requires t.Valid() && !t.preserve && f.Array? && AreNumbersTrue(f, info)
    requires E.EncodeHeader(t, w, f, info, Load(info, f.counter)).Some?
    ensures var h := E.EncodeHeader(t, w, f, info, Load(info, f.counter)).value;
      var w1 := if f.countLength == 0 then Some(w) else E.PutRaw(t, w, f.countLength, Load(info, f.counter));
      && h.count == Load(info, f.counter) && h.stride == StrideFor(f, info)
      && w1.Some?
      && Some(h.w) == if f.strideLength == 0 then w1 else E.PutRaw(t, w1.value, f.strideLength, h.stride)
  {
    hide E.PutRaw, E.FieldsSize, Pow256;
  }

  /** The numbers an array begins with are read as they have been written. */
  lemma NumbersRound(src: D.Source, st: D.Reading, x: seq<Byte>, b: nat, t: E.Target, w: E.Writing, f: Field,
                     info: Info, built: seq<Option<seq<Byte>>>)
    requires IsRound(src, x, b, t, built) && IsAt(src, st, x, b, w) && IsShut(w)
    requires f.Array? && IsFieldOk(f) && AreNumbersTrue(f, info)
    requires E.EncodeHeader(t, w, f, info, Load(info, f.counter)).Some?
    requires var h := E.EncodeHeader(t, w, f, info, Load(info, f.counter)).value;
      IsAhead(h.w, x) && h.w.strings <= built
    ensures var h, n := E.EncodeHeader(t, w, f, info, Load(info, f.counter)).value, D.ReadNumbers(src, f, st);
      && n.ok && n.stride == StrideFor(f, info) && IsAt(src, n.st, x, b, h.w) && IsShut(h.w) && h.w.stopped == w.stopped
      && n.st == st.(pos := n.st.pos)
      && (if f.countLength != 0 then n.count == Load(info, f.counter) && n.leftover == 0
          else h.w == w && n.st == st && n.count == D.Remaining(src, st) / f.stride
               && n.leftover == D.Remaining(src, st) % f.stride)
  {
    hide IsAt, IsAhead, IsRound, D.IsLater, E.PutRaw, D.ReadNumber, Pow256, E.FieldsSize, E.EncodeHeader, AreDistinct;
    hide IsShut, Grows, HasPut, AreNumbersTrue, IsFieldOk, D.ReadStride;
    RoundIsValid(src, x, b, t, built);
    NumbersFit(f, info);
    HeaderWrites(t, w, f, info);
    if f.countLength == 0 {
      NoStride(src, f, st, D.Remaining(src, st) / f.stride, D.Remaining(src, st) % f.stride);
    } else {
      var h := E.EncodeHeader(t, w, f, info, Load(info, f.counter)).value;
      var w1 := E.PutRaw(t, w, f.countLength, Load(info, f.counter)).value;
      var st1 := st.(pos := st.pos + f.countLength);
      RawHasPut(t, w, f.countLength, Load(info, f.counter));
      PutIsShut(w, w1);
      StrideIsAhead(t, w1, h.w, x, f, h.stride, built);
      NumberIsReread(src, st, x, b, t, w, f.countLength, Load(info, f.counter));
      StrideRound(src, st1, x, b, t, w1, h.w, f, h.stride, Load(info, f.counter));
    }
  }

  lemma NoStride(src: D.Source, f: Field, st: D.Reading, count: nat, leftover: nat)
    requires src.Valid() && f.Array? && f.strideLength == 0
    ensures D.ReadStride(src, f, st, count, leftover) == D.Numbers(true, st, count, f.stride, leftover)
  {
  }

  /** The second of the numbers an array begins with. */
  lemma StrideRound(src: D.Source, st: D.Reading, x: seq<Byte>, b: nat, t: E.Target, w: E.Writing, w': E.Writing,
                    f: Field, stride: nat, count: nat)
    requires src.Valid() && t.Valid() && f.Array? && IsShut(w) && IsAhead(w', x) && IsAt(src, st, x, b, w)
    requires IsStrideWritten(t, w, w', f, stride)
    ensures var n := D.ReadStride(src, f, st, count, 0);
      && n == D.Numbers(true, st.(pos := n.st.pos), count, stride, 0) && IsAt(src, n.st, x, b, w')
  {
    hide IsAt, IsAhead, D.IsLater, E.PutRaw, D.ReadNumber, Pow256, Grows, HasPut;
    if f.strideLength != 0 {
      NumberIsReread(src, st, x, b, t, w, f.strideLength, stride);
    }
  }

  predicate IsStrideWritten(t: E.Target, w: E.Writing, w': E.Writing, f: Field, stride: nat)
    requires t.Valid() && f.Array?
  {
    if f.strideLength == 0 then w' == w && stride == f.stride
    else stride < Pow256(f.strideLength) && E.PutRaw(t, w, f.strideLength, stride) == Some(w')
  }

  lemma StrideIsAhead(t: E.Target, w: E.Writing, w': E.Writing, x: seq<Byte>, f: Field, stride: nat,
                      built: seq<Option<seq<Byte>>>)
    requires t.Valid() && f.Array? && IsShut(w) && IsAhead(w', x) && w'.strings <= built
    requires IsStrideWritten(t, w, w', f, stride)
    ensures IsAhead(w, x) && IsShut(w') && w'.stopped == w.stopped
  {
    hide IsAhead, E.PutRaw, Pow256, Grows, HasPut;
    if f.strideLength != 0 {
      RawHasPut(t, w, f.strideLength, stride);
      PutIsShut(w, w');
      AheadBefore(w, w', x, built);
    }
  }

  lemma NumbersFit(f: Field, info: Info)
    requires f.Array? && IsFieldOk(f) && AreNumbersTrue(f, info)
    ensures f.countLength != 0 ==> Load(info, f.counter) < Pow256(f.countLength)
    ensures f.strideLength != 0 ==> StrideFor(f, info) < Pow256(f.strideLength)
    ensures f.countLength == 0 ==> f.strideLength == 0 && f.stride != 0
  {
    hide Pow256, E.FieldsSize;
  }

  lemma RawHasPut(t: E.Target, w: E.Writing, width: nat, raw: nat)
    requires E.PutRaw(t, w, width, raw).Some?
    ensures HasPut(w, E.PutRaw(t, w, width, raw).value)
  {
  }

  lemma HeaderGives(src: D.Source, st: D.Reading, f: Field, copy: Info)
    requires src.Valid() && f.Array? && IsFieldOk(f) && D.ReadNumbers(src, f, st).ok
    ensures var hd, n := D.DecodeHeader(src, f, st, copy), D.ReadNumbers(src, f, st);
      hd.ok && hd.st == n.st && hd.count == n.count && hd.stride == n.stride && hd.leftover == n.leftover
  {
    hide D.IsLater, D.ReadNumbers, Pow256;
  }

  /** Numbers and elements of an array which has been read back. */
  lemma ArrayIsRestored(f: Field, info: Info, copy: Info, t: E.Target, built: seq<Option<seq<Byte>>>)
    requires f.Array? && IsNumber(copy, f.counter, Load(info, f.counter))
    requires f.countLength != 0 && f.countMember.Some? ==>
      Load(copy, f.countMember.value) == Load(info, f.countMember.value)
    requires f.strideLength != 0 && f.strideMember.Some? ==>
      Load(copy, f.strideMember.value) == Load(info, f.strideMember.value)
    requires forall k | 0 <= k < Load(info, f.counter) ::
      AreRestored(f.fields, ElementAt(RecordsAt(info, f.member.id), k), ElementAt(RecordsAt(copy, f.member.id), k),
                  t.strings, built, t.version)
    ensures IsRestored(f, info, copy, t.strings, built, t.version)
  {
    hide AreRestored;
  }

  /** What is written for an array, and what there is of it once its numbers have been. */
  lemma ArrayWrites(t: E.Target, w: E.Writing, f: Field, info: Info, x: seq<Byte>, built: seq<Option<seq<Byte>>>)
    requires t.Valid() && !t.preserve && f.Array? && IsWellFormed(f.fields, t.version) && IsShut(w)
    requires E.EncodeArray(t, w, f, info).Some?
    requires IsAhead(E.EncodeArray(t, w, f, info).value, x) && E.EncodeArray(t, w, f, info).value.strings <= built
    ensures E.EncodeHeader(t, w, f, info, Load(info, f.counter)).Some?
    ensures var h := E.EncodeHeader(t, w, f, info, Load(info, f.counter)).value;
      && IsAhead(h.w, x) && h.w.strings <= built && IsShut(h.w)
      && E.EncodeArray(t, w, f, info) ==
           if IsSkipped(f, h.stride) then Some(E.Copy(t, h.w, E.SkipLength(0, h.count, h.stride)))
           else E.EncodeElements(t, h.w, f, h.stride, RecordsAt(info, f.member.id), Load(info, f.counter), 0)
  {
    hide IsAhead, E.EncodeHeader, E.EncodeElements, IsWellFormed, E.Copy;
    hide IsSkipped, Grows, IsShut, HasPut, E.SkipLength;
    var counter := Load(info, f.counter);
    var h := E.EncodeHeader(t, w, f, info, counter).value;
    HeaderHasPut(t, w, f, info, counter);
    PutIsShut(w, h.w);
    if IsSkipped(f, h.stride) {
      var n := E.SkipLength(0, h.count, h.stride);
      PaddingGrows(t, h.w, E.Copy(t, h.w, n), n);
    } else {
      ElementsGrow(t, h.w, f, h.stride, RecordsAt(info, f.member.id), counter, 0);
    }
    AheadBefore(h.w, E.EncodeArray(t, w, f, info).value, x, built);
  }

  lemma EmptyArrayRound(src: D.Source, st: D.Reading, x: seq<Byte>, b: nat, t: E.Target, w: E.Writing, f: Field,
                        info: Info, copy: Info, built: seq<Option<seq<Byte>>>, atEnd: bool)
    requires IsRound(src, x, b, t, built) && IsAt(src, st, x, b, w) && IsShut(w) && !w.stopped && !st.lost && !st.short
    requires f.Array? && IsFieldOk(f) && IsWellFormed(f.fields, t.version) && AreNumbersTrue(f, info)
    requires E.EncodeArray(t, w, f, info).Some? && Load(info, f.counter) == 0
    requires var w' := E.EncodeArray(t, w, f, info).value;
      IsAhead(w', x) && w'.strings <= built && (f.countLength == 0 ==> |x| == |w'.out|)
    ensures var r, w' := D.DecodeArray(src, f, st, copy, atEnd), E.EncodeArray(t, w, f, info).value;
      && r.ok && !r.st.lost && !r.st.short && IsAt(src, r.st, x, b, w') && !w'.stopped
      && IsRestored(f, info, r.info, t.strings, built, t.version)
  {
    hide IsRound, IsAt, IsAhead, D.IsLater, D.DecodeArray;
    hide D.DecodeHeader, E.EncodeHeader, IsShut, IsFieldOk, AreNumbersTrue;
    hide E.FieldsSize, IsSkipped, D.ReadNumbers, IsRestored, E.EncodeArray, E.Copy, E.SkipLength, IsWellFormed;
    RoundIsValid(src, x, b, t, built);
    ArrayWrites(t, w, f, info, x, built);
    NumbersRound(src, st, x, b, t, w, f, info, built);
    HeaderGives(src, st, f, copy);
    var h := E.EncodeHeader(t, w, f, info, 0).value;
    HeaderWrites(t, w, f, info);
    NothingIsSkipped(0, h.stride);
    EmptyElements(t, h.w, f, h.stride, RecordsAt(info, f.member.id));
    NothingIsCopied(t, h.w);
    if f.countLength == 0 {
      StandsBehind(src, st, x, b, w);
      DataIsWhole(src, st, x, b, w);
      CountlessStride(f, info);
      NoneLeft(f.stride);
    }
    EmptyArrayGives(src, st, f, copy, atEnd);
    NumbersAreStored(src, st, f, copy);
    NumbersAreRestored(src, st, f, info, copy, atEnd);
    ArrayIsRestored(f, info, D.DecodeArray(src, f, st, copy, atEnd).info, t, built);
  }

  lemma EmptyElements(t: E.Target, w: E.Writing, f: Field, stride: nat, elements: seq<Info>)
    requires t.Valid() && f.Array?
    ensures E.EncodeElements(t, w, f, stride, elements, 0, 0) == Some(w)
  {
  }

  lemma NothingIsCopied(t: E.Target, w: E.Writing)
    requires t.Valid()
    ensures E.Copy(t, w, 0) == w
  {
    assert w.out + [] == w.out;
    assert E.Reserved(t, w, 0) == [];
  }

  lemma NoneLeft(stride: nat)
    ensures stride != 0 ==> 0 / stride == 0 && 0 % stride == 0
  {
  }

  lemma EmptyArrayGives(src: D.Source, st: D.Reading, f: Field, copy: Info, atEnd: bool)
    requires src.Valid() && f.Array?
    requires var hd := D.DecodeHeader(src, f, st, copy); hd.ok && hd.count == 0 && hd.leftover == 0
    ensures var hd := D.DecodeHeader(src, f, st, copy);
      D.DecodeArray(src, f, st, copy, atEnd) == D.Outcome(true, hd.st, hd.info[f.counter.id := Number(0)])
  {
    hide D.DecodeHeader, D.IsLater, D.DecodeElements;
  }

  /** Numbers of an array are in their members again. */
  lemma NumbersAreRestored(src: D.Source, st: D.Reading, f: Field, info: Info, copy: Info, atEnd: bool)
    requires src.Valid() && f.Array? && IsFieldOk(f) && AreNumbersTrue(f, info)
    requires var hd := D.DecodeHeader(src, f, st, copy);
      && hd.ok && hd.stride == StrideFor(f, info) && (f.countLength != 0 ==> hd.count == Load(info, f.counter))
    ensures var copy' := D.DecodeArray(src, f, st, copy, atEnd).info;
      && (f.countLength != 0 && f.countMember.Some? ==>
        Load(copy', f.countMember.value) == Load(info, f.countMember.value))
      && (f.strideLength != 0 && f.strideMember.Some? ==>
            Load(copy', f.strideMember.value) == Load(info, f.strideMember.value))
  {
    hide D.DecodeHeader, D.DecodeArray, D.IsLater, E.FieldsSize, Pow256;
    NumbersAreStored(src, st, f, copy);
    var copy', hd := D.DecodeArray(src, f, st, copy, atEnd).info, D.DecodeHeader(src, f, st, copy);
    if f.countLength != 0 && f.countMember.Some? {
      OnlyElementsAreAdded(src, st, f, copy, atEnd, f.countMember.value.id);
      assert IsNumber(copy', f.countMember.value, hd.count);
    }
    if f.strideLength != 0 && f.strideMember.Some? {
      OnlyElementsAreAdded(src, st, f, copy, atEnd, f.strideMember.value.id);
      assert IsNumber(copy', f.strideMember.value, hd.stride);
    }
  }

  lemma {:induction false} FullArrayRound(src: D.Source, st: D.Reading, x: seq<Byte>, b: nat, t: E.Target,
                                          w: E.Writing, f: Field, info: Info, copy: Info,
                                          built: seq<Option<seq<Byte>>>, atEnd: bool)
    requires IsRound(src, x, b, t, built) && IsAt(src, st, x, b, w) && IsShut(w) && !w.stopped && !st.lost && !st.short
    requires f.Array? && IsFieldOk(f) && AreElementsOk(f, info, t.version) && AreNumbersTrue(f, info)
    requires E.EncodeArray(t, w, f, info).Some? && Load(info, f.counter) != 0
    requires var w' := E.EncodeArray(t, w, f, info).value;
      IsAhead(w', x) && w'.strings <= built && (f.countLength == 0 ==> |x| == |w'.out|)
    ensures var r, w' := D.DecodeArray(src, f, st, copy, atEnd), E.EncodeArray(t, w, f, info).value;
      && r.ok && !r.st.lost && !r.st.short && IsAt(src, r.st, x, b, w') && !w'.stopped
      && IsRestored(f, info, r.info, t.strings, built, t.version)
    decreases f, 2, 0
  {
    hide IsRound, IsAt, IsAhead, D.IsLater, D.DecodeArray;
    hide D.DecodeHeader, E.EncodeHeader, IsShut, IsFieldOk, AreNumbersTrue;
    hide E.FieldsSize, IsSkipped, D.ReadNumbers, IsRestored, E.EncodeArray;
    hide E.Copy, E.SkipLength, IsWellFormed, IsListOk;
    hide D.DecodeElements, E.EncodeElements, AreRestored;
    RoundIsValid(src, x, b, t, built);
    ArrayWrites(t, w, f, info, x, built);
    NumbersRound(src, st, x, b, t, w, f, info, built);
    HeaderGives(src, st, f, copy);
    HeaderWrites(t, w, f, info);
    FullNumbers(f, info);
    var h, n := E.EncodeHeader(t, w, f, info, Load(info, f.counter)).value, D.ReadNumbers(src, f, st);
    var counter, elements := Load(info, f.counter), RecordsAt(info, f.member.id);
    ElementsRound(src, n.st, x, b, t, h.w, f, h.stride, elements, counter, [], built, atEnd);
    if f.countLength == 0 {
      StandsBehind(src, st, x, b, w);
      DataIsWhole(src, st, x, b, w);
      RestIsElements(f, counter, D.Remaining(src, st)) by {
        CountlessStride(f, info);
      }
    }
    FullArrayGives(src, st, f, copy, atEnd);
    ArrayIds(f);
    NumbersAreRestored(src, st, f, info, copy, atEnd);
    ArrayIsRestored(f, info, D.DecodeArray(src, f, st, copy, atEnd).info, t, built);
  }

  lemma ArrayIds(f: Field)
    requires f.Array? && IsFieldOk(f)
    ensures f.member.id != f.counter.id
  {
  }

  lemma FullNumbers(f: Field, info: Info)
    requires f.Array? && AreNumbersTrue(f, info) && Load(info, f.counter) != 0
    ensures var stride := StrideFor(f, info);
      !IsSkipped(f, stride) && (stride != 0 ==> 0 < E.FieldsSize(f.fields) <= stride)
  {
  }

  lemma CountlessStride(f: Field, info: Info)
    requires f.Array? && IsFieldOk(f) && f.countLength == 0
    ensures StrideFor(f, info) == f.stride != 0
  {
  }

  lemma RestIsElements(f: Field, counter: nat, remaining: nat)
    requires f.Array? && f.stride != 0 && remaining == counter * f.stride
    ensures remaining / f.stride == counter && remaining % f.stride == 0
  {
    DivisionIsUnique(remaining, f.stride, counter, 0);
  }

  lemma FullArrayGives(src: D.Source, st: D.Reading, f: Field, copy: Info, atEnd: bool)
    requires src.Valid() && f.Array?
    requires var hd := D.DecodeHeader(src, f, st, copy);
      hd.ok && hd.count != 0 && hd.leftover == 0 && !IsSkipped(f, hd.stride)
    ensures var hd := D.DecodeHeader(src, f, st, copy);
      var (ok, st', elements) := D.DecodeElements(src, f, hd.stride, hd.count, hd.st, [], atEnd);
      var r := D.DecodeArray(src, f, st, copy, atEnd);
      && r.ok == ok && r.st == st'
      && RecordsAt(r.info, f.member.id) == (if f.member.id == f.counter.id then [] else elements)
      && IsNumber(r.info, f.counter, |elements|)
  {
    hide D.DecodeHeader, D.IsLater, D.DecodeElements, IsSkipped;
  }

  lemma {:induction false} ArrayRound(src: D.Source, st: D.Reading, x: seq<Byte>, b: nat, t: E.Target, w: E.Writing,
                                      f: Field, info: Info, copy: Info, built: seq<Option<seq<Byte>>>, atEnd: bool)
    requires IsRound(src, x, b, t, built) && IsAt(src, st, x, b, w) && IsShut(w) && !w.stopped && !st.lost && !st.short
    requires f.Array? && IsFieldOk(f) && AreElementsOk(f, info, t.version) && AreNumbersTrue(f, info)
    requires E.EncodeArray(t, w, f, info).Some?
    requires var w' := E.EncodeArray(t, w, f, info).value;
      IsAhead(w', x) && w'.strings <= built && (f.countLength == 0 ==> |x| == |w'.out|)
    ensures var r, w' := D.DecodeArray(src, f, st, copy, atEnd), E.EncodeArray(t, w, f, info).value;
      && r.ok && !r.st.lost && !r.st.short && IsAt(src, r.st, x, b, w') && !w'.stopped
      && IsRestored(f, info, r.info, t.strings, built, t.version)
    decreases f, 2
  {
    hide IsRound, IsAt, IsAhead, D.IsLater, D.DecodeArray, D.DecodeHeader, D.DecodeElements, E.EncodeElements;
    hide E.EncodeHeader, IsShut, IsFieldOk, AreNumbersTrue, AreElementsOk, E.FieldsSize, IsSkipped, D.ReadNumbers;
    hide IsRestored, E.EncodeArray, E.Copy, IsWellFormed;
    RoundIsValid(src, x, b, t, built);
    ArrayElementsOk(f, info, t.version);
    if Load(info, f.counter) == 0 {
      EmptyArrayRound(src, st, x, b, t, w, f, info, copy, built, atEnd);
    } else {
      FullArrayRound(src, st, x, b, t, w, f, info, copy, built, atEnd);
    }
  }

  lemma ArrayElementsOk(f: Field, info: Info, version: Version)
    requires f.Array? && AreElementsOk(f, info, version)
    ensures IsWellFormed(f.fields, version)
  {
  }

  // Structures

  /** The structure a table holds of what the canonical mode has written for a version. */
  function Rewritten(e: S.Entity, fs: seq<Field>, info: Info, version: Version): (copy: Option<S.Entity>) {
    var t := S.TargetOf(e, false, version);
    match E.EncodeList(t, S.Begin(e, t), fs, info)
    case None => None
    case Some(w) =>
      match S.Encode(e, fs, info, false, version)
      case None => None
      case Some(body) => Some(S.Entity(e.kind, e.handle, body, w.strings))
  }

  /**
   Canonical mode: a structure of values its fields can carry, written for a
   version and read from a table of that version, has every member of the groups
   up to the version, and each string number refers to the text there was, in a
   set of different strings; a member whose extended field the version does not
   have is the pointing value where that field was chosen. What is read is then
   written back as it is.
   */
  lemma CanonicalRoundTrip(e: S.Entity, fs: seq<Field>, info: Info, version: Version)
    requires IsListOk(fs, info, version, true) && e.handle < 0x1_0000
    requires Rewritten(e, fs, info, version).Some?
    ensures var t, copy := S.TargetOf(e, false, version), Rewritten(e, fs, info, version).value;
      var r := S.Decode(copy, fs, version);
      && S.IsCreated(copy) && AreDistinct(copy.strings)
      && r.ok && !r.st.short
      && AreBack(fs, EndOf(fs, 0, info, version), info, r.info, t, copy.strings)
      && S.Encode(copy, fs, r.info, true, version) == Some(copy.body)
  {
    hide IsListOk, E.EncodeList, D.DecodeList, IsWellFormed, AreBack, LeStore, StreamOf, D.IsLater;
    var t := S.TargetOf(e, false, version);
    var copy := Rewritten(e, fs, info, version).value;
    var begun := S.Begin(e, t);
    var w := E.EncodeList(t, begun, fs, info).value;
    var src := S.SourceOf(copy, version);
    ListOk(fs, info, version, true);
    ListGrows(t, begun, fs, info);
    RewrittenBody(e, fs, info, version);
    WholeIsAhead(begun, w);
    RewrittenAt(src, w.out, begun);
    RewrittenIsRound(src, w.out, t, copy.strings);
    ListRound(src, S.START, w.out, S.HEADER_SIZE, t, begun, fs, info, map[], copy.strings, true, true);
    S.PreserveIdentity(copy, fs, version);
  }

  /** Data of a plain field which holds the number telling that its value is in the extended one. */
  function WhenData(f: Field, whenRaw: nat): Data {
    Data(whenRaw % Pow256(Width(f)), NoText, [])
  }

  /**
   A plain field whose extended one is in a group the version does not have is
   read back exactly when the values have not been chosen to be carried by the
   extended one, unless the number which tells so decodes into the value too.
   */
  lemma CutIsRestored(e: S.Entity, fs: seq<Field>, info: Info, version: Version, j: nat, k: nat)
    requires IsListOk(fs, info, version, true) && e.handle < 0x1_0000
    requires Rewritten(e, fs, info, version).Some?
    requires j < EndOf(fs, 0, info, version) <= k < |fs| && IsPair(fs[j], fs[k]) && IsDefined(fs[j], version)
    ensures var copy := Rewritten(e, fs, info, version).value;
      IsRestored(fs[j], info, S.Decode(copy, fs, version).info, e.strings, copy.strings, version)
      <==> !IsWidened(fs, WhenKey(fs[k]), fs[k].whenRaw, info)
           || DecodesInto(fs[j], WhenData(fs[j], fs[k].whenRaw), info)
  {
    hide S.Decode, Rewritten, AreFieldsOk, IsWidened, IsRestored;
    hide DecodesInto, AreExtendedOnce, AreNamedIntegers, IsPointing;
    hide IsListOk, AreHandlersPlain, IsPortable, IsWellFormed, AreFaithful, ArePairsPortable, AreStringsPlain, EndOf;
    CanonicalRoundTrip(e, fs, info, version);
    ListOk(fs, info, version, true);
    ListIsOk(fs, version);
    PairIsPlain(fs, j, k, version, true);
    var end, copy := EndOf(fs, 0, info, version), Rewritten(e, fs, info, version).value;
    forall other | 0 <= other < |fs| && IsGivenUp(fs, end, j, other, info)
      ensures other == k
    {
      assert IsPair(fs[j], fs[other]);
      OnlyPair(fs, j, other, k);
    }
    assert IsGivenUp(fs, end, j, k, info) <==> IsWidened(fs, WhenKey(fs[k]), fs[k].whenRaw, info);
    if IsGivenUp(fs, end, j, k, info) {
      PointingIsRestored(fs[j], info, S.Decode(copy, fs, version).info, e.strings, copy.strings, version,
        fs[k].whenRaw);
    }
  }

  lemma OnlyPair(fs: seq<Field>, j: nat, a: nat, b: nat)
    requires j < |fs| && a < |fs| && b < |fs| && IsPair(fs[j], fs[a]) && IsPair(fs[j], fs[b]) && AreExtendedOnce(fs)
    ensures a == b
  {
  }

  lemma PairIsPlain(fs: seq<Field>, j: nat, k: nat, version: Version, top: bool)
    requires j < |fs| && k < |fs| && IsPair(fs[j], fs[k]) && AreNamedIntegers(fs) && IsPortable(fs, version, top)
    ensures fs[j].Integer? && AreHandlersPlain(fs[j])
  {
    hide ArePairsPortable, AreHandlersPlain, IsSpellable;
    assert IsNamedBy(fs[j], fs[k]);
    assert IsFieldPortable(fs, j, version, top);
  }

  lemma PointingIsRestored(f: Field, info: Info, copy: Info, strings: seq<Option<seq<Byte>>>,
                           built: seq<Option<seq<Byte>>>, version: Version, whenRaw: nat)
    requires f.Integer? && AreHandlersPlain(f) && IsPointing(f, copy, whenRaw)
    ensures IsRestored(f, info, copy, strings, built, version) <==> DecodesInto(f, WhenData(f, whenRaw), info)
  {
    hide Apply, Pow256;
    var writes := Apply(f, WhenData(f, whenRaw)).value;
    if DecodesInto(f, WhenData(f, whenRaw), info) {
      forall k | k in Writes(f)
        ensures IsHeldAt(info, copy, k)
      {
        assert Holds(info, k, writes[k]);
      }
    } else {
      var k :| k in writes && !Holds(info, k, writes[k]);
      assert !IsHeldAt(info, copy, k);
    }
  }

  // An input which is not read back

  /** A capacity of one byte, with one of four bytes in a group of version 7 for those which do not fit. */
  const CAPACITY: seq<Field> :=
    [Integer(Member(8, 4), 1, {8}, PLAIN, 0, false, None, 0),
     Group(7, None),
     Integer(Member(8, 4), 4, {8}, PLAIN, 0, true, None, 255)]

  /** A structure of a capacity of 300, which does not fit one byte. */
  const STRUCTURE := S.Entity(1, 0, [1, 9, 0, 0, 255, 44, 1, 0, 0], [])

  /**
   Decoded from a structure which has the group, and written for version 6, a
   capacity of 300 is read back as 255: the extended representation has been
   chosen, and there is no group to hold it.
   */
  lemma WidenedIsLost()
    ensures S.IsCreated(STRUCTURE)
    ensures var r := S.Decode(STRUCTURE, CAPACITY, 7);
      && r.ok && !r.st.short && r.info == map[8 := Number(300)]
      && IsListOk(CAPACITY, r.info, 6, true) && Rewritten(STRUCTURE, CAPACITY, r.info, 6).Some?
      && var copy := Rewritten(STRUCTURE, CAPACITY, r.info, 6).value;
         !IsRestored(CAPACITY[0], r.info, S.Decode(copy, CAPACITY, 6).info, STRUCTURE.strings, copy.strings, 6)
  {
    hide IsListOk, Rewritten, S.Decode, IsRestored, IsWidened, S.IsCreated;
    var info := map[8 := Number(300)];
    StructureIsCreated();
    StructureIsDecoded();
    CapacityIsOk(info);
    CapacityIsWritten(STRUCTURE, info);
    CapacityIsWidened(info);
    CutIsRestored(STRUCTURE, CAPACITY, info, 6, 0, 2);
  }

  lemma StructureIsCreated()
    ensures S.IsCreated(STRUCTURE)
  {
    var handle := STRUCTURE.body[2..4];
    assert handle == [0, 0] && handle[1..] == [0] && handle[1..][1..] == [];
    assert LeLoad(handle[1..]) == 0 + 256 * LeLoad([]);
  }

  lemma StructureIsDecoded()
    ensures var r := S.Decode(STRUCTURE, CAPACITY, 7);
      r.ok && !r.st.short && r.info == map[8 := Number(300)]
  {
    hide D.DecodeOne, LeLoad;
    var src, choices := S.SourceOf(STRUCTURE, 7), [Choice(8, 255, 0, false)];
    CapacityIsCollected();
    var read, st1 := [Choice(8, 255, 255, false)], D.Define(S.START.(pos := 5), 0);
    PlainIsDecoded(src);
    var entered := D.Enter(st1, 7);
    ExtendedIsDecoded(src, entered);
    var st2 := D.Define(entered.(pos := 9), 0);
    var info := map[8 := Number(300)];
    assert D.DecodeFrom(src, CAPACITY, 3, st2, info, read, None, true) == D.Outcome(true, st2, info);
    assert D.DecodeFrom(src, CAPACITY, 2, entered, map[8 := Number(255)], read, None, true)
        == D.Outcome(true, st2, info);
    assert D.DecodeFrom(src, CAPACITY, 1, st1, map[8 := Number(255)], read, None, true) == D.Outcome(true, st2, info);
    assert D.DecodeFrom(src, CAPACITY, 0, S.START, map[], choices, None, true) == D.Outcome(true, st2, info);
    assert PresetsFrom(CAPACITY, 0, map[]) == map[] by {
      NothingIsPreset();
    }
  }

  lemma NothingIsPreset()
    ensures PresetsFrom(CAPACITY, 0, map[]) == map[]
  {
    assert PresetsFrom(CAPACITY, 3, map[]) == map[];
    assert PresetsFrom(CAPACITY, 2, map[]) == map[];
    assert PresetsFrom(CAPACITY, 1, map[]) == map[];
  }

  lemma PlainIsDecoded(src: D.Source)
    requires src == S.SourceOf(STRUCTURE, 7)
    ensures D.DecodeOne(src, CAPACITY[0], S.START, map[], [Choice(8, 255, 0, false)], false)
         == D.Step(true, S.START.(pos := 5), map[8 := Number(255)], [Choice(8, 255, 255, false)])
  {
    var f, data := CAPACITY[0], D.Ahead(src, S.START, 1);
    assert data == [255] && data[1..] == [];
    assert LeLoad(data) == 255 + 256 * LeLoad([]);
    assert D.ReadNumber(src, S.START, 1) == (true, S.START.(pos := 5), 255);
    assert Pow256(1) == 256 && Pow256(4) == 0x1_0000_0000;
    assert Apply(f, Data(255, NoText, [])) == Some(map[8 := Number(255)]);
    assert Find([Choice(8, 255, 0, false)], 8) == Some(0);
  }

  lemma ExtendedIsDecoded(src: D.Source, st: D.Reading)
    requires src == S.SourceOf(STRUCTURE, 7) && st.pos == 5
    ensures D.DecodeOne(src, CAPACITY[2], st, map[8 := Number(255)], [Choice(8, 255, 255, false)], true)
         == D.Step(true, st.(pos := 9), map[8 := Number(300)], [Choice(8, 255, 255, false)])
  {
    var f, data := CAPACITY[2], D.Ahead(src, st, 4);
    assert data == [44, 1, 0, 0];
    LoadOfFour(data);
    assert D.ReadNumber(src, st, 4) == (true, st.(pos := 9), 300);
    assert Pow256(1) == 256 && Pow256(4) == 0x1_0000_0000;
    assert Apply(f, Data(300, NoText, [])) == Some(map[8 := Number(300)]);
    assert Find([Choice(8, 255, 255, false)], 8) == Some(0);
  }

  lemma LoadOfFour(data: seq<Byte>)
    requires data == [44, 1, 0, 0]
    ensures LeLoad(data) == 300
  {
    assert data[1..] == [1, 0, 0] && data[1..][1..] == [0, 0] && data[1..][1..][1..] == [0];
    assert LeLoad([0]) == 0 + 256 * LeLoad([]);
    assert LeLoad([0, 0]) == 0 + 256 * LeLoad([0]);
    assert LeLoad([1, 0, 0]) == 1 + 256 * LeLoad([0, 0]);
  }

  lemma CapacityIsWidened(info: Info)
    requires info == map[8 := Number(300)]
    ensures EndOf(CAPACITY, 0, info, 6) == 1 && IsPair(CAPACITY[0], CAPACITY[2])
    ensures IsWidened(CAPACITY, WhenKey(CAPACITY[2]), CAPACITY[2].whenRaw, info)
    ensures !DecodesInto(CAPACITY[0], WhenData(CAPACITY[0], 255), info)
  {
    assert Pow256(1) == 256 && Pow256(4) == 0x1_0000_0000;
    assert Pow2(8) == 256;
    assert !IsExactIn(CAPACITY[0], info);
    assert IsWidenedBy(CAPACITY[0], 255, info);
    assert EndOf(CAPACITY, 1, info, 6) == 1;
  }

  lemma CapacityIsOk(info: Info)
    requires info == map[8 := Number(300)]
    ensures IsListOk(CAPACITY, info, 6, true)
  {
    hide IsWellFormed, IsPortable, AreFaithful;
    CapacityIsWellFormed();
    CapacityIsPortable();
    CapacityIsFaithful(info);
  }

  lemma CapacityIsFaithful(info: Info)
    requires info == map[8 := Number(300)]
    ensures AreFaithful(CAPACITY, info, 6)
  {
    CapacityIsWidened(info);
    assert E.ExtendedOf(CAPACITY, 8, 0) == Some(2) by {
      assert E.ExtendedOf(CAPACITY, 8, 1) == E.ExtendedOf(CAPACITY, 8, 2) == Some(2);
    }
    assert IsFaithful(CAPACITY, 0, info, 6);
  }

  lemma CapacityIsCollected()
    ensures Collect(CAPACITY) == [Choice(8, 255, 0, false)] && E.ExtendedOf(CAPACITY, 8, 0) == Some(2)
  {
    assert E.ExtendedOf(CAPACITY, 8, 1) == E.ExtendedOf(CAPACITY, 8, 2) == Some(2);
    assert CollectFrom(CAPACITY, 0, []) == CollectFrom(CAPACITY, 1, []) == CollectFrom(CAPACITY, 2, []);
    assert CollectFrom(CAPACITY, 3, [Choice(8, 255, 0, false)]) == [Choice(8, 255, 0, false)];
  }

  lemma CapacityHandlers()
    ensures AreHandlersPlain(CAPACITY[0]) && AreHandlersPlain(CAPACITY[2]) && IsTotal(CAPACITY[0])
  {
    hide Pow256;
  }

  lemma CapacityIsPortable()
    ensures IsPortable(CAPACITY, 6, true)
  {
    hide AreHandlersPlain, IsTotal, Collect, E.ExtendedOf;
    assert Pow256(1) == 256;
    CapacityIsCollected();
    CapacityHandlers();
    assert ArePairsPortable(CAPACITY);
  }

  lemma CapacityIsWellFormed()
    ensures IsWellFormed(CAPACITY, 6)
  {
    hide AreChoicesOk, IsFieldOk, AreApart;
    CapacityFields();
    CapacityChoices();
    assert AreRunsOk(CAPACITY, 3, 0, 6);
    assert AreRunsOk(CAPACITY, 2, 0, 6);
    assert AreRunsOk(CAPACITY, 1, 0, 6);
    forall i | 0 <= i < |CAPACITY|
      ensures IsFieldOk(CAPACITY[i]) && NestedOf(CAPACITY[i]) == []
    {
    }
  }

  lemma CapacityFields()
    ensures IsFieldOk(CAPACITY[0]) && IsFieldOk(CAPACITY[1]) && IsFieldOk(CAPACITY[2]) && AreApart(CAPACITY, 6)
  {
    hide Pow256;
  }

  lemma CapacityChoices()
    ensures AreChoicesOk(CAPACITY)
  {
    hide IsSpellable;
    CapacitySpelled();
    assert AreNamedIntegers(CAPACITY) && AreNamedOnce(CAPACITY) && AreExtendedOnce(CAPACITY);
    assert Key(CAPACITY[0]) == WhenKey(CAPACITY[2]);
    forall j, k | 0 <= j < |CAPACITY| && 0 <= k < |CAPACITY|
      ensures !Governs(CAPACITY, CAPACITY[j], Key(CAPACITY[k]))
    {
    }
  }

  lemma CapacitySpelled()
    ensures IsSpellable(CAPACITY[0])
  {
    hide Pow2, Apply, FitsWidth, HoldsAll;
    var f := CAPACITY[0];
    assert Pow256(1) == 256;
    forall info: Info, n: nat | n < Pow256(Width(f)) && DecodesInto(f, Data(n, NoText, []), info)
      ensures ModelData(f, info) == Some(Data(n, NoText, [])) && FitsWidth(f, Data(n, NoText, []))
    {
      CapacityHolds(f, info, n);
    }
  }

  lemma CapacityHolds(f: Field, info: Info, n: nat)
    requires f == CAPACITY[0] && n < 256 && DecodesInto(f, Data(n, NoText, []), info)
    ensures Load(info, f.member) == n && FitsWidth(f, Data(n, NoText, []))
  {
    hide Pow2;
    Pow2OfEight();
    assert Pow256(4) == 0x1_0000_0000;
    assert Apply(f, Data(n, NoText, [])) == Some(map[8 := Number(n)]);
    assert Holds(info, 8, map[8 := Number(n)][8]);
  }

  lemma CapacityIsWritten(e: S.Entity, info: Info)
    requires info == map[8 := Number(300)]
    ensures Rewritten(e, CAPACITY, info, 6).Some?
  {
    hide E.EncodeOne, LeStore;
    var t := S.TargetOf(e, false, 6);
    var w := S.Begin(e, t);
    var choices := [Choice(8, 255, 0, false)];
    CapacityIsCollected();
    CapacityIsPut(t, w, info);
    var (w', choices') := E.EncodeOne(t, w, CAPACITY, 0, info, choices).value;
    var stopped := w'.(stopped := true);
    assert E.EncodeFrom(t, stopped, CAPACITY, 2, info, choices') == Some(stopped);
    assert E.EncodeFrom(t, w', CAPACITY, 1, info, choices') == Some(stopped);
    assert E.EncodeFrom(t, w, CAPACITY, 0, info, choices) == Some(stopped);
  }

  lemma CapacityIsPut(t: E.Target, w: E.Writing, info: Info)
    requires t.Valid() && !t.preserve && !w.stopped && info == map[8 := Number(300)]
    ensures var r := E.EncodeOne(t, w, CAPACITY, 0, info, [Choice(8, 255, 0, false)]);
      r.Some? && !r.value.0.stopped && |r.value.0.out| == |w.out| + 1
  {
    hide E.GovernedFit, LeStore, Apply, HoldsAll;
    var original := E.SourceData(t, w, CAPACITY[0]);
    assert E.ValueData(CAPACITY[0], info, original).Some?;
    assert E.GovernedFit(CAPACITY, 0, info, 8, 0).Some? by {
      CapacityFits(info);
    }
  }

  lemma CapacityFits(info: Info)
    ensures E.GovernedFit(CAPACITY, 0, info, 8, 0).Some?
  {
    assert E.GovernedFit(CAPACITY, 0, info, 8, 0) == E.GovernedFit(CAPACITY, 0, info, 8, 1);
    assert E.GovernedFit(CAPACITY, 0, info, 8, 1) == E.GovernedFit(CAPACITY, 0, info, 8, 2);
    assert E.GovernedFit(CAPACITY, 0, info, 8, 2) == E.GovernedFit(CAPACITY, 0, info, 8, 3) == Some(true);
  }

  lemma RewrittenBody(e: S.Entity, fs: seq<Field>, info: Info, version: Version)
    requires e.handle < 0x1_0000 && Rewritten(e, fs, info, version).Some?
    ensures var t := S.TargetOf(e, false, version);
      var w, copy := E.EncodeList(t, S.Begin(e, t), fs, info).value, Rewritten(e, fs, info, version).value;
      && S.IsCreated(copy) && |copy.body| == |w.out|
      && forall j | S.HEADER_SIZE <= j < |w.out| :: copy.body[j] == w.out[j]
  {
    hide E.EncodeList, LeStore;
    var t := S.TargetOf(e, false, version);
    var w, copy := E.EncodeList(t, S.Begin(e, t), fs, info).value, Rewritten(e, fs, info, version).value;
    NothingIsCopied(t, w);
    assert copy.body == S.Header(e.kind, |w.out|, e.handle) + w.out[S.HEADER_SIZE..];
    assert copy.body[2..4] == LeStore(e.handle, 2);
    LoadStore(e.handle, 2);
    assert Pow256(2) == 0x1_0000;
  }

  lemma RewrittenAt(src: D.Source, x: seq<Byte>, begun: E.Writing)
    requires IsData(src, x, S.HEADER_SIZE) && IsShut(begun) && |begun.out| == S.HEADER_SIZE && IsAhead(begun, x)
    ensures IsAt(src, S.START, x, S.HEADER_SIZE, begun)
  {
    assert |StreamOf(begun)| == 8 * S.HEADER_SIZE;
  }

  lemma WholeIsAhead(begun: E.Writing, w: E.Writing)
    requires Grows(begun, w) && IsShut(w)
    ensures IsAhead(w, w.out) && IsAhead(begun, w.out)
  {
    assert StreamOf(w) == BytesBits(w.out);
  }

  lemma RewrittenIsRound(src: D.Source, x: seq<Byte>, t: E.Target, built: seq<Option<seq<Byte>>>)
    requires IsData(src, x, S.HEADER_SIZE) && t.Valid() && !t.preserve && t.version == src.version
    requires AreDistinct(built) && src.strings == built
    ensures IsRound(src, x, S.HEADER_SIZE, t, built)
  {
  }
}
/**
 Encoding in the preserve mode gives back the bytes decoded: the induction over
 the field language.
 */
module Identity {
  import opened Wrappers
  import opened Bytes
  import opened BitRuns
  import opened Schema
  import opened WellFormed
  import opened Frame
  import opened Lockstep
  import opened Scalars
  import opened Preserve
  import opened Arrays
  import D = Decoding
  import E = Encoding

  /**
   What has been written is the source's own, and the two are still in step,
   unless the encoder has stopped or nothing follows.
   */
  ghost predicate IsFollowed(src: D.Source, out: D.Outcome, t: E.Target, h: seq<Byte>,
                             w: Option<E.Writing>, last: bool) {
    && w.Some? && IsKept(t, h, w.value)
    && (w.value.stopped || last || (out.ok && HasReached(src, out.st, t, h, w.value)))
  }

  /** The same of a single field of a list. */
  ghost predicate IsFieldFollowed(src: D.Source, fs: seq<Field>, i: nat, one: D.Step, t: E.Target, h: seq<Byte>,
                                  r: E.Wrote, atEnd: bool)
    requires i < |fs|
  {
    && r.Some? && IsKept(t, h, r.value.0)
    && (if one.ok then
          || r.value.0.stopped
          || (&& IsOnTrack(src, one.st, t, h, r.value.0)
              && AreMatched(fs, i + 1, one.choices, r.value.1)
              && AreRunsOk(fs, i + 1, one.st.taken, src.version))
        else r.value.0.stopped || atEnd)
  }

  lemma NestedIsWellFormed(fs: seq<Field>, i: nat, version: Version)
    requires i < |fs| && IsWellFormed(fs, version)
    ensures IsWellFormed(NestedOf(fs[i]), version)
  {
    if |NestedOf(fs[i])| == 0 {
      assert NestedOf(fs[i]) == [];
    }
  }

  lemma WellFormedFields(fs: seq<Field>, i: nat, version: Version)
    requires IsWellFormed(fs, version)
    ensures AreFieldsOk(fs, version) && (i < |fs| ==> IsFieldOk(fs[i]))
  {
  }

  lemma {:induction false} ListKeeps(src: D.Source, st: D.Reading, t: E.Target, h: seq<Byte>, w: E.Writing,
                                     fs: seq<Field>, info: Info, last: bool)
    requires HasReached(src, st, t, h, w) && IsWellFormed(fs, src.version)
    requires !D.DecodeList(src, fs, st, info, last).st.lost
    ensures var out := D.DecodeList(src, fs, st, info, last);
      IsFollowed(src, out, t, h, E.EncodeList(t, w, fs, out.info), last)
    decreases fs, 4, 0
  {
    var choices := Collect(fs);
    CollectedAreOf(fs, 0, []);
    NothingIsRead(fs, choices);
    ClosedOnTrack(src, st, t, h, w);
    FromKeeps(src, st, t, h, w, fs, 0, PresetsFrom(fs, 0, info), choices, choices, None, last);
  }

  /** No member has been read before the list is. */
  lemma NothingIsRead(fs: seq<Field>, choices: seq<Choice>)
    requires AreKeyed(fs) && AreOf(fs, choices) && forall c | 0 <= c < |choices| :: !choices[c].extended
    ensures AreMatched(fs, 0, choices, choices)
  {
    forall c | 0 <= c < |choices|
      ensures IsUnread(fs, 0, choices[c].key)
    {
      assert IsOf(fs, choices[c]);
    }
  }

  lemma {:induction false} FromKeeps(src: D.Source, st: D.Reading, t: E.Target, h: seq<Byte>, w: E.Writing,
                                     fs: seq<Field>, i: nat, info: Info, read: seq<Choice>, written: seq<Choice>,
                                     group: Option<Member>, last: bool)
    requires IsOnTrack(src, st, t, h, w) && IsWellFormed(fs, src.version)
    requires AreRunsOk(fs, i, st.taken, src.version) && IsGroupBefore(fs, i, group)
    requires AreOf(fs, read) && AreMatched(fs, i, read, written)
    requires !D.DecodeFrom(src, fs, i, st, info, read, group, last).st.lost
    ensures var out := D.DecodeFrom(src, fs, i, st, info, read, group, last);
      IsFollowed(src, out, t, h, E.EncodeFrom(t, w, fs, i, out.info, written), last)
    decreases fs, 3, |fs| - i, 1
  {
    hide IsWellFormed, AreMatched, AreOf, AreRunsOk, D.IsLater, AreSameStrings, IsGroupBefore;
    if i >= |fs| {
      EndKeeps(src, st, t, h, w, fs, i, info, read, written, group, last);
    } else if fs[i].Offset? || fs[i].Preset? || !IsDefined(fs[i], src.version) {
      PassedKeeps(src, st, t, h, w, fs, i, info, read, written, group, last);
    } else if fs[i].Group? {
      GroupKeeps(src, st, t, h, w, fs, i, info, read, written, group, last);
    } else {
      FieldKeeps(src, st, t, h, w, fs, i, info, read, written, group, last);
    }
  }

  lemma EndKeeps(src: D.Source, st: D.Reading, t: E.Target, h: seq<Byte>, w: E.Writing, fs: seq<Field>, i: nat,
                 info: Info, read: seq<Choice>, written: seq<Choice>, group: Option<Member>, last: bool)
    requires IsOnTrack(src, st, t, h, w) && AreRunsOk(fs, i, st.taken, src.version) && i >= |fs|
    requires !D.DecodeFrom(src, fs, i, st, info, read, group, last).st.lost
    ensures var out := D.DecodeFrom(src, fs, i, st, info, read, group, last);
      IsFollowed(src, out, t, h, E.EncodeFrom(t, w, fs, i, out.info, written), last)
  {
    hide IsOnTrack, HasReached, IsKept, D.IsLater;
    ClosedOnTrack(src, st, t, h, w);
  }

  /** Fields which occupy no bytes of their own. */
  lemma {:induction false} PassedKeeps(src: D.Source, st: D.Reading, t: E.Target, h: seq<Byte>, w: E.Writing,
                                       fs: seq<Field>, i: nat, info: Info, read: seq<Choice>, written: seq<Choice>,
                                       group: Option<Member>, last: bool)
    requires IsOnTrack(src, st, t, h, w) && IsWellFormed(fs, src.version)
    requires AreRunsOk(fs, i, st.taken, src.version) && IsGroupBefore(fs, i, group)
    requires AreOf(fs, read) && AreMatched(fs, i, read, written)
    requires i < |fs| && (fs[i].Offset? || fs[i].Preset? || !IsDefined(fs[i], src.version))
    requires !D.DecodeFrom(src, fs, i, st, info, read, group, last).st.lost
    ensures var out := D.DecodeFrom(src, fs, i, st, info, read, group, last);
      IsFollowed(src, out, t, h, E.EncodeFrom(t, w, fs, i, out.info, written), last)
    decreases fs, 3, |fs| - i, 0
  {
    hide IsWellFormed, AreFieldsOk, AreNamedIntegers, AreMatched, AreOf, AreRunsOk, D.DecodeFrom, E.EncodeFrom;
    hide AreSameStrings, IsFollowed, D.IsLater, IsInStep, IsSameSource, IsGroupBefore, AreApart, AreChoicesOk;
    PassStep(src, st, t, h, w, fs, i, info, read, written, group, last);
    WellFormedFields(fs, i, src.version);
    OtherStaysMatched(fs, i, read, written, src.version);
    GroupStaysBefore(fs, i, group);
    FromKeeps(src, st, t, h, w, fs, i + 1, info, read, written, group, last);
  }

  lemma OtherStaysMatched(fs: seq<Field>, i: nat, read: seq<Choice>, written: seq<Choice>, version: Version)
    requires i < |fs| && !fs[i].Integer? && !IsExtended(fs[i]) && AreFieldsOk(fs, version)
    requires AreOf(fs, read) && AreMatched(fs, i, read, written)
    ensures AreMatched(fs, i + 1, read, written)
  {
    hide AreFieldsOk, AreNamedIntegers, AreMatched, AreOf;
    ListIsOk(fs, version);
    OnlyIntegersAreNamed(fs, i, read);
    MatchedAfterOther(fs, i, read, written);
  }

  lemma PassStep(src: D.Source, st: D.Reading, t: E.Target, h: seq<Byte>, w: E.Writing,
                 fs: seq<Field>, i: nat, info: Info, read: seq<Choice>, written: seq<Choice>,
                 group: Option<Member>, last: bool)
    requires IsOnTrack(src, st, t, h, w) && AreRunsOk(fs, i, st.taken, src.version)
    requires i < |fs| && (fs[i].Offset? || fs[i].Preset? || !IsDefined(fs[i], src.version))
    requires !D.DecodeFrom(src, fs, i, st, info, read, group, last).st.lost
    ensures AreRunsOk(fs, i + 1, st.taken, src.version)
    ensures D.DecodeFrom(src, fs, i, st, info, read, group, last)
         == D.DecodeFrom(src, fs, i + 1, st, info, read, group, last)
    ensures forall final: Info ::
      E.EncodeFrom(t, w, fs, i, final, written) == E.EncodeFrom(t, w, fs, i + 1, final, written)
    ensures !fs[i].Integer? && !IsExtended(fs[i])
  {
    if fs[i].Offset? {
      ClosedOnTrack(src, st, t, h, w);
    }
  }

  /** The source ends where the data has, and a group which is not there ends it too. */
  lemma {:induction false} GroupKeeps(src: D.Source, st: D.Reading, t: E.Target, h: seq<Byte>, w: E.Writing,
                                      fs: seq<Field>, i: nat, info: Info, read: seq<Choice>, written: seq<Choice>,
                                      group: Option<Member>, last: bool)
    requires IsOnTrack(src, st, t, h, w) && IsWellFormed(fs, src.version)
    requires AreRunsOk(fs, i, st.taken, src.version) && IsGroupBefore(fs, i, group)
    requires AreOf(fs, read) && AreMatched(fs, i, read, written)
    requires i < |fs| && fs[i].Group?
    requires !D.DecodeFrom(src, fs, i, st, info, read, group, last).st.lost
    ensures var out := D.DecodeFrom(src, fs, i, st, info, read, group, last);
      IsFollowed(src, out, t, h, E.EncodeFrom(t, w, fs, i, out.info, written), last)
    decreases fs, 3, |fs| - i, 0
  {
    hide D.DecodeOne, E.EncodeOne, D.Pending;
    hide IsWellFormed, AreFieldsOk, AreNamedIntegers, AreMatched, AreOf;
    WellFormedFields(fs, i, src.version);
    ListIsOk(fs, src.version);
    var f := fs[i];
    ClosedOnTrack(src, st, t, h, w);
    var out := D.DecodeFrom(src, fs, i, st, info, read, group, last);
    if st.pos < src.end && !E.Ends(t, w, f, out.info) {
      OnlyIntegersAreNamed(fs, i, read);
      MatchedAfterOther(fs, i, read, written);
      var st' := D.Enter(st, f.since);
      FromKeeps(src, st', t, h, w, fs, i + 1, D.MarkGroup(group, info).value, read, written, f.present, last);
    }
  }

  lemma OnTrackRuns(src: D.Source, st: D.Reading, t: E.Target, h: seq<Byte>, w: E.Writing)
    requires IsOnTrack(src, st, t, h, w)
    ensures src.Valid() && t.Valid() && !w.stopped && IsKept(t, h, w)
  {
  }

  predicate IsField(fs: seq<Field>, i: nat, version: Version) {
    i < |fs| && !fs[i].Offset? && !fs[i].Preset? && !fs[i].Group? && IsDefined(fs[i], version)
  }

  lemma DecodeStep(src: D.Source, fs: seq<Field>, i: nat, st: D.Reading, info: Info, read: seq<Choice>,
                   group: Option<Member>, last: bool)
    requires src.Valid() && IsField(fs, i, src.version)
    ensures var one := D.DecodeOne(src, fs[i], st, info, read, last && i + 1 == |fs|);
      var out := D.DecodeFrom(src, fs, i, st, info, read, group, last);
      && (one.st.lost ==> out.st.lost)
      && if one.ok then
           out == D.DecodeFrom(src, fs, i + 1, D.Define(one.st, DefinedFrom(fs[i])),
                               one.info, one.choices, group, last)
         else out.info == one.info
  {
  }

  lemma EncodeStep(t: E.Target, w: E.Writing, fs: seq<Field>, i: nat, info: Info, written: seq<Choice>)
    requires t.Valid() && IsField(fs, i, t.version) && !w.stopped
    requires E.EncodeOne(t, w, fs, i, info, written).Some?
    ensures var (w', written') := E.EncodeOne(t, w, fs, i, info, written).value;
      && E.EncodeFrom(t, w, fs, i, info, written) == E.EncodeFrom(t, w', fs, i + 1, info, written')
      && (w'.stopped || i + 1 == |fs| ==> E.EncodeFrom(t, w', fs, i + 1, info, written') == Some(w'))
  {
  }

  lemma {:induction false} FieldKeeps(src: D.Source, st: D.Reading, t: E.Target, h: seq<Byte>, w: E.Writing,
                                      fs: seq<Field>, i: nat, info: Info, read: seq<Choice>, written: seq<Choice>,
                                      group: Option<Member>, last: bool)
    requires IsOnTrack(src, st, t, h, w) && IsWellFormed(fs, src.version)
    requires AreRunsOk(fs, i, st.taken, src.version) && IsGroupBefore(fs, i, group)
    requires AreOf(fs, read) && AreMatched(fs, i, read, written) && IsField(fs, i, src.version)
    requires !D.DecodeFrom(src, fs, i, st, info, read, group, last).st.lost
    ensures var out := D.DecodeFrom(src, fs, i, st, info, read, group, last);
      IsFollowed(src, out, t, h, E.EncodeFrom(t, w, fs, i, out.info, written), last)
    decreases fs, 3, |fs| - i, 0
  {
    hide IsFieldOk, AreFieldsOk, IsWellFormed, AreRunsOk, IsInStep, AreMatched, IsSettled, IsGovernedExact;
    hide D.DecodeOne, E.EncodeOne, D.DecodeFrom, E.EncodeFrom, AreOf, AreSameKeys, AreSameStrings, IsGroupBefore;
    hide HasReached, IsKept, D.IsLater, IsFieldFollowed;
    WellFormedFields(fs, i, src.version);
    OnTrackRuns(src, st, t, h, w);
    var f := fs[i];
    var atEnd := last && i + 1 == |fs|;
    var one := D.DecodeOne(src, f, st, info, read, atEnd);
    var out := D.DecodeFrom(src, fs, i, st, info, read, group, last);
    DecodeStep(src, fs, i, st, info, read, group, last);
    if one.ok {
      FinalHolds(src, fs, i, st, info, read, group, last);
    }
    OneKeeps(src, st, t, h, w, fs, i, info, read, written, atEnd, out.info);
    WhatFollows(src, fs, i, one, t, h, E.EncodeOne(t, w, fs, i, out.info, written), atEnd);
    EncodeStep(t, w, fs, i, out.info, written);
    var (w', written') := E.EncodeOne(t, w, fs, i, out.info, written).value;
    if one.ok && !w'.stopped {
      NextKeeps(src, one.st, t, h, w', fs, i, one.info, read, one.choices, written', group, last) by {
        OneChoices(src, f, st, info, read, atEnd);
      }
    }
  }

  /** What holds in the end of a field which has been read. */
  lemma FinalHolds(src: D.Source, fs: seq<Field>, i: nat, st: D.Reading, info: Info, read: seq<Choice>,
                   group: Option<Member>, last: bool)
    requires src.Valid() && AreFieldsOk(fs, src.version) && AreOf(fs, read) && IsGroupBefore(fs, i, group)
    requires IsField(fs, i, src.version)
    requires D.DecodeOne(src, fs[i], st, info, read, last && i + 1 == |fs|).ok
    requires !D.DecodeFrom(src, fs, i, st, info, read, group, last).st.lost
    ensures var one := D.DecodeOne(src, fs[i], st, info, read, last && i + 1 == |fs|);
      var final := D.DecodeFrom(src, fs, i, st, info, read, group, last).info;
      IsSettled(fs, i, one.info, one.choices, src.version, final)
      && IsGovernedExact(fs, i, read, one.choices, final)
  {
    hide AreFieldsOk, AreOf, IsGroupBefore, D.DecodeOne, D.DecodeFrom, IsSettled, IsGovernedExact, D.IsLater;
    var one := D.DecodeOne(src, fs[i], st, info, read, last && i + 1 == |fs|);
    DecodeStep(src, fs, i, st, info, read, group, last);
    SettledFrom(src, fs, i, D.Define(one.st, DefinedFrom(fs[i])), one.info, one.choices,
                group, last);
    GovernedFrom(src, fs, i, st, info, read, group, last);
  }

  lemma WhatFollows(src: D.Source, fs: seq<Field>, i: nat, one: D.Step, t: E.Target, h: seq<Byte>,
                    r: E.Wrote, atEnd: bool)
    requires i < |fs| && IsFieldFollowed(src, fs, i, one, t, h, r, atEnd)
    ensures r.Some? && IsKept(t, h, r.value.0)
    ensures one.ok && !r.value.0.stopped ==>
      && IsOnTrack(src, one.st, t, h, r.value.0)
      && AreMatched(fs, i + 1, one.choices, r.value.1)
      && AreRunsOk(fs, i + 1, one.st.taken, src.version)
    ensures !one.ok ==> r.value.0.stopped || atEnd
  {
  }

  lemma {:induction false} NextKeeps(src: D.Source, st: D.Reading, t: E.Target, h: seq<Byte>, w: E.Writing,
                                     fs: seq<Field>, i: nat, info: Info, before: seq<Choice>, read: seq<Choice>,
                                     written: seq<Choice>, group: Option<Member>, last: bool)
    requires i < |fs| && IsOnTrack(src, st, t, h, w) && IsWellFormed(fs, src.version)
    requires AreRunsOk(fs, i + 1, st.taken, src.version) && IsGroupBefore(fs, i, group)
    requires AreOf(fs, before) && AreSameKeys(before, read) && AreMatched(fs, i + 1, read, written)
    requires var st' := D.Define(st, DefinedFrom(fs[i]));
      !D.DecodeFrom(src, fs, i + 1, st', info, read, group, last).st.lost
    ensures var st' := D.Define(st, DefinedFrom(fs[i]));
      var out := D.DecodeFrom(src, fs, i + 1, st', info, read, group, last);
      IsFollowed(src, out, t, h, E.EncodeFrom(t, w, fs, i + 1, out.info, written), last)
    decreases fs, 3, |fs| - i - 1, 2
  {
    hide IsWellFormed, AreRunsOk, AreMatched, AreOf, AreSameKeys, IsGroupBefore, D.DecodeFrom, E.EncodeFrom;
    hide IsInStep, IsSameSource, IsFollowed, D.IsLater;
    var st' := D.Define(st, DefinedFrom(fs[i]));
    SameKeysAreOf(fs, before, read);
    DefinedOnTrack(src, st, t, h, w, st'.defined);
    GroupStaysBefore(fs, i, group);
    FromKeeps(src, st', t, h, w, fs, i + 1, info, read, written, group, last);
  }

  lemma GroupStaysBefore(fs: seq<Field>, i: nat, group: Option<Member>)
    requires IsGroupBefore(fs, i, group)
    ensures IsGroupBefore(fs, i + 1, group)
  {
  }

  lemma DefinedOnTrack(src: D.Source, st: D.Reading, t: E.Target, h: seq<Byte>, w: E.Writing, version: Version)
    requires IsOnTrack(src, st, t, h, w)
    ensures IsOnTrack(src, st.(defined := version), t, h, w)
  {
  }

  /** Members a field governs, if it does not point at their extended fields. */
  lemma GovernedFrom(src: D.Source, fs: seq<Field>, i: nat, st: D.Reading, info: Info, read: seq<Choice>,
                     group: Option<Member>, last: bool)
    requires src.Valid() && AreFieldsOk(fs, src.version) && AreOf(fs, read) && IsGroupBefore(fs, i, group)
    requires IsField(fs, i, src.version)
    requires D.DecodeOne(src, fs[i], st, info, read, last && i + 1 == |fs|).ok
    requires !D.DecodeFrom(src, fs, i, st, info, read, group, last).st.lost
    ensures var one := D.DecodeOne(src, fs[i], st, info, read, last && i + 1 == |fs|);
      IsGovernedExact(fs, i, read, one.choices, D.DecodeFrom(src, fs, i, st, info, read, group, last).info)
  {
    hide IsUnread;
    hide AreApart, AreNamedOnce, AreKeyed, AreExtendedOnce, AreGovernorsFree, IsFieldOk, D.DecodeOne, D.DecodeFrom;
    hide D.IsLater, IsExactIn, Governs, AreGovernedAfter;
    OneChoices(src, fs[i], st, info, read, last && i + 1 == |fs|);
    DecodeStep(src, fs, i, st, info, read, group, last);
    var f := fs[i];
    var one := D.DecodeOne(src, f, st, info, read, last && i + 1 == |fs|);
    var c := Find(read, Key(f));
    if !IsExtended(f) && c.Some? && one.choices[c.value].raw != read[c.value].whenRaw {
      SameKeysAreOf(fs, read, one.choices);
      SameKeysFindFrom(read, one.choices, Key(f), 0);
      var k := GovernorOf(fs, i, read, c.value);
      var st' := D.Define(one.st, DefinedFrom(f));
      GroupStaysBefore(fs, i, group);
      forall j | 0 <= j < |fs| && !IsExtended(fs[j]) && Governs(fs, fs[j], Key(f))
        ensures IsExactIn(fs[j], D.DecodeFrom(src, fs, i, st, info, read, group, last).info)
      {
        GovernedIsAfter(fs, i, j);
        ExactFrom(src, fs, i + 1, st', one.info, one.choices, group, last, j, i);
      }
    }
  }

  lemma GovernedIsAfter(fs: seq<Field>, i: nat, j: nat)
    requires i < |fs| && j < |fs| && !IsExtended(fs[i]) && !IsExtended(fs[j]) && Governs(fs, fs[j], Key(fs[i]))
    requires AreGovernedAfter(fs)
    ensures i < j
  {
  }

  lemma {:induction false} OneKeeps(src: D.Source, st: D.Reading, t: E.Target, h: seq<Byte>, w: E.Writing,
                                    fs: seq<Field>, i: nat, info: Info, read: seq<Choice>, written: seq<Choice>,
                                    atEnd: bool, final: Info)
    requires IsOnTrack(src, st, t, h, w) && IsWellFormed(fs, src.version)
    requires IsField(fs, i, src.version) && AreRunsOk(fs, i, st.taken, src.version)
    requires AreOf(fs, read) && AreMatched(fs, i, read, written)
    requires var one := D.DecodeOne(src, fs[i], st, info, read, atEnd);
      && !one.st.lost
      && (if one.ok then IsSettled(fs, i, one.info, one.choices, src.version, final) else final == one.info)
      && (one.ok ==> IsGovernedExact(fs, i, read, one.choices, final))
    ensures IsFieldFollowed(src, fs, i, D.DecodeOne(src, fs[i], st, info, read, atEnd), t, h,
                            E.EncodeOne(t, w, fs, i, final, written), atEnd)
    decreases fs, 2, 1
  {
    hide IsWellFormed, AreFieldsOk, AreNamedIntegers, AreMatched, AreOf, AreRunsOk, IsSettled, IsGovernedExact;
    WellFormedFields(fs, i, src.version);
    ListIsOk(fs, src.version);
    if IsScalar(fs[i]) {
      ScalarFollows(src, st, t, h, w, fs, i, info, read, written, atEnd, final);
    } else {
      OnlyIntegersAreNamed(fs, i, read);
      MatchedAfterOther(fs, i, read, written);
      OtherIsSettled(src, st, fs, i, info, read, atEnd, final);
      OtherKeeps(src, st, t, h, w, fs, i, info, read, written, atEnd, final);
    }
  }

  lemma ScalarFollows(src: D.Source, st: D.Reading, t: E.Target, h: seq<Byte>, w: E.Writing, fs: seq<Field>, i: nat,
                      info: Info, read: seq<Choice>, written: seq<Choice>, atEnd: bool, final: Info)
    requires IsOnTrack(src, st, t, h, w) && AreFieldsOk(fs, src.version)
    requires i < |fs| && IsScalar(fs[i]) && AreRunsOk(fs, i, st.taken, src.version)
    requires AreOf(fs, read) && AreMatched(fs, i, read, written)
    requires var one := D.DecodeOne(src, fs[i], st, info, read, atEnd);
      && !one.st.lost
      && (one.ok ==> IsSettled(fs, i, one.info, one.choices, src.version, final))
      && (one.ok ==> IsGovernedExact(fs, i, read, one.choices, final))
    ensures IsFieldFollowed(src, fs, i, D.DecodeOne(src, fs[i], st, info, read, atEnd), t, h,
                            E.EncodeOne(t, w, fs, i, final, written), atEnd)
  {
    hide AreApart, AreNamedIntegers, AreNamedOnce, AreKeyed, AreExtendedOnce, AreGovernedAfter, AreGovernorsFree;
    hide E.EncodeScalar, IsSettled, AreMatched, AreOf, IsInStep, D.DecodeOne, AreGovernedExact;
    var one := D.DecodeOne(src, fs[i], st, info, read, atEnd);
    ClosedOnTrack(src, st, t, h, w);
    if one.ok {
      OneChoices(src, fs[i], st, info, read, atEnd);
      ScalarKeeps(src, st, t, h, w, fs, i, info, read, written, final, atEnd);
      ClosedOnTrack(src, one.st, t, h, E.EncodeScalar(t, w, fs, i, final, written).value.0);
    } else {
      ScalarEnds(src, st, fs[i], info, read, atEnd);
      ScalarStops(src, st, t, h, w, fs, i, written, final);
    }
  }

  /** The members of a field which is no plain integer are set by nothing else. */
  lemma OtherIsSettled(src: D.Source, st: D.Reading, fs: seq<Field>, i: nat, info: Info, read: seq<Choice>,
                       atEnd: bool, final: Info)
    requires src.Valid() && IsField(fs, i, src.version) && !IsScalar(fs[i]) && AreFieldsOk(fs, src.version)
    requires var one := D.DecodeOne(src, fs[i], st, info, read, atEnd);
      if one.ok then IsSettled(fs, i, one.info, one.choices, src.version, final) else final == one.info
    requires AreOf(fs, read)
    ensures var one := D.DecodeOne(src, fs[i], st, info, read, atEnd);
      forall k | k in Writes(fs[i]) :: IsSameAt(final, one.info, k)
  {
    hide AreApart, AreNamedOnce, AreKeyed, AreExtendedOnce, AreGovernedAfter, AreGovernorsFree, IsFieldOk;
    hide D.DecodeOne, MayWrite;
    var one := D.DecodeOne(src, fs[i], st, info, read, atEnd);
    if one.ok {
      OnlyIntegersAreNamed(fs, i, read);
      UnpairedIsNotOverwritten(fs, i, one.choices, src.version);
    }
  }

  /** The same as for a scalar field, for the ones which have no choices to make. */
  ghost predicate IsOtherFollowed(src: D.Source, fs: seq<Field>, i: nat, ok: bool, st: D.Reading, t: E.Target,
                                  h: seq<Byte>, r: Option<E.Writing>, atEnd: bool)
    requires i < |fs|
  {
    && r.Some? && IsKept(t, h, r.value)
    && (if ok then
          || r.value.stopped
          || (IsOnTrack(src, st, t, h, r.value) && AreRunsOk(fs, i + 1, st.taken, src.version))
        else r.value.stopped || atEnd)
  }

  lemma {:induction false} OtherKeeps(src: D.Source, st: D.Reading, t: E.Target, h: seq<Byte>, w: E.Writing,
                                      fs: seq<Field>, i: nat, info: Info, read: seq<Choice>, written: seq<Choice>,
                                      atEnd: bool, final: Info)
    requires IsOnTrack(src, st, t, h, w) && IsWellFormed(fs, src.version)
    requires IsField(fs, i, src.version) && !IsScalar(fs[i]) && AreRunsOk(fs, i, st.taken, src.version)
    requires var one := D.DecodeOne(src, fs[i], st, info, read, atEnd);
      && !one.st.lost && forall k | k in Writes(fs[i]) :: IsSameAt(final, one.info, k)
    ensures var one := D.DecodeOne(src, fs[i], st, info, read, atEnd);
      var r := E.EncodeOne(t, w, fs, i, final, written);
      && one.choices == read
      && r.Some? && r.value.1 == written
      && IsOtherFollowed(src, fs, i, one.ok, one.st, t, h, Some(r.value.0), atEnd)
    decreases fs, 2, 0
  {
    hide E.Copy, E.EncodeScalar;
    hide IsWellFormed, AreFieldsOk, IsFieldOk, D.IsLater, AreSameStrings, IsInStep, IsKept, D.DecodeVector;
    hide D.DecodeArray, D.DecodeBits, D.DecodePad, D.DecodeList, E.EncodeList, E.EncodeArray, E.EncodeVector;
    hide E.EncodeBits, E.EncodePad;
    WellFormedFields(fs, i, src.version);
    var f := fs[i];
    if f.Bits? {
      BitsKeep(src, st, t, h, w, f, info, final);
      OnTrackRuns(src, D.DecodeBits(src, f, st, info).st, t, h, E.EncodeBits(t, w, f, final).value);
    } else if f.Pad? {
      PadKeeps(src, st, t, h, w, f, info);
      PadOnTrack(src, D.DecodePad(src, f, st, info).st, t, h, E.EncodePad(t, w, f).value);
    } else {
      ClosedOnTrack(src, st, t, h, w);
      if f.Skip? {
        SkipKeeps(src, st, t, h, w, f, info, read, atEnd);
      } else {
        NestedIsWellFormed(fs, i, src.version);
        NestedKeeps(src, st, t, h, w, f, info, final, atEnd);
      }
    }
  }

  lemma PadOnTrack(src: D.Source, st: D.Reading, t: E.Target, h: seq<Byte>, w: E.Writing)
    requires HasReached(src, st, t, h, w)
    ensures IsOnTrack(src, st, t, h, w) && IsKept(t, h, w)
  {
  }

  lemma SkipKeeps(src: D.Source, st: D.Reading, t: E.Target, h: seq<Byte>, w: E.Writing, f: Field,
                  info: Info, read: seq<Choice>, atEnd: bool)
    requires HasReached(src, st, t, h, w) && f.Skip?
    requires !D.DecodeOne(src, f, st, info, read, atEnd).st.lost
    ensures var one := D.DecodeOne(src, f, st, info, read, atEnd);
      && one.ok && one.choices == read && HasReached(src, one.st, t, h, E.Copy(t, w, f.length))
      && IsKept(t, h, E.Copy(t, w, f.length))
  {
    assert f.length <= D.Remaining(src, st);
    CopyInStep(src, st, t, h, w, f.length);
  }

  predicate IsNested(f: Field) {
    f.Struct? || f.Vector? || f.Array?
  }

  /** What is written for a field made of other fields. */
  function EncodeNested(t: E.Target, w: E.Writing, f: Field, info: Info): Option<E.Writing>
    requires t.Valid() && IsNested(f)
  {
    match f
    case Struct(m, fields) => E.EncodeList(t, w, fields, RecordAt(info, m.id))
    case Vector(m, _, _) => E.EncodeVector(t, w, f, 0, RecordsAt(info, m.id))
    case Array(_, _, _, _, _, _, _, _, _) => E.EncodeArray(t, w, f, info)
  }

  lemma {:induction false} NestedKeeps(src: D.Source, st: D.Reading, t: E.Target, h: seq<Byte>, w: E.Writing,
                                       f: Field, info: Info, final: Info, atEnd: bool)
    requires HasReached(src, st, t, h, w) && IsNested(f) && IsFieldOk(f)
    requires IsWellFormed(f.fields, src.version)
    requires var one := D.DecodeOne(src, f, st, info, [], atEnd);
      && !one.st.lost && forall k | k in Writes(f) :: IsSameAt(final, one.info, k)
    ensures var one := D.DecodeOne(src, f, st, info, [], atEnd);
      var r := EncodeNested(t, w, f, final);
      && r.Some? && IsKept(t, h, r.value)
      && (r.value.stopped || (if one.ok then HasReached(src, one.st, t, h, r.value) else atEnd))
    decreases f, 3, 0
  {
    hide IsWellFormed;
    assert f.member.id in Writes(f);
    if f.Struct? {
      ListKeeps(src, st.(optional := false), t, h, w, f.fields, RecordAt(info, f.member.id), false);
    } else if f.Vector? {
      VectorKeeps(src, st, t, h, w, f, 0, RecordsAt(info, f.member.id));
    } else {
      ArrayKeeps(src, st, t, h, w, f, info, final, atEnd);
    }
  }

  /** Nothing is written once the encoder has stopped. */
  lemma {:induction false} StoppedVector(t: E.Target, w: E.Writing, f: Field, i: nat, elements: seq<Info>)
    requires t.Valid() && f.Vector? && w.stopped
    ensures E.EncodeVector(t, w, f, i, elements) == Some(w)
    decreases f.count - i
  {
    if i < f.count {
      assert E.EncodeList(t, w, f.fields, ElementAt(elements, i)) == Some(w);
      StoppedVector(t, w, f, i + 1, elements);
    }
  }

  lemma {:induction false} VectorKeeps(src: D.Source, st: D.Reading, t: E.Target, h: seq<Byte>, w: E.Writing,
                                       f: Field, i: nat, elements: seq<Info>)
    requires HasReached(src, st, t, h, w) && f.Vector? && IsWellFormed(f.fields, src.version)
    requires !D.DecodeVector(src, f, i, st, elements).1.lost
    ensures var (ok, st', elements') := D.DecodeVector(src, f, i, st, elements);
      var r := E.EncodeVector(t, w, f, i, elements');
      && r.Some? && IsKept(t, h, r.value)
      && (r.value.stopped || (ok && HasReached(src, st', t, h, r.value)))
    decreases f, 1, f.count - i
  {
    hide IsWellFormed;
    if i < f.count {
      var r := D.DecodeNested(src, f.fields, st, ElementAt(elements, i));
      var elements' := D.PutElement(elements, i, r.info);
      ListKeeps(src, st.(optional := false), t, h, w, f.fields, ElementAt(elements, i), false);
      var final := D.DecodeVector(src, f, i, st, elements).2;
      assert ElementAt(final, i) == r.info by {
        assert r.ok ==> ElementAt(D.DecodeVector(src, f, i + 1, r.st, elements').2, i) == ElementAt(elements', i);
      }
      var w' := E.EncodeList(t, w, f.fields, r.info).value;
      if w'.stopped {
        StoppedVector(t, w', f, i + 1, final);
      } else {
        VectorKeeps(src, r.st, t, h, w', f, i + 1, elements');
      }
    }
  }

  // Arrays

  lemma HeaderEnds(src: D.Source, st: D.Reading, f: Field, info: Info)
    requires src.Valid() && f.Array? && IsFieldOk(f)
    requires !D.DecodeHeader(src, f, st, info).ok && !D.DecodeHeader(src, f, st, info).st.lost
    ensures D.Remaining(src, st) < f.countLength + f.strideLength
  {
    hide D.IsLater, D.ReadNumbers, D.StoreOptional;
    NumbersEnd(src, st, f);
  }

  lemma NumbersEnd(src: D.Source, st: D.Reading, f: Field)
    requires src.Valid() && f.Array? && f.countLength <= 8 && f.strideLength <= 8
    ensures var n := D.ReadNumbers(src, f, st);
      !n.ok && !n.st.lost ==> D.Remaining(src, st) < f.countLength + f.strideLength
  {
    hide D.IsLater, LeLoad;
  }

  lemma {:induction false} ArrayKeeps(src: D.Source, st: D.Reading, t: E.Target, h: seq<Byte>, w: E.Writing,
                                      f: Field, info: Info, final: Info, atEnd: bool)
    requires HasReached(src, st, t, h, w) && f.Array? && IsFieldOk(f) && IsWellFormed(f.fields, src.version)
    requires var one := D.DecodeArray(src, f, st, info, atEnd);
      && !one.st.lost && forall k | k in Writes(f) :: IsSameAt(final, one.info, k)
    ensures var one := D.DecodeArray(src, f, st, info, atEnd);
      var r := E.EncodeArray(t, w, f, final);
      && r.Some? && IsKept(t, h, r.value)
      && (r.value.stopped || (if one.ok then HasReached(src, one.st, t, h, r.value) else atEnd))
    decreases f, 2, 0
  {
    hide D.DecodeElements, E.EncodeElements, D.DecodeHeader, E.EncodeHeader, IsInStep, IsFieldOk, IsWellFormed;
    hide E.PutRaw, E.PeekRaw, IsSkipped;
    var hd := D.DecodeHeader(src, f, st, info);
    if !hd.ok {
      HeaderEnds(src, st, f, info);
      HeaderStops(src, st, t, h, w, f);
    } else {
      NumbersAreHeld(src, st, f, info, final, atEnd);
      HeaderKeeps(src, st, t, h, w, f, info, final);
      var hd' := E.EncodeHeader(t, w, f, final, Load(final, f.counter)).value;
      ClosedOnTrack(src, hd.st, t, h, hd'.w);
      if hd.count == 0 {
        NoElementsKeep(src, st, t, h, w, f, info, final, atEnd);
      } else if IsSkipped(f, hd.stride) {
        SkippedKeep(src, st, t, h, w, f, info, final, atEnd);
      } else {
        ElementsAreHeld(src, st, f, info, final, atEnd);
        ArrayIsElements(src, st, t, h, w, f, info, final, atEnd);
        ElementsKeep(src, hd.st, t, h, hd'.w, f, hd.stride, hd.count, [], atEnd);
        ShortIsReached(src, D.DecodeElements(src, f, hd.stride, hd.count, hd.st, [], atEnd).1, t, h,
                       E.EncodeArray(t, w, f, final).value, D.DecodeArray(src, f, st, info, atEnd).st);
      }
    }
  }

  lemma HeaderStops(src: D.Source, st: D.Reading, t: E.Target, h: seq<Byte>, w: E.Writing, f: Field)
    requires HasReached(src, st, t, h, w) && f.Array?
    requires D.Remaining(src, st) < f.countLength + f.strideLength
    ensures E.Remaining(t, w) < f.countLength + f.strideLength
    ensures IsKept(t, h, E.Copy(t, w, E.Remaining(t, w)))
  {
    CopyKeeps(t, h, w, E.Remaining(t, w));
  }

  /** Numbers which have been read are in the members declared for them. */
  lemma NumbersAreHeld(src: D.Source, st: D.Reading, f: Field, info: Info, final: Info, atEnd: bool)
    requires src.Valid() && f.Array? && IsFieldOk(f) && D.DecodeHeader(src, f, st, info).ok
    requires forall k | k in Writes(f) :: IsSameAt(final, D.DecodeArray(src, f, st, info, atEnd).info, k)
    ensures AreNumbersHeld(f, D.DecodeHeader(src, f, st, info), final)
  {
    hide D.DecodeHeader, D.DecodeArray, Pow256, D.IsLater;
    var hd := D.DecodeHeader(src, f, st, info);
    var one := D.DecodeArray(src, f, st, info, atEnd).info;
    CounterIsHeld(src, st, f, info, atEnd);
    NumbersAreStored(src, st, f, info);
    assert f.counter.id in Writes(f) && IsSameAt(final, one, f.counter.id);
    if f.countMember.Some? && f.countLength != 0 {
      OnlyElementsAreAdded(src, st, f, info, atEnd, f.countMember.value.id);
      assert IsSameAt(final, one, f.countMember.value.id);
      assert IsNumber(final, f.countMember.value, hd.count);
    }
    if f.strideMember.Some? && f.strideLength != 0 {
      OnlyElementsAreAdded(src, st, f, info, atEnd, f.strideMember.value.id);
      assert IsSameAt(final, one, f.strideMember.value.id);
      assert IsNumber(final, f.strideMember.value, hd.stride);
    }
  }

  lemma CounterIsHeld(src: D.Source, st: D.Reading, f: Field, info: Info, atEnd: bool)
    requires src.Valid() && f.Array? && D.DecodeHeader(src, f, st, info).ok
    ensures var one := D.DecodeArray(src, f, st, info, atEnd).info;
      f.counter.id in one && one[f.counter.id].Number?
      && one[f.counter.id].number <= D.DecodeHeader(src, f, st, info).count
  {
    hide D.DecodeElements, D.DecodeHeader, D.IsLater;
  }

  lemma OnlyElementsAreAdded(src: D.Source, st: D.Reading, f: Field, info: Info, atEnd: bool, k: Id)
    requires src.Valid() && f.Array? && D.DecodeHeader(src, f, st, info).ok
    requires k != f.member.id && k != f.counter.id
    ensures IsSameAt(D.DecodeArray(src, f, st, info, atEnd).info, D.DecodeHeader(src, f, st, info).info, k)
  {
    hide D.DecodeElements, D.DecodeHeader, D.IsLater;
  }

  lemma NumbersAreStored(src: D.Source, st: D.Reading, f: Field, info: Info)
    requires src.Valid() && f.Array? && IsFieldOk(f) && D.DecodeHeader(src, f, st, info).ok
    ensures var hd := D.DecodeHeader(src, f, st, info);
      && (f.countLength != 0 && f.countMember.Some? ==> IsNumber(hd.info, f.countMember.value, hd.count))
      && (f.strideLength != 0 && f.strideMember.Some? ==> IsNumber(hd.info, f.strideMember.value, hd.stride))
  {
    hide D.Remaining;
    hide Pow256, D.ReadNumber, D.IsLater;
    var hd := D.DecodeHeader(src, f, st, info);
    if f.countMember.Some? && f.countLength != 0 {
      ReadIsBounded(src, st, f.countLength);
      StoredWhole(f.countMember.value, f.countLength, hd.count);
    }
    if f.strideMember.Some? && f.strideLength != 0 {
      var st0 := if f.countLength == 0 then st else D.ReadNumber(src, st, f.countLength).1;
      ReadIsBounded(src, st0, f.strideLength);
      StoredWhole(f.strideMember.value, f.strideLength, hd.stride);
    }
  }

  lemma ReadIsBounded(src: D.Source, st: D.Reading, length: nat)
    requires src.Valid() && D.ReadNumber(src, st, length).0
    ensures D.ReadNumber(src, st, length).2 < Pow256(length)
  {
    LoadIsBounded(D.Ahead(src, st, length));
  }

  lemma NoElementsKeep(src: D.Source, st: D.Reading, t: E.Target, h: seq<Byte>, w: E.Writing,
                       f: Field, info: Info, final: Info, atEnd: bool)
    requires HasReached(src, st, t, h, w) && f.Array? && IsFieldOk(f)
    requires var hd := D.DecodeHeader(src, f, st, info); hd.ok && hd.count == 0 && AreNumbersHeld(f, hd, final)
    ensures var one := D.DecodeArray(src, f, st, info, atEnd);
      var r := E.EncodeArray(t, w, f, final);
      one.ok && r.Some? && HasReached(src, one.st, t, h, r.value) && IsKept(t, h, r.value)
  {
    hide D.DecodeArray, E.EncodeArray, D.DecodeHeader, E.EncodeHeader, IsInStep, IsFieldOk, D.IsLater, AreSameStrings;
    HeaderKeeps(src, st, t, h, w, f, info, final);
    EmptyIsRead(src, st, f, info, atEnd);
    var hd := D.DecodeHeader(src, f, st, info);
    var w' := E.EncodeHeader(t, w, f, final, Load(final, f.counter)).value.w;
    EmptyIsWritten(t, w, f, final);
    EmptyCopy(src, hd.st, t, h, w');
    var r := E.EncodeArray(t, w, f, final).value;
    ClosedOnTrack(src, hd.st, t, h, r);
    ShortIsReached(src, hd.st, t, h, r, D.DecodeArray(src, f, st, info, atEnd).st);
  }

  lemma EmptyIsRead(src: D.Source, st: D.Reading, f: Field, info: Info, atEnd: bool)
    requires src.Valid() && f.Array?
    requires var hd := D.DecodeHeader(src, f, st, info); hd.ok && hd.count == 0
    ensures var one := D.DecodeArray(src, f, st, info, atEnd);
      one.ok && one.st == D.DecodeHeader(src, f, st, info).st.(short := one.st.short)
  {
    hide D.DecodeElements, D.DecodeHeader, D.IsLater;
  }

  lemma EmptyIsWritten(t: E.Target, w: E.Writing, f: Field, final: Info)
    requires t.Valid() && f.Array? && f.countLength + f.strideLength <= E.Remaining(t, w)
    requires Load(final, f.counter) == 0
    requires var r := E.EncodeHeader(t, w, f, final, 0); r.Some? && r.value.count == 0
    ensures var w' := E.EncodeHeader(t, w, f, final, 0).value.w;
      var r := E.EncodeArray(t, w, f, final); r == Some(w') || r == Some(E.Copy(t, w', 0))
  {
    hide E.EncodeHeader, E.Copy;
    hide E.SkipLength;
    NothingIsSkipped(E.Remaining(t, E.EncodeHeader(t, w, f, final, 0).value.w),
                     E.EncodeHeader(t, w, f, final, 0).value.stride);
  }

  lemma NothingIsSkipped(remaining: nat, stride: nat)
    ensures E.SkipLength(remaining, 0, stride) == 0
  {
  }

  lemma EmptyCopy(src: D.Source, st: D.Reading, t: E.Target, h: seq<Byte>, w: E.Writing)
    requires HasReached(src, st, t, h, w)
    ensures HasReached(src, st, t, h, E.Copy(t, w, 0))
  {
    CopyInStep(src, st, t, h, w, 0);
    assert st.(pos := st.pos + 0) == st;
  }

  lemma SkippedKeep(src: D.Source, st: D.Reading, t: E.Target, h: seq<Byte>, w: E.Writing,
                    f: Field, info: Info, final: Info, atEnd: bool)
    requires HasReached(src, st, t, h, w) && f.Array? && IsFieldOk(f)
    requires var hd := D.DecodeHeader(src, f, st, info);
      hd.ok && hd.count != 0 && IsSkipped(f, hd.stride) && AreNumbersHeld(f, hd, final)
    ensures var one := D.DecodeArray(src, f, st, info, atEnd);
      var r := E.EncodeArray(t, w, f, final);
      one.ok && r.Some? && HasReached(src, one.st, t, h, r.value) && IsKept(t, h, r.value)
  {
    hide D.DecodeArray, E.EncodeArray, D.DecodeHeader, E.EncodeHeader, IsInStep, IsFieldOk, D.IsLater, AreSameStrings;
    hide AreNumbersHeld, E.SkipLength, E.Copy, IsSkipped;
    var hd := D.DecodeHeader(src, f, st, info);
    HeaderKeeps(src, st, t, h, w, f, info, final);
    var hd' := E.EncodeHeader(t, w, f, final, Load(final, f.counter)).value;
    SkippedIsRead(src, st, f, info, atEnd);
    SkippedIsWritten(t, w, f, final);
    NumbersAreBounded(src, st, f, info);
    var remaining := D.Remaining(src, hd.st);
    SkipsAgree(f, hd.count, hd.stride, remaining);
    RemainingAgree(src, hd.st, t, h, hd'.w);
    var length := E.SkipLength(remaining, hd.count, hd.stride);
    CopyInStep(src, hd.st, t, h, hd'.w, length);
    ClosedOnTrack(src, hd.st.(pos := hd.st.pos + length), t, h, E.Copy(t, hd'.w, length));
  }

  lemma SkippedIsRead(src: D.Source, st: D.Reading, f: Field, info: Info, atEnd: bool)
    requires src.Valid() && f.Array?
    requires var hd := D.DecodeHeader(src, f, st, info); hd.ok && hd.count != 0 && IsSkipped(f, hd.stride)
    ensures var one, hd := D.DecodeArray(src, f, st, info, atEnd), D.DecodeHeader(src, f, st, info);
      one.ok && one.st == hd.st.(pos := hd.st.pos + Min(hd.count * hd.stride % WORD_LIMIT, D.Remaining(src, hd.st)))
  {
    hide D.DecodeHeader, D.IsLater, IsSkipped, D.DecodeElements;
  }

  lemma SkippedIsWritten(t: E.Target, w: E.Writing, f: Field, final: Info)
    requires t.Valid() && f.Array? && f.countLength + f.strideLength <= E.Remaining(t, w)
    requires var r := E.EncodeHeader(t, w, f, final, Load(final, f.counter)); r.Some? && IsSkipped(f, r.value.stride)
    ensures var hd := E.EncodeHeader(t, w, f, final, Load(final, f.counter)).value;
      E.EncodeArray(t, w, f, final)
        == Some(E.Copy(t, hd.w, E.SkipLength(E.Remaining(t, hd.w), hd.count, hd.stride)))
  {
    hide E.EncodeHeader, E.Copy, E.SkipLength, IsSkipped;
  }

  /** Numbers are no wider than the data holds them, and elements without a number are not skipped. */
  lemma NumbersAreBounded(src: D.Source, st: D.Reading, f: Field, info: Info)
    requires src.Valid() && f.Array? && IsFieldOk(f)
    requires var hd := D.DecodeHeader(src, f, st, info); hd.ok && IsSkipped(f, hd.stride)
    ensures var hd := D.DecodeHeader(src, f, st, info);
      && f.countLength != 0 && hd.count < Pow256(f.countLength)
      && (if f.strideLength == 0 then hd.stride == f.stride else hd.stride < Pow256(f.strideLength))
  {
    hide Pow256, D.IsLater, D.ReadNumber, D.StoreOptional;
    if f.countLength != 0 {
      ReadIsBounded(src, st, f.countLength);
      if f.strideLength != 0 {
        ReadIsBounded(src, D.ReadNumber(src, st, f.countLength).1, f.strideLength);
      }
    }
  }

  lemma ArrayIsElements(src: D.Source, st: D.Reading, t: E.Target, h: seq<Byte>, w: E.Writing,
                        f: Field, info: Info, final: Info, atEnd: bool)
    requires src.Valid() && t.Valid() && f.Array?
    requires var hd := D.DecodeHeader(src, f, st, info);
      && hd.ok && hd.count != 0 && !IsSkipped(f, hd.stride)
      && f.countLength + f.strideLength <= E.Remaining(t, w)
      && var r := E.EncodeHeader(t, w, f, final, Load(final, f.counter));
        r.Some? && r.value.stride == hd.stride
    requires var hd := D.DecodeHeader(src, f, st, info);
      var elements := D.DecodeElements(src, f, hd.stride, hd.count, hd.st, [], atEnd).2;
      RecordsAt(final, f.member.id) == elements && Load(final, f.counter) == |elements|
    ensures var hd := D.DecodeHeader(src, f, st, info);
      var (ok, st', elements) := D.DecodeElements(src, f, hd.stride, hd.count, hd.st, [], atEnd);
      var one := D.DecodeArray(src, f, st, info, atEnd);
      var hd' := E.EncodeHeader(t, w, f, final, Load(final, f.counter)).value;
      && one.ok == ok && one.st == st'.(short := one.st.short)
      && E.EncodeArray(t, w, f, final) == E.EncodeElements(t, hd'.w, f, hd.stride, elements, |elements|, 0)
  {
    hide D.DecodeElements, E.EncodeElements, D.DecodeHeader, E.EncodeHeader;
  }

  lemma ShortIsReached(src: D.Source, st: D.Reading, t: E.Target, h: seq<Byte>, w: E.Writing, st': D.Reading)
    requires st' == st.(short := st'.short)
    ensures HasReached(src, st, t, h, w) ==> HasReached(src, st', t, h, w)
  {
  }

  lemma ElementsAreHeld(src: D.Source, st: D.Reading, f: Field, info: Info, final: Info, atEnd: bool)
    requires src.Valid() && f.Array? && IsFieldOk(f)
    requires var hd := D.DecodeHeader(src, f, st, info); hd.ok && hd.count != 0 && !IsSkipped(f, hd.stride)
    requires forall k | k in Writes(f) :: IsSameAt(final, D.DecodeArray(src, f, st, info, atEnd).info, k)
    ensures var hd := D.DecodeHeader(src, f, st, info);
      var elements := D.DecodeElements(src, f, hd.stride, hd.count, hd.st, [], atEnd).2;
      RecordsAt(final, f.member.id) == elements && Load(final, f.counter) == |elements|
  {
    hide D.DecodeElements;
    assert f.member.id in Writes(f) && f.counter.id in Writes(f);
  }

  lemma {:induction false} ElementsKeep(src: D.Source, st: D.Reading, t: E.Target, h: seq<Byte>, w: E.Writing,
                                        f: Field, stride: nat, count: nat, elements: seq<Info>, atEnd: bool)
    requires HasReached(src, st, t, h, w) && f.Array? && IsWellFormed(f.fields, src.version)
    requires !D.DecodeElements(src, f, stride, count, st, elements, atEnd).1.lost
    ensures var (ok, st', elements') := D.DecodeElements(src, f, stride, count, st, elements, atEnd);
      var r := E.EncodeElements(t, w, f, stride, elements', |elements'|, |elements|);
      && r.Some? && IsKept(t, h, r.value)
      && (r.value.stopped || (if ok then HasReached(src, st', t, h, r.value) else atEnd))
    decreases f, 1, count
  {
    hide D.DecodeElement;
    hide IsWellFormed;
    if count > 0 {
      var one := D.DecodeElement(src, f, stride, st);
      if one.ok {
        var more := elements + [one.info];
        var final := D.DecodeElements(src, f, stride, count - 1, one.st, more, atEnd).2;
        assert ElementAt(final, |elements|) == one.info;
        ElementKeeps(src, st, t, h, w, f, stride);
        var w' := E.EncodeElement(t, w, f, one.info, stride).value;
        if !w'.stopped {
          ElementsKeep(src, one.st, t, h, w', f, stride, count - 1, more, atEnd);
        }
      }
    }
  }

  lemma {:induction false} ElementKeeps(src: D.Source, st: D.Reading, t: E.Target, h: seq<Byte>, w: E.Writing,
                                        f: Field, stride: nat)
    requires HasReached(src, st, t, h, w) && f.Array? && IsWellFormed(f.fields, src.version)
    requires var one := D.DecodeElement(src, f, stride, st); one.ok && !one.st.lost
    ensures var one := D.DecodeElement(src, f, stride, st);
      var r := E.EncodeElement(t, w, f, one.info, stride);
      && r.Some? && IsKept(t, h, r.value)
      && (r.value.stopped || HasReached(src, one.st, t, h, r.value))
    decreases f, 0, 0
  {
    hide IsWellFormed;
    hide D.DecodeElement, E.EncodeElement, D.DecodeNested, E.EncodeList, D.DecodeList, D.IsLater, AreSameStrings;
    var r := D.DecodeNested(src, f.fields, st, map[]);
    ElementIsRead(src, f, stride, st);
    NestedIsRead(src, f.fields, st, map[]);
    ListKeeps(src, st.(optional := false), t, h, w, f.fields, map[], false);
    ElementIsWritten(t, w, f, r.info, stride);
    var w' := E.EncodeList(t, w, f.fields, r.info).value;
    if !w'.stopped && stride != 0 {
      StepToNext(src, st, r.st, t, h, w, w', stride);
    }
  }

  lemma ElementIsRead(src: D.Source, f: Field, stride: nat, st: D.Reading)
    requires src.Valid() && f.Array?
    requires var one := D.DecodeElement(src, f, stride, st); one.ok && !one.st.lost
    ensures var one, r := D.DecodeElement(src, f, stride, st), D.DecodeNested(src, f.fields, st, map[]);
      && r.ok && !r.st.lost && one.info == r.info
      && (stride == 0 ==> one.st == r.st)
      && (stride != 0 ==>
            && st.pos <= r.st.pos <= st.pos + stride <= st.pos + D.Remaining(src, st)
            && one.st == r.st.(pos := st.pos + stride))
  {
    hide D.DecodeNested;
  }

  lemma NestedIsRead(src: D.Source, fs: seq<Field>, st: D.Reading, info: Info)
    requires src.Valid()
    ensures var r, list :=
      D.DecodeNested(src, fs, st, info), D.DecodeList(src, fs, st.(optional := false), info, false);
      r.ok == list.ok && r.info == list.info && r.st == list.st.(optional := st.optional)
  {
    hide D.DecodeList, D.IsLater;
  }

  lemma ElementIsWritten(t: E.Target, w: E.Writing, f: Field, element: Info, stride: nat)
    requires t.Valid() && f.Array? && E.EncodeList(t, w, f.fields, element).Some?
    ensures var w' := E.EncodeList(t, w, f.fields, element).value;
      E.EncodeElement(t, w, f, element, stride) == Some(
        if !w'.stopped && |w.out| <= |w'.out| && stride > |w'.out| - |w.out|
        then E.Copy(t, w', stride - (|w'.out| - |w.out|)) else w')
  {
    hide E.EncodeList, E.Copy;
  }

  lemma StepToNext(src: D.Source, st: D.Reading, st': D.Reading, t: E.Target, h: seq<Byte>, w: E.Writing,
                   w': E.Writing, stride: nat)
    requires HasReached(src, st, t, h, w) && HasReached(src, st', t, h, w')
    requires st.pos <= st'.pos <= st.pos + stride <= st.pos + D.Remaining(src, st)
    ensures |w.out| <= |w'.out| && |w'.out| - |w.out| <= stride
    ensures HasReached(src, st'.(pos := st.pos + stride), t, h,
      if stride > |w'.out| - |w.out| then E.Copy(t, w', stride - (|w'.out| - |w.out|)) else w')
    ensures IsKept(t, h,
      if stride > |w'.out| - |w.out| then E.Copy(t, w', stride - (|w'.out| - |w.out|)) else w')
  {
    assert |w'.out| - |w.out| == st'.pos - st.pos;
    CopyInStep(src, st', t, h, w', st.pos + stride - st'.pos);
  }
}

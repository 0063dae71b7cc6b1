/**
 Scalar fields and runs of bits in the canonical mode: what is read back is what
 has been written.
 */
module Rounds {
  import opened Wrappers
  import opened Bytes
  import opened BitRuns
  import opened Schema
  import opened WellFormed
  import opened Frame
  import opened Lockstep
  import opened Scalars
  import opened Preserve
  import opened Arrays
  import opened Stream
  import opened Reread
  import opened Portable
  import D = Decoding
  import E = Encoding

  /** Reading what the canonical mode has written, with the strings it has gathered. */
  ghost predicate IsRound(src: D.Source, x: seq<Byte>, b: nat, t: E.Target, built: seq<Option<seq<Byte>>>) {
    && IsData(src, x, b) && t.Valid() && !t.preserve && t.version == src.version
    && src.strings == built && forall k | 0 <= k < |built| :: built[k].Some?
  }

  /** A number no wider than its field is read as it has been written. */
  lemma NumberIsReread(src: D.Source, st: D.Reading, x: seq<Byte>, b: nat, t: E.Target, w: E.Writing,
                       width: nat, raw: nat)
    requires IsAt(src, st, x, b, w) && IsShut(w) && raw < Pow256(width)
    requires E.PutRaw(t, w, width, raw).Some? && IsAhead(E.PutRaw(t, w, width, raw).value, x)
    ensures D.ReadNumber(src, st, width) == (true, st.(pos := st.pos + width), raw)
    ensures IsAt(src, st.(pos := st.pos + width), x, b, E.PutRaw(t, w, width, raw).value)
  {
    hide IsAt, IsAhead, LeLoad, LeStore, Pow256, D.IsLater;
    BytesAreReread(src, st, x, b, w, E.PutRaw(t, w, width, raw).value, LeStore(raw, width));
    LoadStore(raw, width);
    SmallModulo(raw, Pow256(width));
  }

  /** Whatever the number is, as many bytes are read. */
  lemma WidthIsReread(src: D.Source, st: D.Reading, x: seq<Byte>, b: nat, w: E.Writing, w': E.Writing, data: seq<Byte>)
    requires IsAt(src, st, x, b, w) && IsShut(w) && 1 <= |data| <= 8
    requires IsAhead(w', x) && w'.out == w.out + data && w'.bits == w.bits && w'.taken == w.taken
    ensures var (ok, st', n) := D.ReadNumber(src, st, |data|);
      ok && st' == st.(pos := st.pos + |data|) && n == LeLoad(data) < Pow256(|data|) && IsAt(src, st', x, b, w')
  {
    hide IsAt, IsAhead, D.IsLater;
    BytesAreReread(src, st, x, b, w, w', data);
    LoadIsBounded(data);
  }

  // Values

  /** A number which is exact decodes into the value by itself. */
  lemma ExactNumber(f: Field, info: Info)
    requires (f.Integer? || f.Bits?) && AreHandlersPlain(f) && IsExactIn(f, info)
    ensures var (data, _) := E.ValueData(f, info, None).value;
      data == Data(data.number, NoText, []) && DecodesInto(f, data, info) && FitsWidth(f, data)
  {
  }

  lemma {:induction false} WidthInBits(width: nat)
    ensures Pow2(8 * width) == Pow256(width)
  {
    if width != 0 {
      WidthInBits(width - 1);
      var n := 8 * (width - 1);
      assert Pow2(n + 8) == 256 * Pow2(n) by {
        assert Pow2(n + 4) == 16 * Pow2(n) by {
          assert Pow2(n + 2) == 4 * Pow2(n);
        }
        assert Pow2(n + 8) == 16 * Pow2(n + 4) by {
          assert Pow2(n + 6) == 4 * Pow2(n + 4);
        }
      }
    }
  }

  /** What has been decoded is what the members held. */
  lemma DecodedIsHeld(f: Field, data: Data, info: Info, before: Info)
    requires AreHandlersPlain(f) && DecodesInto(f, data, info)
    ensures forall k | k in Writes(f) :: IsHeldAt(info, before + Apply(f, data).value, k)
  {
  }

  lemma WordOfEight()
    ensures Pow256(8) == WORD_LIMIT
  {
    assert Pow256(4) == 0x1_0000_0000 by {
      assert Pow256(3) == 0x100_0000;
    }
    assert Pow256(6) == 0x1_0000_0000_0000 by {
      assert Pow256(5) == 0x100_0000_0000;
    }
    assert Pow256(7) == 0x100_0000_0000_0000;
  }

  lemma ExactFits(f: Field, info: Info)
    requires f.Integer? && 1 <= f.length <= 8 && IsExactIn(f, info) && IsWord(f, info)
    ensures E.ValueData(f, info, None).value.0.number < Pow256(f.length)
  {
    WidthInBits(f.length);
    WordOfEight();
    hide Pow2, Pow256;
  }

  // Plain integers

  /**
   Values for which the canonical mode takes the extended fields keyed on a
   member: the value of the member or of one it governs does not fit its plain
   field, or it is spelled the way its plain field points at the extended one.
   */
  ghost predicate IsWidened(fs: seq<Field>, key: Id, whenRaw: nat, info: Info) {
    || !AreGovernedExact(fs, key, info)
    || exists g :: 0 <= g < |fs| && !IsExtended(fs[g]) && Key(fs[g]) == key && IsWidenedBy(fs[g], whenRaw, info)
  }

  ghost predicate IsWidenedBy(f: Field, whenRaw: nat, info: Info) {
    !IsExactIn(f, info) || E.ValueData(f, info, None).value.0.number == whenRaw
  }

  /** Choices have been made by the values. */
  ghost predicate AreWidened(fs: seq<Field>, i: nat, info: Info, written: seq<Choice>) {
    forall c | 0 <= c < |written| ::
      IsUnread(fs, i, written[c].key)
      || (written[c].extended <==> IsWidened(fs, written[c].key, written[c].whenRaw, info))
  }

  /** A member other ones are keyed on has one plain field. */
  lemma WidenedByGovernor(fs: seq<Field>, i: nat, e: nat, whenRaw: nat, info: Info)
    requires i < |fs| && e < |fs| && !IsExtended(fs[i]) && IsExtended(fs[e]) && WhenKey(fs[e]) == Key(fs[i])
    requires AreNamedOnce(fs)
    ensures IsWidened(fs, Key(fs[i]), whenRaw, info)
       <==> !AreGovernedExact(fs, Key(fs[i]), info) || IsWidenedBy(fs[i], whenRaw, info)
  {
    hide AreGovernedExact, IsWidenedBy;
    forall g | 0 <= g < |fs| && !IsExtended(fs[g]) && Key(fs[g]) == Key(fs[i])
      ensures g == i
    {
      assert IsNamedBy(fs[g], fs[e]) && IsNamedBy(fs[i], fs[e]);
    }
  }

  lemma {:induction false} FitIsExact(fs: seq<Field>, at: nat, info: Info, key: Id, i: nat, j: nat)
    requires E.GovernedFit(fs, at, info, key, i) == Some(true)
    requires i <= j < |fs| && j != at && !IsExtended(fs[j]) && Governs(fs, fs[j], key)
    ensures IsExactIn(fs[j], info)
    decreases |fs| - i
  {
    hide Governs;
    if i < j {
      FitIsExact(fs, at, info, key, i + 1, j);
    }
  }

  lemma FitsAreExact(fs: seq<Field>, at: nat, info: Info, key: Id)
    requires at < |fs| && Key(fs[at]) == key && E.GovernedFit(fs, at, info, key, 0) == Some(true)
    ensures AreGovernedExact(fs, key, info)
  {
    forall j | 0 <= j < |fs| && !IsExtended(fs[j]) && Governs(fs, fs[j], key)
      ensures IsExactIn(fs[j], info)
    {
      FitIsExact(fs, at, info, key, 0, j);
    }
  }

  /** What is written for a plain integer other members are keyed on. */
  lemma GoverningWrites(t: E.Target, w: E.Writing, fs: seq<Field>, i: nat, info: Info, written: seq<Choice>, c: nat)
    requires t.Valid() && !t.preserve && i < |fs| && fs[i].Integer? && !fs[i].extended
    requires WhenKey(fs[i]) == Key(fs[i]) && Find(written, Key(fs[i])) == Some(c)
    requires E.EncodeScalar(t, w, fs, i, info, written).Some?
    ensures var (w', written') := E.EncodeScalar(t, w, fs, i, info, written).value;
      && c < |written'| && E.ValueData(fs[i], info, None).Some?
      && var (data, exact) := E.ValueData(fs[i], info, None).value;
        var extended := written'[c].extended;
        && written' == written[c := written[c].(extended := extended)]
        && E.PutRaw(t, w, fs[i].length, if extended then written[c].whenRaw else data.number) == Some(w')
        && (!extended ==> exact && data.number != written[c].whenRaw
                          && E.GovernedFit(fs, i, info, written[c].key, 0) == Some(true))
  {
    hide E.GovernedFit, E.ValueData, E.PutRaw;
  }

  /**
   The canonical mode takes the extended representation exactly when the value
   or a governed one does not fit, or when the number of the value is the one
   which tells that the extended representation has been taken.
   */
  lemma CanonicalChoice(t: E.Target, w: E.Writing, fs: seq<Field>, i: nat, info: Info, written: seq<Choice>, c: nat)
    requires t.Valid() && !t.preserve && i < |fs| && fs[i].Integer? && !fs[i].extended
    requires WhenKey(fs[i]) == Key(fs[i]) && Find(written, Key(fs[i])) == Some(c)
    requires E.EncodeScalar(t, w, fs, i, info, written).Some?
    ensures E.ValueData(fs[i], info, None).Some?
    ensures E.EncodeScalar(t, w, fs, i, info, written).value.1[c].extended <==>
      || !IsExactIn(fs[i], info) || !AreGovernedExact(fs, Key(fs[i]), info)
      || E.ValueData(fs[i], info, None).value.0.number == written[c].whenRaw
  {
    hide E.EncodeScalar, E.ValueData, E.GovernedFit, E.PutRaw, AreGovernedExact;
    GoverningWrites(t, w, fs, i, info, written, c);
    var extended := E.EncodeScalar(t, w, fs, i, info, written).value.1[c].extended;
    if !extended {
      FitsAreExact(fs, i, info, written[c].key);
    } else if AreGovernedExact(fs, Key(fs[i]), info) {
      ExactGovernedFit(fs, i, info, Key(fs[i]), 0);
      ExtendedWhenUnfit(t, w, fs, i, info, written, c);
    }
  }

  lemma ExtendedWhenUnfit(t: E.Target, w: E.Writing, fs: seq<Field>, i: nat, info: Info, written: seq<Choice>, c: nat)
    requires t.Valid() && !t.preserve && i < |fs| && fs[i].Integer? && !fs[i].extended
    requires WhenKey(fs[i]) == Key(fs[i]) && Find(written, Key(fs[i])) == Some(c)
    requires E.EncodeScalar(t, w, fs, i, info, written).Some? && E.ValueData(fs[i], info, None).Some?
    requires E.GovernedFit(fs, i, info, Key(fs[i]), 0) == Some(true)
    ensures E.EncodeScalar(t, w, fs, i, info, written).value.1[c].extended <==>
      !E.ValueData(fs[i], info, None).value.1
      || E.ValueData(fs[i], info, None).value.0.number == written[c].whenRaw
  {
    hide E.GovernedFit, E.ValueData, E.PutRaw;
  }

  /** What is written for a plain integer nothing is keyed on. */
  lemma PlainWrites(t: E.Target, w: E.Writing, fs: seq<Field>, i: nat, info: Info, written: seq<Choice>)
    requires t.Valid() && !t.preserve && i < |fs| && fs[i].Integer? && !fs[i].extended
    requires WhenKey(fs[i]) == Key(fs[i]) && Find(written, Key(fs[i])).None?
    requires E.EncodeScalar(t, w, fs, i, info, written).Some?
    ensures var (w', written') := E.EncodeScalar(t, w, fs, i, info, written).value;
      var e := E.ExtendedOf(fs, Key(fs[i]), 0);
      var c := if e.Some? then Find(written, WhenKey(fs[e.value])) else None;
      && E.ValueData(fs[i], info, None).Some? && written' == written
      && (if c.Some? && written[c.value].extended
          then E.PutRaw(t, w, fs[i].length, written[c.value].whenRaw) == Some(w')
          else E.PutRaw(t, w, fs[i].length, E.ValueData(fs[i], info, None).value.0.number) == Some(w'))
  {
    hide E.ValueData, E.PutRaw;
  }

  /** The members of a plain integer hold what it points at its extended field with, cut to its width. */
  ghost predicate IsPointing(f: Field, copy: Info, whenRaw: nat) {
    var writes := Apply(f, Data(whenRaw % Pow256(Width(f)), NoText, []));
    writes.Some? && forall k | k in Writes(f) :: k in copy && k in writes.value && copy[k] == writes.value[k]
  }

  /** An extended field carries the value of a plain one. */
  ghost predicate IsWaitingFor(fs: seq<Field>, i: nat, e: nat, read: seq<Choice>)
    requires i < |fs| && e < |fs|
  {
    IsPair(fs[i], fs[e]) && IsPointed(read, fs[e])
  }

  /** What is read of a plain integer, whatever has been written for it. */
  lemma PlainGives(src: D.Source, st: D.Reading, fs: seq<Field>, i: nat, copy: Info, read: seq<Choice>, n: nat)
    requires src.Valid() && i < |fs| && fs[i].Integer? && !fs[i].extended && IsFieldOk(fs[i])
    requires D.ReadNumber(src, st, fs[i].length) == (true, st.(pos := st.pos + fs[i].length), n)
    requires Apply(fs[i], Data(n, NoText, [])).Some?
    ensures var one := D.DecodePlain(src, fs[i], st, copy, read);
      && WhenKey(fs[i]) == Key(fs[i])
      && one.ok && one.st == st.(pos := st.pos + fs[i].length)
      && one.info == copy + Apply(fs[i], Data(n, NoText, [])).value
      && var c := Find(read, Key(fs[i]));
        one.choices == (if c.Some? then read[c.value := read[c.value].(raw := n)] else read)
  {
    hide D.IsLater, Apply, D.ReadNumber;
  }

  /** State of the choices on both sides before a field. */
  ghost predicate AreChoicesAt(fs: seq<Field>, i: nat, info: Info, read: seq<Choice>, written: seq<Choice>) {
    && AreOf(fs, read) && AreSameKeys(Collect(fs), read)
    && AreMatched(fs, i, read, written) && AreWidened(fs, i, info, written)
  }

  /** A plain integer is read back, or points at its extended field. */
  ghost predicate IsPlainRestored(fs: seq<Field>, i: nat, info: Info, copy: Info, read: seq<Choice>)
    requires i < |fs|
  {
    && (forall e | 0 <= e < |fs| && IsWaitingFor(fs, i, e, read) :: IsPointing(fs[i], copy, fs[e].whenRaw))
    && ((exists e :: 0 <= e < |fs| && IsWaitingFor(fs, i, e, read))
        || forall k | k in Writes(fs[i]) :: IsHeldAt(info, copy, k))
  }

  lemma PointingNow(f: Field, before: Info, whenRaw: nat)
    requires AreHandlersPlain(f) && Apply(f, Data(whenRaw % Pow256(Width(f)), NoText, [])).Some?
    ensures IsPointing(f, before + Apply(f, Data(whenRaw % Pow256(Width(f)), NoText, [])).value, whenRaw)
  {
    hide Apply, Pow256;
  }

  lemma SameKeysAreSame(a: seq<Choice>, b: seq<Choice>, c: nat, raw: nat)
    requires AreSameKeys(a, b) && c < |b|
    ensures AreSameKeys(a, b[c := b[c].(raw := raw)])
  {
  }

  /** The extended field of a governing member is keyed on the member itself. */
  lemma GovernorIsWidened(fs: seq<Field>, i: nat, k: nat) returns (e: nat)
    requires i < |fs| && !IsExtended(fs[i]) && k < |fs| && IsExtended(fs[k]) && WhenKey(fs[k]) == Key(fs[i])
    requires ArePairsPortable(fs) && AreGovernorsFree(fs) && AreExtendedOnce(fs)
    ensures e < |fs| && IsPair(fs[i], fs[e]) && WhenKey(fs[e]) == Key(fs[i]) && fs[e].whenRaw == fs[k].whenRaw
    ensures fs[k].whenRaw < Pow256(Width(fs[i])) && IsTotal(fs[i])
    ensures E.ExtendedOf(fs, Key(fs[i]), 0).Some?
  {
    e := E.ExtendedOf(fs, Key(fs[i]), 0).value;
  }

  lemma WidenedAfterGoverning(fs: seq<Field>, i: nat, info: Info, written: seq<Choice>, c: nat, extended: bool)
    requires i < |fs| && !IsExtended(fs[i]) && AreWidened(fs, i, info, written)
    requires c < |written| && written[c].key == Key(fs[i])
    requires forall a | 0 <= a < |written| && a != c :: written[a].key != written[c].key
    requires extended <==> IsWidened(fs, written[c].key, written[c].whenRaw, info)
    ensures AreWidened(fs, i + 1, info, written[c := written[c].(extended := extended)])
  {
    hide IsWidened;
    forall key | key != Key(fs[i])
      ensures IsUnread(fs, i, key) <==> IsUnread(fs, i + 1, key)
    {
      UnreadStep(fs, i, key);
    }
  }

  lemma WidenedAfterOther(fs: seq<Field>, i: nat, info: Info, written: seq<Choice>)
    requires i < |fs| && AreWidened(fs, i, info, written)
    requires IsExtended(fs[i]) || forall c | 0 <= c < |written| :: written[c].key != Key(fs[i])
    ensures AreWidened(fs, i + 1, info, written)
  {
    hide IsWidened;
    forall c | 0 <= c < |written|
      ensures IsUnread(fs, i, written[c].key) <==> IsUnread(fs, i + 1, written[c].key)
    {
      UnreadStep(fs, i, written[c].key);
    }
  }

  lemma ChoicesAre(fs: seq<Field>, i: nat, info: Info, read: seq<Choice>, written: seq<Choice>)
    requires AreChoicesAt(fs, i, info, read, written)
    ensures AreOf(fs, read) && AreSameKeys(Collect(fs), read) && AreSameKeys(read, written)
    ensures AreMatched(fs, i, read, written) && AreWidened(fs, i, info, written)
  {
  }

  lemma DistinctKeys(fs: seq<Field>, read: seq<Choice>, written: seq<Choice>, c: nat)
    requires AreOf(fs, read) && AreSameKeys(read, written) && c < |read|
    ensures forall a | 0 <= a < |written| && a != c :: written[a].key != written[c].key
  {
    forall a | 0 <= a < |written| && a != c
      ensures written[a].key != written[c].key
    {
      assert read[a].key != read[c].key by {
        if a < c {
        } else {
          assert read[c].key != read[a].key;
        }
      }
    }
  }

  /** All the extended fields of a governing member point the same way. */
  lemma GovernsItself(fs: seq<Field>, i: nat, e: nat, k: nat)
    requires i < |fs| && e < |fs| && k < |fs| && IsPair(fs[i], fs[e])
    requires IsExtended(fs[k]) && WhenKey(fs[k]) == Key(fs[i]) && AreGovernorsFree(fs) && AreExtendedOnce(fs)
    ensures WhenKey(fs[e]) == Key(fs[i]) && fs[e].whenRaw == fs[k].whenRaw
  {
  }

  /** Whether a governing member points at its extended field is told by what has been read of it. */
  lemma GoverningWaits(fs: seq<Field>, i: nat, read: seq<Choice>, c: nat, raw: nat, k: nat, e: nat)
    requires i < |fs| && k < |fs| && e < |fs| && IsPair(fs[i], fs[e])
    requires IsExtended(fs[k]) && WhenKey(fs[k]) == Key(fs[i]) && AreGovernorsFree(fs) && AreExtendedOnce(fs)
    requires AreOf(fs, read) && Find(read, Key(fs[i])) == Some(c)
    ensures read[c].whenRaw == fs[e].whenRaw
    ensures IsWaitingFor(fs, i, e, read[c := read[c].(raw := raw)]) <==> raw == fs[e].whenRaw
  {
    hide AreGovernorsFree, AreExtendedOnce, AreOf;
    GovernsItself(fs, i, e, k);
    var read' := read[c := read[c].(raw := raw)];
    SameKeysAreSame(read, read, c, raw);
    SameKeysFindFrom(read, read', Key(fs[i]), 0);
    ChoiceOfExtended(fs, e, read);
  }

  lemma GoverningIsRestored(fs: seq<Field>, i: nat, info: Info, before: Info, read: seq<Choice>, c: nat, raw: nat)
    requires i < |fs| && fs[i].Integer? && !fs[i].extended && AreChoicesOk(fs) && ArePairsPortable(fs)
    requires AreHandlersPlain(fs[i]) && AreOf(fs, read) && Find(read, Key(fs[i])) == Some(c)
    requires raw < Pow256(Width(fs[i])) && Apply(fs[i], Data(raw, NoText, [])).Some?
    requires raw != read[c].whenRaw ==> DecodesInto(fs[i], Data(raw, NoText, []), info)
    ensures IsPlainRestored(fs, i, info, before + Apply(fs[i], Data(raw, NoText, [])).value,
                            read[c := read[c].(raw := raw)])
  {
    hide AreHandlersPlain, DecodesInto, Apply, AreOf, ArePairsPortable, IsPointing, IsPointed, Pow256;
    hide AreKeyed, AreNamedIntegers, AreNamedOnce, AreGovernedAfter, AreGovernorsFree, AreExtendedOnce;
    var read' := read[c := read[c].(raw := raw)];
    var copy := before + Apply(fs[i], Data(raw, NoText, [])).value;
    var k := GovernorOf(fs, i, read, c);
    var own := GovernorIsWidened(fs, i, k);
    GoverningWaits(fs, i, read, c, raw, k, own);
    SmallModulo(raw, Pow256(Width(fs[i])));
    forall e | 0 <= e < |fs| && IsWaitingFor(fs, i, e, read')
      ensures IsPointing(fs[i], copy, fs[e].whenRaw)
    {
      GoverningWaits(fs, i, read, c, raw, k, e);
      PointingNow(fs[i], before, raw);
    }
    if raw != read[c].whenRaw {
      DecodedIsHeld(fs[i], Data(raw, NoText, []), info, before);
    }
  }

  lemma GoverningIsRead(fs: seq<Field>, i: nat, info: Info, before: Info, read: seq<Choice>, written: seq<Choice>,
                        c: nat, raw: nat, extended: bool)
    requires i < |fs| && fs[i].Integer? && !fs[i].extended && AreChoicesOk(fs) && ArePairsPortable(fs)
    requires AreHandlersPlain(fs[i]) && AreChoicesAt(fs, i, info, read, written)
    requires Find(read, Key(fs[i])) == Some(c) && c < |written|
    requires extended <==> raw == written[c].whenRaw
    requires extended <==> IsWidened(fs, written[c].key, written[c].whenRaw, info)
    requires raw < Pow256(Width(fs[i])) && Apply(fs[i], Data(raw, NoText, [])).Some?
    requires !extended ==> DecodesInto(fs[i], Data(raw, NoText, []), info)
    ensures var read' := read[c := read[c].(raw := raw)];
      && AreChoicesAt(fs, i + 1, info, read', written[c := written[c].(extended := extended)])
      && IsPlainRestored(fs, i, info, before + Apply(fs[i], Data(raw, NoText, [])).value, read')
  {
    hide IsWidened, AreHandlersPlain, DecodesInto, Apply, IsUnread, AreOf, AreWidened, ArePairsPortable, Pow256;
    hide AreKeyed, AreNamedIntegers, AreNamedOnce, AreGovernedAfter, AreGovernorsFree, AreExtendedOnce, IsPlainRestored;
    ChoicesAre(fs, i, info, read, written);
    var k := GovernorOf(fs, i, read, c);
    var read' := read[c := read[c].(raw := raw)];
    MatchedAfterGoverning(fs, i, read, written, c, raw);
    DistinctKeys(fs, read, written, c);
    WidenedAfterGoverning(fs, i, info, written, c, extended);
    SameKeysAreSame(Collect(fs), read, c, raw);
    SameKeysAreSame(read, read, c, raw);
    SameKeysAreOf(fs, read, read');
    GoverningIsRestored(fs, i, info, before, read, c, raw);
  }

  /** A scalar field has been read past, and both sides agree about the choices. */
  ghost predicate IsReread(src: D.Source, st: D.Reading, one: D.Step, x: seq<Byte>, b: nat, fs: seq<Field>, i: nat,
                           info: Info, r: (E.Writing, seq<Choice>)) {
    && one.ok && one.st == st.(pos := one.st.pos) && IsAt(src, one.st, x, b, r.0)
    && AreChoicesAt(fs, i + 1, info, one.choices, r.1)
  }

  /** The number written for a governing member tells which representation has been chosen. */
  lemma GoverningRaw(t: E.Target, w: E.Writing, fs: seq<Field>, i: nat, info: Info, read: seq<Choice>,
                     written: seq<Choice>, version: Version) returns (c: nat, raw: nat, extended: bool)
    requires t.Valid() && !t.preserve
    requires i < |fs| && fs[i].Integer? && !fs[i].extended && AreFieldsOk(fs, version) && ArePairsPortable(fs)
    requires AreHandlersPlain(fs[i]) && IsWord(fs[i], info)
    requires AreChoicesAt(fs, i, info, read, written) && Find(read, Key(fs[i])).Some?
    requires E.EncodeScalar(t, w, fs, i, info, written).Some?
    ensures Find(read, Key(fs[i])) == Some(c) && c < |written| && (extended <==> raw == written[c].whenRaw)
    ensures raw < Pow256(fs[i].length) && Apply(fs[i], Data(raw, NoText, [])).Some?
    ensures E.PutRaw(t, w, fs[i].length, raw).Some?
    ensures E.EncodeScalar(t, w, fs, i, info, written).value
         == (E.PutRaw(t, w, fs[i].length, raw).value, written[c := written[c].(extended := extended)])
    ensures extended <==> IsWidened(fs, written[c].key, written[c].whenRaw, info)
    ensures !extended ==> DecodesInto(fs[i], Data(raw, NoText, []), info)
  {
    hide E.EncodeScalar, E.PutRaw, Apply, AreHandlersPlain, IsTotal, AreChoicesAt, Pow256, AreFieldsOk, AreChoicesOk;
    hide AreApart, E.ValueData, IsFieldOk, E.GovernedFit, DecodesInto, IsExactIn, IsWord, AreNamedIntegers, IsWidened;
    hide ArePairsPortable, AreMatched, AreWidened, AreGovernedExact, AreOf, AreNamedOnce, AreKeyed;
    hide AreExtendedOnce, AreGovernedAfter, AreGovernorsFree, AreSameKeys;
    var f := fs[i];
    c := Find(read, Key(f)).value;
    ListIsOk(fs, version);
    ChoicesAre(fs, i, info, read, written);
    SameKeysFindFrom(read, written, Key(f), 0);
    PlainKey(f);
    GoverningWrites(t, w, fs, i, info, written, c);
    extended := E.EncodeScalar(t, w, fs, i, info, written).value.1[c].extended;
    raw := if extended then written[c].whenRaw else E.ValueData(f, info, None).value.0.number;
    WhenRawFits(fs, i, read, written, c);
    if !extended {
      ExactNow(f, info);
    }
    ChosenIsWidened(t, w, fs, i, info, read, written, c);
    TotalAt(f, raw);
  }

  /** The canonical mode chooses by the values. */
  lemma ChosenIsWidened(t: E.Target, w: E.Writing, fs: seq<Field>, i: nat, info: Info, read: seq<Choice>,
                        written: seq<Choice>, c: nat)
    requires t.Valid() && !t.preserve && i < |fs| && fs[i].Integer? && !fs[i].extended
    requires WhenKey(fs[i]) == Key(fs[i]) && Find(written, Key(fs[i])) == Some(c) && Find(read, Key(fs[i])) == Some(c)
    requires E.EncodeScalar(t, w, fs, i, info, written).Some?
    requires AreOf(fs, read) && AreNamedIntegers(fs) && AreNamedOnce(fs)
    ensures c < |written|
    ensures E.EncodeScalar(t, w, fs, i, info, written).value.1[c].extended
       <==> IsWidened(fs, written[c].key, written[c].whenRaw, info)
  {
    hide E.EncodeScalar, IsExactIn, AreGovernedExact, IsWidened, AreOf, AreNamedIntegers, AreNamedOnce;
    CanonicalChoice(t, w, fs, i, info, written, c);
    var k := GovernorOf(fs, i, read, c);
    WidenedByGovernor(fs, i, k, written[c].whenRaw, info);
  }

  lemma WhenRawFits(fs: seq<Field>, i: nat, read: seq<Choice>, written: seq<Choice>, c: nat)
    requires i < |fs| && !IsExtended(fs[i]) && AreChoicesOk(fs) && ArePairsPortable(fs)
    requires AreOf(fs, read) && AreSameKeys(read, written) && c < |read| && read[c].key == Key(fs[i])
    ensures written[c].whenRaw < Pow256(Width(fs[i])) && IsTotal(fs[i])
  {
    hide Pow256, IsTotal;
    var k := GovernorOf(fs, i, read, c);
    assert IsOf(fs, read[c]);
    var j :| 0 <= j < |fs| && IsExtended(fs[j]) && WhenKey(fs[j]) == read[c].key && fs[j].whenRaw == read[c].whenRaw;
    var e := GovernorIsWidened(fs, i, j);
  }

  lemma GoverningRound(src: D.Source, st: D.Reading, x: seq<Byte>, b: nat, t: E.Target, w: E.Writing, fs: seq<Field>,
                       i: nat, info: Info, copy: Info, read: seq<Choice>, written: seq<Choice>)
    requires src.Valid() && IsAt(src, st, x, b, w) && IsShut(w) && t.Valid() && !t.preserve
    requires i < |fs| && fs[i].Integer? && !fs[i].extended && AreFieldsOk(fs, src.version) && ArePairsPortable(fs)
    requires AreHandlersPlain(fs[i]) && IsWord(fs[i], info)
    requires AreChoicesAt(fs, i, info, read, written) && Find(read, Key(fs[i])).Some?
    requires E.EncodeScalar(t, w, fs, i, info, written).Some?
    requires IsAhead(E.EncodeScalar(t, w, fs, i, info, written).value.0, x)
    ensures var one := D.DecodePlain(src, fs[i], st, copy, read);
      && IsReread(src, st, one, x, b, fs, i, info, E.EncodeScalar(t, w, fs, i, info, written).value)
      && IsPlainRestored(fs, i, info, one.info, one.choices)
  {
    hide IsAt, IsAhead, E.EncodeScalar, D.DecodePlain, D.ReadNumber;
    hide E.PutRaw, Apply, AreHandlersPlain, AreGovernedExact;
    hide AreChoicesAt, IsPlainRestored, D.IsLater, Pow256, AreFieldsOk, AreChoicesOk, AreApart, IsFieldOk, IsWidened;
    hide DecodesInto, IsWord, AreNamedIntegers, ArePairsPortable, AreNamedOnce, AreKeyed, AreExtendedOnce;
    hide AreGovernedAfter, AreGovernorsFree;
    var f := fs[i];
    ListIsOk(fs, src.version);
    PlainKey(f);
    var c, raw, extended := GoverningRaw(t, w, fs, i, info, read, written, src.version);
    NumberIsReread(src, st, x, b, t, w, f.length, raw);
    PlainGives(src, st, fs, i, copy, read, raw);
    GoverningIsRead(fs, i, info, copy, read, written, c, raw, extended);
  }

  lemma PlainKey(f: Field)
    requires f.Integer? && IsFieldOk(f) && !f.extended
    ensures WhenKey(f) == Key(f) && Width(f) == f.length && 1 <= f.length <= 8
  {
  }

  lemma TotalAt(f: Field, n: nat)
    requires IsTotal(f) && n < Pow256(Width(f))
    ensures Apply(f, Data(n, NoText, [])).Some?
  {
  }

  /** An exact value is a number which fits the field and decodes into the value. */
  lemma ExactNow(f: Field, info: Info)
    requires f.Integer? && 1 <= f.length <= 8 && AreHandlersPlain(f) && IsWord(f, info)
    requires E.ValueData(f, info, None).Some? && E.ValueData(f, info, None).value.1
    ensures var data := E.ValueData(f, info, None).value.0;
      && data.number < Pow256(f.length) && IsExactIn(f, info)
      && DecodesInto(f, Data(data.number, NoText, []), info)
  {
    ExactNumber(f, info);
    ExactFits(f, info);
  }

  lemma PlainRound(src: D.Source, st: D.Reading, x: seq<Byte>, b: nat, t: E.Target, w: E.Writing, fs: seq<Field>,
                   i: nat, info: Info, copy: Info, read: seq<Choice>, written: seq<Choice>)
    requires src.Valid() && IsAt(src, st, x, b, w) && IsShut(w) && t.Valid() && !t.preserve
    requires i < |fs| && fs[i].Integer? && !fs[i].extended && AreFieldsOk(fs, src.version) && ArePairsPortable(fs)
    requires AreHandlersPlain(fs[i]) && IsFaithful(fs, i, info, src.version)
    requires AreChoicesAt(fs, i, info, read, written) && Find(read, Key(fs[i])).None?
    requires E.EncodeScalar(t, w, fs, i, info, written).Some?
    requires IsAhead(E.EncodeScalar(t, w, fs, i, info, written).value.0, x)
    ensures var one := D.DecodePlain(src, fs[i], st, copy, read);
      && IsReread(src, st, one, x, b, fs, i, info, E.EncodeScalar(t, w, fs, i, info, written).value)
      && IsPlainRestored(fs, i, info, one.info, one.choices)
  {
    hide IsAt, IsAhead, E.EncodeScalar, D.DecodePlain, D.ReadNumber;
    hide E.PutRaw, Apply, AreHandlersPlain, IsTotal, LeStore;
    hide AreChoicesAt, D.IsLater, Pow256, AreFieldsOk, AreChoicesOk, AreApart, E.ValueData, IsFieldOk, AreWidened;
    hide DecodesInto, IsExactIn, AreNamedIntegers, AreOf, AreSameKeys, AreMatched, IsPointed, IsFaithful;
    hide AreGovernedAfter, AreNamedOnce, AreKeyed, AreExtendedOnce, AreGovernorsFree, ArePairsPortable, IsPlainRestored;
    var f := fs[i];
    PlainKey(f) by {
      ListIsOk(fs, src.version);
    }
    PlainIsReread(src, st, x, b, t, w, fs, i, info, read, written);
    var n := D.ReadNumber(src, st, f.length).2;
    PlainGives(src, st, fs, i, copy, read, n) by {
      ListIsOk(fs, src.version);
    }
    ChoicesAfterOther(fs, i, info, read, written);
    PlainIsRestored(fs, i, info, copy, read, n) by {
      ListIsOk(fs, src.version);
    }
  }

  /** The number written for a plain integer, and what it means where no extended field carries the value. */
  lemma PlainRaw(t: E.Target, w: E.Writing, fs: seq<Field>, i: nat, info: Info, read: seq<Choice>,
                 written: seq<Choice>, version: Version) returns (raw: nat, pointed: bool)
    requires t.Valid() && !t.preserve
    requires i < |fs| && fs[i].Integer? && !fs[i].extended && AreFieldsOk(fs, version) && ArePairsPortable(fs)
    requires AreHandlersPlain(fs[i]) && IsFaithful(fs, i, info, version)
    requires AreChoicesAt(fs, i, info, read, written) && Find(read, Key(fs[i])).None?
    requires E.EncodeScalar(t, w, fs, i, info, written).Some?
    ensures E.PutRaw(t, w, fs[i].length, raw).Some? && 1 <= fs[i].length <= 8 && Width(fs[i]) == fs[i].length
    ensures E.EncodeScalar(t, w, fs, i, info, written).value == (E.PutRaw(t, w, fs[i].length, raw).value, written)
    ensures if pointed then
              var e := E.ExtendedOf(fs, Key(fs[i]), 0);
              IsTotal(fs[i]) && e.Some? && IsPointed(read, fs[e.value]) && raw == fs[e.value].whenRaw
            else
              && (var e := E.ExtendedOf(fs, Key(fs[i]), 0); e.Some? ==> !IsPointed(read, fs[e.value]))
              && raw < Pow256(fs[i].length) && Apply(fs[i], Data(raw, NoText, [])).Some?
              && DecodesInto(fs[i], Data(raw, NoText, []), info)
  {
    hide E.EncodeScalar, E.PutRaw, Apply, AreHandlersPlain, IsTotal, AreChoicesAt, Pow256, AreFieldsOk, AreChoicesOk;
    hide AreApart, E.ValueData, IsFieldOk, AreWidened, IsExactIn, AreNamedIntegers, AreOf, AreSameKeys, AreMatched;
    hide IsPointed, IsFaithful, AreGovernedAfter, AreNamedOnce, AreKeyed, AreExtendedOnce, AreGovernorsFree;
    hide ArePairsPortable, DecodesInto;
    var f := fs[i];
    ListIsOk(fs, version);
    PlainKey(f);
    ChoicesAre(fs, i, info, read, written);
    SameKeysFindFrom(read, written, Key(f), 0);
    PlainWrites(t, w, fs, i, info, written);
    var e := E.ExtendedOf(fs, Key(f), 0);
    if e.Some? {
      WideningIsTold(fs, i, e.value, info, read, written);
    } else {
      UnpairedIsExact(fs, i, info, version);
    }
    pointed := e.Some? && IsPointed(read, fs[e.value]);
    if pointed {
      raw := written[Find(written, WhenKey(fs[e.value])).value].whenRaw;
    } else {
      raw := E.ValueData(f, info, None).value.0.number;
      FaithfulWord(fs, i, info, version);
      ExactValue(f, info);
    }
  }

  lemma ExactValue(f: Field, info: Info)
    requires f.Integer? && 1 <= f.length <= 8 && AreHandlersPlain(f) && IsWord(f, info) && IsExactIn(f, info)
    ensures var n := E.ValueData(f, info, None).value.0.number;
      && n < Pow256(f.length) && Apply(f, Data(n, NoText, [])).Some? && DecodesInto(f, Data(n, NoText, []), info)
  {
    hide AreHandlersPlain, Apply, E.ValueData, Pow256, IsWord;
    ExactNow(f, info);
  }

  /** A number which has been read is the value's own, or cut from the one pointing at the extended field. */
  ghost predicate IsPlainNumber(fs: seq<Field>, i: nat, info: Info, read: seq<Choice>, n: nat)
    requires i < |fs|
  {
    var e := E.ExtendedOf(fs, Key(fs[i]), 0);
    if e.Some? && IsPointed(read, fs[e.value]) then n == fs[e.value].whenRaw % Pow256(Width(fs[i]))
    else DecodesInto(fs[i], Data(n, NoText, []), info)
  }

  /** The number read for a plain integer. */
  lemma PlainIsReread(src: D.Source, st: D.Reading, x: seq<Byte>, b: nat, t: E.Target, w: E.Writing, fs: seq<Field>,
                      i: nat, info: Info, read: seq<Choice>, written: seq<Choice>)
    requires src.Valid() && IsAt(src, st, x, b, w) && IsShut(w) && t.Valid() && !t.preserve
    requires i < |fs| && fs[i].Integer? && !fs[i].extended && AreFieldsOk(fs, src.version) && ArePairsPortable(fs)
    requires AreHandlersPlain(fs[i]) && IsFaithful(fs, i, info, src.version)
    requires AreChoicesAt(fs, i, info, read, written) && Find(read, Key(fs[i])).None?
    requires E.EncodeScalar(t, w, fs, i, info, written).Some?
    requires IsAhead(E.EncodeScalar(t, w, fs, i, info, written).value.0, x)
    ensures var (w', written') := E.EncodeScalar(t, w, fs, i, info, written).value;
      var (ok, st', n) := D.ReadNumber(src, st, fs[i].length);
      && written' == written && ok && st' == st.(pos := st.pos + fs[i].length) && IsAt(src, st', x, b, w')
      && Apply(fs[i], Data(n, NoText, [])).Some?
      && IsPlainNumber(fs, i, info, read, n)
  {
    hide IsAt, IsAhead, E.EncodeScalar, D.ReadNumber, E.PutRaw;
    hide Apply, AreHandlersPlain, IsTotal, AreChoicesAt, IsFaithful;
    hide D.IsLater, Pow256, AreFieldsOk, DecodesInto, IsPointed, ArePairsPortable, IsShut;
    var f := fs[i];
    var raw, pointed := PlainRaw(t, w, fs, i, info, read, written, src.version);
    if pointed {
      NumberOrNot(src, st, x, b, t, w, f.length, raw);
      TotalAt(f, D.ReadNumber(src, st, f.length).2);
    } else {
      NumberIsReread(src, st, x, b, t, w, f.length, raw);
    }
  }

  lemma FaithfulWord(fs: seq<Field>, i: nat, info: Info, version: Version)
    requires i < |fs| && fs[i].Integer? && IsFaithful(fs, i, info, version)
    ensures IsWord(fs[i], info)
  {
  }

  lemma UnpairedIsExact(fs: seq<Field>, i: nat, info: Info, version: Version)
    requires i < |fs| && fs[i].Integer? && E.ExtendedOf(fs, Key(fs[i]), 0).None? && IsFaithful(fs, i, info, version)
    ensures IsExactIn(fs[i], info) && IsWord(fs[i], info)
  {
  }

  /** An exact value is read as it has been written, and decodes into what it was. */
  lemma ExactIsReread(src: D.Source, st: D.Reading, x: seq<Byte>, b: nat, t: E.Target, w: E.Writing, f: Field,
                      info: Info)
    requires src.Valid() && IsAt(src, st, x, b, w) && IsShut(w)
    requires f.Integer? && 1 <= f.length <= 8 && AreHandlersPlain(f) && IsWord(f, info) && IsExactIn(f, info)
    requires var r := E.PutRaw(t, w, f.length, E.ValueData(f, info, None).value.0.number);
      r.Some? && IsAhead(r.value, x)
    ensures var n := E.ValueData(f, info, None).value.0.number;
      && D.ReadNumber(src, st, f.length) == (true, st.(pos := st.pos + f.length), n)
      && IsAt(src, st.(pos := st.pos + f.length), x, b, E.PutRaw(t, w, f.length, n).value)
      && DecodesInto(f, Data(n, NoText, []), info) && Apply(f, Data(n, NoText, [])).Some?
  {
    hide IsAt, IsAhead, E.PutRaw, D.ReadNumber, Pow256, E.ValueData, AreHandlersPlain, IsWord, Apply;
    ExactNow(f, info);
    NumberIsReread(src, st, x, b, t, w, f.length, E.ValueData(f, info, None).value.0.number);
  }

  /** A number which may be wider than the field is cut to it. */
  lemma NumberOrNot(src: D.Source, st: D.Reading, x: seq<Byte>, b: nat, t: E.Target, w: E.Writing, width: nat, raw: nat)
    requires src.Valid() && IsAt(src, st, x, b, w) && IsShut(w)
    requires E.PutRaw(t, w, width, raw).Some? && IsAhead(E.PutRaw(t, w, width, raw).value, x)
    ensures var (ok, st', n) := D.ReadNumber(src, st, width);
      && ok && st' == st.(pos := st.pos + width) && n == raw % Pow256(width)
      && IsAt(src, st', x, b, E.PutRaw(t, w, width, raw).value)
  {
    hide IsAt, IsAhead, D.ReadNumber, LeStore, LeLoad, Pow256;
    LoadStore(raw, width);
    WidthIsReread(src, st, x, b, w, E.PutRaw(t, w, width, raw).value, LeStore(raw, width));
  }

  lemma ChoicesAfterOther(fs: seq<Field>, i: nat, info: Info, read: seq<Choice>, written: seq<Choice>)
    requires i < |fs| && AreChoicesAt(fs, i, info, read, written)
    requires IsExtended(fs[i]) || Find(read, Key(fs[i])).None?
    ensures AreChoicesAt(fs, i + 1, info, read, written)
  {
    hide AreOf, IsUnread, AreWidened, AreGovernedExact;
    MatchedAfterOther(fs, i, read, written);
    WidenedAfterOther(fs, i, info, written);
  }

  /** Whether an extended field carries the value has been told by the one governing it. */
  lemma WideningIsTold(fs: seq<Field>, i: nat, e: nat, info: Info, read: seq<Choice>, written: seq<Choice>)
    requires i < |fs| && e < |fs| && IsPair(fs[i], fs[e]) && AreChoicesOk(fs) && ArePairsPortable(fs)
    requires AreChoicesAt(fs, i, info, read, written) && Find(read, Key(fs[i])).None?
    ensures IsTotal(fs[i]) && Find(written, WhenKey(fs[e])).Some?
    ensures written[Find(written, WhenKey(fs[e])).value].whenRaw == fs[e].whenRaw
    ensures IsPointed(read, fs[e]) <==> written[Find(written, WhenKey(fs[e])).value].extended
    ensures !IsPointed(read, fs[e]) ==> IsExactIn(fs[i], info)
  {
    hide AreWidened, AreGovernedExact, IsExactIn, IsTotal, AreOf, AreMatched, IsPointed, IsUnread, AreKeyed;
    hide AreNamedIntegers, AreNamedOnce, AreExtendedOnce, AreGovernedAfter, AreGovernorsFree, AreChoicesAt;
    ChoicesAre(fs, i, info, read, written);
    SameKeysFindFrom(Collect(fs), read, WhenKey(fs[e]), 0);
    SameKeysFindFrom(read, written, WhenKey(fs[e]), 0);
    ChoiceOfExtended(fs, e, read);
    WideningIsKnown(fs, i, e, read, written);
    PairIsTotal(fs, i, e);
    GovernorIsRead(fs, i, e);
    if !IsPointed(read, fs[e]) {
      UnwidenedIsExact(fs, i, e, info, written);
    }
  }

  lemma PairIsTotal(fs: seq<Field>, i: nat, e: nat)
    requires i < |fs| && e < |fs| && IsPair(fs[i], fs[e]) && ArePairsPortable(fs)
    ensures IsTotal(fs[i]) && Find(Collect(fs), WhenKey(fs[e])).Some?
  {
    hide IsTotal, Collect;
  }

  lemma UnwidenedIsExact(fs: seq<Field>, i: nat, e: nat, info: Info, written: seq<Choice>)
    requires i < |fs| && e < |fs| && IsPair(fs[i], fs[e]) && WhenKey(fs[e]) != Key(fs[i])
    requires AreWidened(fs, i, info, written) && !IsUnread(fs, i, WhenKey(fs[e]))
    requires var c := Find(written, WhenKey(fs[e])); c.Some? && !written[c.value].extended
    ensures IsExactIn(fs[i], info)
  {
    hide IsExactIn, IsUnread;
    var key := WhenKey(fs[e]);
    assert AreGovernedExact(fs, key, info);
    assert Governs(fs, fs[i], key);
  }

  lemma PlainIsRestored(fs: seq<Field>, i: nat, info: Info, before: Info, read: seq<Choice>, n: nat)
    requires i < |fs| && !IsExtended(fs[i]) && AreExtendedOnce(fs)
    requires AreHandlersPlain(fs[i]) && Apply(fs[i], Data(n, NoText, [])).Some?
    requires IsPlainNumber(fs, i, info, read, n)
    ensures IsPlainRestored(fs, i, info, before + Apply(fs[i], Data(n, NoText, [])).value, read)
  {
    hide AreHandlersPlain, Apply, IsPointed, DecodesInto, Pow256, IsPointing;
    var own := E.ExtendedOf(fs, Key(fs[i]), 0);
    if own.Some? && IsPointed(read, fs[own.value]) {
      assert IsWaitingFor(fs, i, own.value, read);
      PointingNow(fs[i], before, fs[own.value].whenRaw);
    } else {
      DecodedIsHeld(fs[i], Data(n, NoText, []), info, before);
    }
  }

  // Extended integers

  /** The plain field an extended one is keyed on comes before it. */
  lemma KeyIsRead(fs: seq<Field>, i: nat)
    requires i < |fs| && IsExtended(fs[i]) && AreKeyed(fs) && AreNamedIntegers(fs) && AreNamedOnce(fs)
    ensures !IsUnread(fs, i, WhenKey(fs[i]))
  {
    var j :| 0 <= j < |fs| && !IsExtended(fs[j]) && Key(fs[j]) == WhenKey(fs[i]);
    assert IsNamedBy(fs[j], fs[i]);
    NamedIsRead(fs, j, i);
  }

  lemma ExtendedWrites(t: E.Target, w: E.Writing, fs: seq<Field>, i: nat, info: Info, written: seq<Choice>)
    requires t.Valid() && !t.preserve && i < |fs| && IsExtended(fs[i])
    requires Find(written, WhenKey(fs[i])).Some? && E.EncodeScalar(t, w, fs, i, info, written).Some?
    ensures var (w', written') := E.EncodeScalar(t, w, fs, i, info, written).value;
      && written' == written
      && (if written[Find(written, WhenKey(fs[i])).value].extended then
            && E.ValueData(fs[i], info, None).Some?
            && E.PutRaw(t, w, fs[i].length, E.ValueData(fs[i], info, None).value.0.number) == Some(w')
          else w' == E.Put(t, w, E.Reserved(t, w, fs[i].length)))
  {
    hide E.ValueData, E.PutRaw, E.Put;
  }

  lemma ExtendedGives(src: D.Source, st: D.Reading, f: Field, copy: Info, read: seq<Choice>, n: nat)
    requires src.Valid() && IsExtended(f)
    requires D.ReadNumber(src, st, f.length) == (true, st.(pos := st.pos + f.length), n)
    requires IsPointed(read, f) ==> Apply(f, Data(n, NoText, [])).Some?
    ensures D.DecodeExtended(src, f, st, copy, read) ==
      D.Step(true, st.(pos := st.pos + f.length),
             if IsPointed(read, f) then copy + Apply(f, Data(n, NoText, [])).value else copy, read)
  {
    hide D.IsLater, Apply, D.ReadNumber;
  }

  /** The number read for an extended integer is its value, where the plain one points at it. */
  lemma ExtendedIsReread(src: D.Source, st: D.Reading, x: seq<Byte>, b: nat, t: E.Target, w: E.Writing, fs: seq<Field>,
                         i: nat, info: Info, read: seq<Choice>, written: seq<Choice>)
    requires src.Valid() && IsAt(src, st, x, b, w) && IsShut(w) && t.Valid() && !t.preserve
    requires i < |fs| && IsExtended(fs[i]) && AreFieldsOk(fs, src.version) && ArePairsPortable(fs)
    requires AreHandlersPlain(fs[i]) && IsWord(fs[i], info) && IsExactIn(fs[i], info)
    requires AreChoicesAt(fs, i, info, read, written)
    requires E.EncodeScalar(t, w, fs, i, info, written).Some?
    requires IsAhead(E.EncodeScalar(t, w, fs, i, info, written).value.0, x)
    ensures var (w', written') := E.EncodeScalar(t, w, fs, i, info, written).value;
      var (ok, st', n) := D.ReadNumber(src, st, fs[i].length);
      && written' == written && ok && st' == st.(pos := st.pos + fs[i].length) && IsAt(src, st', x, b, w')
      && (IsPointed(read, fs[i]) ==>
            Apply(fs[i], Data(n, NoText, [])).Some? && DecodesInto(fs[i], Data(n, NoText, []), info))
  {
    hide IsAt, IsAhead, E.EncodeScalar, D.ReadNumber, E.PutRaw;
    hide Apply, AreHandlersPlain, E.Reserved, AreChoicesAt, E.Put;
    hide D.IsLater, Pow256, AreFieldsOk, AreChoicesOk, AreApart, E.ValueData, AreWidened, DecodesInto;
    hide IsExactIn, AreNamedIntegers, AreOf, AreSameKeys, AreMatched, IsPointed, AreGovernedAfter, IsWord;
    hide AreNamedOnce, AreKeyed, AreExtendedOnce, AreGovernorsFree, ArePairsPortable;
    var f := fs[i];
    ListIsOk(fs, src.version);
    ChoicesAre(fs, i, info, read, written);
    PointedIsChosen(fs, i, read, written);
    ExtendedWrites(t, w, fs, i, info, written);
    if IsPointed(read, f) {
      ExactIsReread(src, st, x, b, t, w, f, info);
    } else {
      ReservedIsPut(t, w, f.length);
      WidthIsReread(src, st, x, b, w, E.Put(t, w, E.Reserved(t, w, f.length)), E.Reserved(t, w, f.length));
    }
  }

  lemma ReservedIsPut(t: E.Target, w: E.Writing, n: nat)
    requires t.Valid()
    ensures var w' := E.Put(t, w, E.Reserved(t, w, n));
      w'.out == w.out + E.Reserved(t, w, n) && w'.bits == w.bits && w'.taken == w.taken
      && w'.strings == w.strings && w'.stopped == w.stopped
  {
  }

  lemma PointedIsChosen(fs: seq<Field>, i: nat, read: seq<Choice>, written: seq<Choice>)
    requires i < |fs| && IsExtended(fs[i]) && AreChoicesOk(fs) && ArePairsPortable(fs)
    requires AreOf(fs, read) && AreSameKeys(Collect(fs), read) && AreMatched(fs, i, read, written)
    ensures var c := Find(written, WhenKey(fs[i]));
      c.Some? && (IsPointed(read, fs[i]) <==> written[c.value].extended)
  {
    hide AreSameKeys, AreOf;
    hide IsUnread;
    SameKeysFindFrom(Collect(fs), read, WhenKey(fs[i]), 0);
    MatchedKeys(fs, i, read, written);
    SameKeysFindFrom(read, written, WhenKey(fs[i]), 0);
    ChoiceOfExtended(fs, i, read);
    KeyIsRead(fs, i);
  }

  lemma ExtendedRound(src: D.Source, st: D.Reading, x: seq<Byte>, b: nat, t: E.Target, w: E.Writing, fs: seq<Field>,
                      i: nat, info: Info, copy: Info, read: seq<Choice>, written: seq<Choice>)
    requires src.Valid() && IsAt(src, st, x, b, w) && IsShut(w) && t.Valid() && !t.preserve
    requires i < |fs| && IsExtended(fs[i]) && AreFieldsOk(fs, src.version) && ArePairsPortable(fs)
    requires AreHandlersPlain(fs[i]) && IsWord(fs[i], info) && IsExactIn(fs[i], info)
    requires AreChoicesAt(fs, i, info, read, written)
    requires E.EncodeScalar(t, w, fs, i, info, written).Some?
    requires IsAhead(E.EncodeScalar(t, w, fs, i, info, written).value.0, x)
    ensures var one := D.DecodeExtended(src, fs[i], st, copy, read);
      && IsReread(src, st, one, x, b, fs, i, info, E.EncodeScalar(t, w, fs, i, info, written).value)
      && one.choices == read
      && (if IsPointed(read, fs[i]) then forall k | k in Writes(fs[i]) :: IsHeldAt(info, one.info, k)
          else one.info == copy)
  {
    hide IsAt, IsAhead, E.EncodeScalar, D.ReadNumber, Apply;
    hide AreHandlersPlain, AreChoicesAt, D.DecodeExtended, D.IsLater;
    hide AreFieldsOk, AreChoicesOk, AreApart, DecodesInto, IsExactIn, IsPointed, IsWord, ArePairsPortable, IsHeldAt;
    var f := fs[i];
    ExtendedIsReread(src, st, x, b, t, w, fs, i, info, read, written);
    var n := D.ReadNumber(src, st, f.length).2;
    ExtendedGives(src, st, f, copy, read, n);
    ChoicesAfterOther(fs, i, info, read, written);
    if IsPointed(read, f) {
      DecodedIsHeld(f, Data(n, NoText, []), info, copy);
    }
  }

  // Other scalar fields

  lemma UnnamedWrites(t: E.Target, w: E.Writing, fs: seq<Field>, i: nat, info: Info, written: seq<Choice>)
    requires t.Valid() && !t.preserve && i < |fs| && IsScalar(fs[i]) && !fs[i].Integer?
    requires Find(written, Key(fs[i])).None? && E.ExtendedOf(fs, Key(fs[i]), 0).None?
    requires E.EncodeScalar(t, w, fs, i, info, written).Some?
    ensures var f := fs[i];
      if E.IsFixed(f) then E.EncodeScalar(t, w, fs, i, info, written) == E.Keep(E.EncodeFixed(t, w, f, info), written)
      else
        && E.ValueData(f, info, None).Some?
        && E.EncodeScalar(t, w, fs, i, info, written)
        == E.Keep(E.PutData(t, w, f, E.ValueData(f, info, None).value.0), written)
  {
    hide E.EncodeFixed, E.PutData, E.ValueData;
  }

  /** A string number refers to the text which has been stored for it. */
  lemma StringIsReread(src: D.Source, st: D.Reading, x: seq<Byte>, b: nat, t: E.Target, w: E.Writing, f: Field,
                       info: Info, copy: Info, built: seq<Option<seq<Byte>>>)
    requires IsRound(src, x, b, t, built) && IsAt(src, st, x, b, w) && IsShut(w)
    requires f.String? && f.codec == PLAIN
    requires var r := E.PutData(t, w, f, Data(0, TextAt(info, f.member.id), []));
      r.Some? && IsAhead(r.value, x) && r.value.strings <= built
    ensures var one := D.DecodeValue(src, f, st, copy, true);
      && one.ok && one.st == st.(pos := st.pos + 1)
      && IsAt(src, one.st, x, b, E.PutData(t, w, f, Data(0, TextAt(info, f.member.id), [])).value)
      && f.member.id in one.info && one.info[f.member.id].Words?
      && RefersTo(one.info[f.member.id].text, built, RawText(t.strings, TextAt(info, f.member.id)))
  {
    hide IsAt, IsAhead, D.IsLater, E.FindString;
    var text := TextAt(info, f.member.id);
    var w' := E.PutData(t, w, f, Data(0, text, [])).value;
    if text.NoText? {
      BytesAreReread(src, st, x, b, w, w', [0]);
    } else {
      var raw := RawText(t.strings, text).value;
      var (strings, number) := E.AddString(t, w.strings, raw);
      assert w' == E.Put(t, w.(strings := strings), [number]);
      BytesAreReread(src, st, x, b, w, w', [number]);
      assert built[number - 1] == Some(raw);
    }
  }

  /** Data of a string number a made text has been stored under. */
  lemma TextIsShown(strings: seq<Option<seq<Byte>>>, number: nat, raw: seq<Byte>)
    requires 1 <= number <= |strings| && strings[number - 1] == Some(raw)
    ensures TextData(strings, number) == Data(number, Stored(number - 1), Trimmed(raw))
  {
    hide Trimmed;
  }

  /** A text handlers have made is stored, and read as the value again. */
  lemma MadeTextIsReread(src: D.Source, st: D.Reading, x: seq<Byte>, b: nat, t: E.Target, w: E.Writing, f: Field,
                         info: Info, copy: Info, built: seq<Option<seq<Byte>>>)
    requires IsRound(src, x, b, t, built) && IsAt(src, st, x, b, w) && IsShut(w)
    requires f.String? && f.codec.decode.Some? && AreTextHandlersPlain(f) && IsTextFaithful(f, info)
    requires E.ValueData(f, info, None).Some?
    requires var r := E.PutData(t, w, f, E.ValueData(f, info, None).value.0);
      r.Some? && IsAhead(r.value, x) && r.value.strings <= built
    ensures var one := D.DecodeValue(src, f, st, copy, true);
      && one.ok && one.st == st.(pos := st.pos + 1)
      && IsAt(src, one.st, x, b, E.PutData(t, w, f, E.ValueData(f, info, None).value.0).value)
      && forall k | k in Writes(f) :: IsHeldAt(info, one.info, k)
  {
    hide IsAt, IsAhead, D.IsLater, E.FindString, Apply, AreTextHandlersPlain, IsHeldAt, Trimmed, IsTextFaithful;
    var data := E.ValueData(f, info, None).value.0;
    var w' := E.PutData(t, w, f, data).value;
    MadeTextData(f, info);
    if data.text.NoText? {
      BytesAreReread(src, st, x, b, w, w', [0]);
      NothingTrimmed();
      TextGives(src, st, f, info, copy, data, 0);
    } else {
      var (strings, number) := E.AddString(t, w.strings, data.text.bytes);
      assert w' == E.Put(t, w.(strings := strings), [number]);
      BytesAreReread(src, st, x, b, w, w', [number]);
      TextIsShown(src.strings, number, data.text.bytes);
      TextGives(src, st, f, info, copy, data, number);
    }
  }

  lemma NothingTrimmed()
    ensures Trimmed([]) == []
  {
  }

  lemma MadeTextData(f: Field, info: Info)
    requires f.String? && f.codec.decode.Some? && AreTextHandlersPlain(f) && E.ValueData(f, info, None).Some?
    ensures var data := E.ValueData(f, info, None).value.0;
      && ModelData(f, info) == Some(data) && data.number == 0 && !data.text.Stored?
      && data.bytes == (if data.text.Made? then data.text.bytes else [])
  {
    hide ModelData, Apply, DecodesInto;
  }

  lemma TextGives(src: D.Source, st: D.Reading, f: Field, info: Info, copy: Info, data: Data, n: Byte)
    requires src.Valid() && f.String? && f.codec.decode.Some? && AreTextHandlersPlain(f) && IsTextFaithful(f, info)
    requires ModelData(f, info) == Some(data) && 1 <= D.Remaining(src, st) && src.body[st.pos] == n
    requires TextData(src.strings, n).text.NoText? == data.text.NoText?
    requires TextData(src.strings, n).bytes == Trimmed(data.bytes)
    ensures var one := D.DecodeValue(src, f, st, copy, true);
      && one.ok && one.st == st.(pos := st.pos + 1) && forall k | k in Writes(f) :: IsHeldAt(info, one.info, k)
  {
    hide D.IsLater, Apply, Trimmed, TextData;
    var shown := data.(bytes := Trimmed(data.bytes));
    assert Apply(f, TextData(src.strings, n)) == Apply(f, shown);
    assert DecodesInto(f, shown, info);
  }

  lemma UuidIsReread(src: D.Source, st: D.Reading, x: seq<Byte>, b: nat, t: E.Target, w: E.Writing, f: Field,
                     info: Info, copy: Info)
    requires src.Valid() && IsAt(src, st, x, b, w) && IsShut(w) && f.Uuid?
    requires var r := E.EncodeFixed(t, w, f, info); r.Some? && IsAhead(r.value, x)
    ensures var one := D.DecodeValue(src, f, st, copy, true);
      && one.ok && one.st == st.(pos := st.pos + 16)
      && IsAt(src, one.st, x, b, E.EncodeFixed(t, w, f, info).value)
      && f.member.id in one.info && one.info[f.member.id] == Unique(UuidAt(info, f.member.id))
  {
    hide IsAt, IsAhead, D.IsLater;
    var uuid := UuidAt(info, f.member.id);
    SwapTwice(uuid);
    BytesAreReread(src, st, x, b, w, E.EncodeFixed(t, w, f, info).value, SwapUuid(uuid));
  }

  lemma {:induction false} SpelledValue(number: nat, length: nat)
    requires number < Pow100(length)
    ensures BcdValue(BcdSpell(number, length)) == number
  {
    if length != 0 {
      SpelledValue(number / 100, length - 1);
      var first := number % 10 + 16 * (number / 10 % 10);
      assert first % 16 == number % 10 && first / 16 == number / 10 % 10;
      assert BcdSpell(number, length)[1..] == BcdSpell(number / 100, length - 1);
      assert number == number % 10 + 10 * (number / 10 % 10) + 100 * (number / 100) by {
        assert number / 10 / 10 == number / 100;
      }
    }
  }

  lemma DigitsAreReread(src: D.Source, st: D.Reading, f: Field, info: Info, copy: Info, data: seq<Byte>)
    requires src.Valid() && f.Bcd? && IsFieldOk(f) && |data| == f.length && AreDigits(data)
    requires f.unknown != 0 ==> !AreDigits(LeStore(f.unknown, f.length))
    requires D.ReadNumber(src, st, f.length) == (true, st.(pos := st.pos + f.length), LeLoad(data))
    ensures D.DecodeValue(src, f, st, copy, true) ==
      D.Scalar(true, st.(pos := st.pos + f.length), copy + map[f.member.id := Number(BcdValue(data))],
               Some(BcdValue(data)))
  {
    hide D.ReadNumber, D.IsLater, BcdValue, LeLoad, LeStore, AreDigits, Pow100, Pow256, Apply;
    StoreLoad(data);
    DigitsAreStored(f, data);
  }

  lemma UnknownIsReread(src: D.Source, st: D.Reading, f: Field, copy: Info)
    requires src.Valid() && f.Bcd? && IsFieldOk(f) && f.unknown != 0
    requires D.ReadNumber(src, st, f.length) == (true, st.(pos := st.pos + f.length), f.unknown)
    ensures D.DecodeValue(src, f, st, copy, true) ==
      D.Scalar(true, st.(pos := st.pos + f.length), copy + map[f.member.id := Number(MemberMax(f.member))],
               Some(f.unknown))
  {
    hide D.ReadNumber, D.IsLater, BcdValue, LeLoad, LeStore, AreDigits, Pow100, Pow256, Apply;
    UnknownIsStored(f);
  }

  lemma BcdIsReread(src: D.Source, st: D.Reading, x: seq<Byte>, b: nat, t: E.Target, w: E.Writing, f: Field,
                    info: Info, copy: Info)
    requires src.Valid() && IsAt(src, st, x, b, w) && IsShut(w) && f.Bcd? && IsFieldOk(f)
    requires f.unknown != 0 ==> f.unknown < Pow256(f.length) && !AreDigits(LeStore(f.unknown, f.length))
    requires IsNumberAt(info, f.member.id)
    requires var r := E.EncodeFixed(t, w, f, info); r.Some? && IsAhead(r.value, x)
    ensures var one := D.DecodeValue(src, f, st, copy, true);
      && one.ok && one.st == st.(pos := st.pos + f.length)
      && IsAt(src, one.st, x, b, E.EncodeFixed(t, w, f, info).value)
      && IsHeldAt(info, one.info, f.member.id)
  {
    hide IsAt, IsAhead, D.IsLater, D.DecodeValue, LeStore, BcdSpell, Pow256, D.ReadNumber, AreDigits, LeLoad, BcdValue;
    var number := Load(info, f.member);
    if f.unknown != 0 && number == MemberMax(f.member) {
      NumberIsReread(src, st, x, b, t, w, f.length, f.unknown);
      UnknownIsReread(src, st, f, copy);
    } else {
      var data := BcdSpell(number, f.length);
      RestIsZero(number, Pow100(f.length));
      SpelledValue(number, f.length);
      SpelledAreDigits(number, f.length);
      SpelledIsReread(src, st, x, b, t, w, data);
      DigitsAreReread(src, st, f, info, copy, data);
    }
  }

  lemma RestIsZero(number: nat, p: nat)
    requires p > 0 && number / p == 0
    ensures number < p
  {
  }

  lemma SpelledIsReread(src: D.Source, st: D.Reading, x: seq<Byte>, b: nat, t: E.Target, w: E.Writing, data: seq<Byte>)
    requires src.Valid() && IsAt(src, st, x, b, w) && IsShut(w) && 1 <= |data| <= 8
    requires IsAhead(E.Put(t, w, data), x)
    ensures D.ReadNumber(src, st, |data|) == (true, st.(pos := st.pos + |data|), LeLoad(data))
    ensures IsAt(src, st.(pos := st.pos + |data|), x, b, E.Put(t, w, data))
  {
    hide IsAt, IsAhead, LeLoad, D.IsLater;
    BytesAreReread(src, st, x, b, w, E.Put(t, w, data), data);
  }

  /** Bytes of a fixed length, which a handler may spell. */
  lemma FixedBytesAreReread(src: D.Source, st: D.Reading, x: seq<Byte>, b: nat, t: E.Target, w: E.Writing, f: Field,
                            info: Info, copy: Info)
    requires src.Valid() && IsAt(src, st, x, b, w) && IsShut(w) && t.Valid() && !t.preserve
    requires f.Raw? && f.extent.Fixed? && AreHandlersPlain(f) && IsExactIn(f, info)
    requires |E.ValueData(f, info, None).value.0.bytes| == f.extent.length
    requires var r := E.PutData(t, w, f, E.ValueData(f, info, None).value.0); r.Some? && IsAhead(r.value, x)
    ensures var one := D.DecodeValue(src, f, st, copy, true);
      && one.ok && one.st == st.(pos := st.pos + f.extent.length)
      && IsAt(src, one.st, x, b, E.PutData(t, w, f, E.ValueData(f, info, None).value.0).value)
      && forall k | k in Writes(f) :: IsHeldAt(info, one.info, k)
  {
    hide IsAt, IsAhead, D.IsLater, D.DecodeValue, E.ValueData, AreHandlersPlain, E.Copy, Apply, DecodesInto;
    var data := E.ValueData(f, info, None).value.0;
    ExactBytes(f, info);
    assert data.bytes[..f.extent.length] == data.bytes;
    var w' := E.PutData(t, w, f, data).value;
    BytesArePut(t, w, f, data);
    BytesAreReread(src, st, x, b, w, w', data.bytes);
    BytesGive(src, st, f, copy, data.bytes);
    DecodedIsHeld(f, data, info, copy);
  }

  lemma ExactBytes(f: Field, info: Info)
    requires f.Raw? && AreHandlersPlain(f) && IsExactIn(f, info)
    ensures var data := E.ValueData(f, info, None).value.0;
      data == Data(0, NoText, data.bytes) && DecodesInto(f, data, info) && Apply(f, data).Some?
  {
  }

  lemma BytesArePut(t: E.Target, w: E.Writing, f: Field, data: Data)
    requires t.Valid() && f.Raw? && f.extent.Fixed? && |data.bytes| == f.extent.length
    ensures E.PutData(t, w, f, data) == Some(E.Put(t, w, data.bytes))
  {
    assert data.bytes[..f.extent.length] == data.bytes;
    if |data.bytes| == 0 {
      assert E.Reserved(t, w, 0) == data.bytes;
    }
  }

  lemma BytesGive(src: D.Source, st: D.Reading, f: Field, copy: Info, bytes: seq<Byte>)
    requires src.Valid() && f.Raw? && D.RawLength(src, f, st, copy) == |bytes| <= D.Remaining(src, st)
    requires D.Ahead(src, st, |bytes|) == bytes && Apply(f, Data(0, NoText, bytes)).Some?
    ensures D.DecodeValue(src, f, st, copy, true) ==
      D.Scalar(true, st.(pos := st.pos + |bytes|), copy + Apply(f, Data(0, NoText, bytes)).value, Some(0))
  {
    hide D.IsLater, Apply;
  }

  /** Bytes the member holds all of: the rest of the data, or as many as another member counts. */
  lemma CountedBytesAreReread(src: D.Source, st: D.Reading, x: seq<Byte>, b: nat, t: E.Target, w: E.Writing, f: Field,
                              info: Info, copy: Info)
    requires src.Valid() && IsAt(src, st, x, b, w) && IsShut(w)
    requires f.Raw? && !f.extent.Fixed? && IsFieldOk(f) && AreHandlersPlain(f) && IsBinaryAt(info, f.member.id)
    requires f.extent.Counted? ==>
      IsHeldAt(info, copy, f.extent.counted.id) && |BinaryAt(info, f.member.id)| == Load(info, f.extent.counted)
    requires var r := E.EncodeFixed(t, w, f, info);
      r.Some? && IsAhead(r.value, x) && (f.extent.Rest? ==> |x| == |r.value.out|)
    ensures var one := D.DecodeValue(src, f, st, copy, true);
      && one.ok && one.st == st.(pos := one.st.pos)
      && IsAt(src, one.st, x, b, E.EncodeFixed(t, w, f, info).value)
      && forall k | k in Writes(f) :: IsHeldAt(info, one.info, k)
  {
    hide IsAt, IsAhead, D.IsLater, D.DecodeValue, AreHandlersPlain;
    var bytes := BinaryAt(info, f.member.id);
    var w' := E.EncodeFixed(t, w, f, info).value;
    BytesAreReread(src, st, x, b, w, w', bytes);
    StandsBehind(src, st, x, b, w);
    DataIsWhole(src, st, x, b, w);
    BytesGive(src, st, f, copy, bytes);
    BinaryIsHeld(f, info, copy, bytes);
  }

  lemma DataIsWhole(src: D.Source, st: D.Reading, x: seq<Byte>, b: nat, w: E.Writing)
    requires IsAt(src, st, x, b, w)
    ensures src.end == |x| && st.pos <= src.end
  {
  }

  lemma BinaryIsHeld(f: Field, info: Info, copy: Info, bytes: seq<Byte>)
    requires f.Raw? && !f.extent.Fixed? && IsFieldOk(f) && AreHandlersPlain(f) && IsBinaryAt(info, f.member.id)
    requires bytes == BinaryAt(info, f.member.id)
    ensures forall k | k in Writes(f) :: IsHeldAt(info, copy + Apply(f, Data(0, NoText, bytes)).value, k)
  {
    assert Apply(f, Data(0, NoText, bytes)) == Some(map[f.member.id := Binary(bytes)]);
  }

  /** What is written for a field which is no integer. */
  function ValueWritten(t: E.Target, w: E.Writing, f: Field, info: Info): Option<E.Writing>
    requires t.Valid()
  {
    if E.IsFixed(f) then E.EncodeFixed(t, w, f, info)
    else if E.ValueData(f, info, None).None? then None
    else E.PutData(t, w, f, E.ValueData(f, info, None).value.0)
  }

  /** What is taken of such a field, its value, and the members read before it. */
  ghost predicate IsValueOk(f: Field, info: Info, copy: Info) {
    && IsScalar(f) && !f.Integer? && IsFieldOk(f)
    && (f.String? && f.codec.decode.None? ==> f.codec == PLAIN)
    && (f.String? && f.codec.decode.Some? ==> AreTextHandlersPlain(f) && IsTextFaithful(f, info))
    && (f.Bcd? ==> IsNumberAt(info, f.member.id))
    && (f.Bcd? && f.unknown != 0 ==> f.unknown < Pow256(f.length) && !AreDigits(LeStore(f.unknown, f.length)))
    && (f.Raw? ==> AreHandlersPlain(f))
    && (f.Raw? && f.extent.Fixed? ==>
          IsExactIn(f, info) && |E.ValueData(f, info, None).value.0.bytes| == f.extent.length)
    && (f.Raw? && !f.extent.Fixed? ==> IsBinaryAt(info, f.member.id))
    && (f.Raw? && f.extent.Counted? ==>
          IsHeldAt(info, copy, f.extent.counted.id) && |BinaryAt(info, f.member.id)| == Load(info, f.extent.counted))
  }

  lemma ValueRound(src: D.Source, st: D.Reading, x: seq<Byte>, b: nat, t: E.Target, w: E.Writing, f: Field,
                   info: Info, copy: Info, built: seq<Option<seq<Byte>>>)
    requires IsRound(src, x, b, t, built) && IsAt(src, st, x, b, w) && IsShut(w) && IsValueOk(f, info, copy)
    requires ValueWritten(t, w, f, info).Some?
    requires var w' := ValueWritten(t, w, f, info).value;
      IsAhead(w', x) && w'.strings <= built && (f.Raw? && f.extent.Rest? ==> |x| == |w'.out|)
    ensures var one := D.DecodeValue(src, f, st, copy, true);
      && one.ok && one.st == st.(pos := one.st.pos) && IsAt(src, one.st, x, b, ValueWritten(t, w, f, info).value)
      && IsRestored(f, info, one.info, t.strings, built, t.version)
  {
    hide IsAt, IsAhead, D.DecodeValue, D.IsLater, E.EncodeFixed, E.PutData, E.ValueData, AreHandlersPlain, IsRound;
    hide IsHeldAt, IsRestored, IsExactIn, AreDigits, LeStore, IsFieldOk, Writes, RefersTo, RawText, Pow256;
    hide AreTextHandlersPlain, IsTextFaithful;
    RoundIsValid(src, x, b, t, built);
    if f.String? && f.codec.decode.Some? {
      MadeTextIsReread(src, st, x, b, t, w, f, info, copy, built);
    } else if f.String? {
      StringData(f, info);
      StringIsReread(src, st, x, b, t, w, f, info, copy, built);
    } else if f.Uuid? {
      UuidIsReread(src, st, x, b, t, w, f, info, copy);
    } else if f.Bcd? {
      BcdIsReread(src, st, x, b, t, w, f, info, copy);
    } else if f.extent.Fixed? {
      FixedBytesAreReread(src, st, x, b, t, w, f, info, copy);
    } else {
      CountedBytesAreReread(src, st, x, b, t, w, f, info, copy);
    }
    ScalarIsRestored(f, info, D.DecodeValue(src, f, st, copy, true).info, t, built);
  }

  /** Scalar fields which are no integers. */
  lemma OtherScalarRound(src: D.Source, st: D.Reading, x: seq<Byte>, b: nat, t: E.Target, w: E.Writing, fs: seq<Field>,
                         i: nat, info: Info, copy: Info, read: seq<Choice>, written: seq<Choice>,
                         built: seq<Option<seq<Byte>>>, top: bool)
    requires IsRound(src, x, b, t, built) && IsAt(src, st, x, b, w) && IsShut(w)
    requires i < |fs| && IsScalar(fs[i]) && !fs[i].Integer? && AreFieldsOk(fs, src.version)
    requires IsFieldPortable(fs, i, src.version, top) && IsFaithful(fs, i, info, src.version)
    requires fs[i].Raw? && fs[i].extent.Counted? ==> IsHeldAt(info, copy, fs[i].extent.counted.id)
    requires AreChoicesAt(fs, i, info, read, written) && E.EncodeScalar(t, w, fs, i, info, written).Some?
    requires var w' := E.EncodeScalar(t, w, fs, i, info, written).value.0;
      && IsAhead(w', x) && w'.strings <= built
      && (fs[i].Raw? && fs[i].extent.Rest? ==> |x| == |w'.out|)
    ensures var one := D.DecodePlain(src, fs[i], st, copy, read);
      && IsReread(src, st, one, x, b, fs, i, info, E.EncodeScalar(t, w, fs, i, info, written).value)
      && one.choices == read && IsRestored(fs[i], info, one.info, t.strings, built, src.version)
  {
    hide IsAt, IsAhead, E.EncodeScalar, AreChoicesAt, D.DecodePlain, D.DecodeValue, D.IsLater, IsFaithful, IsRound;
    hide IsFieldPortable, AreFieldsOk, IsRestored, IsReread, IsHeldAt, IsValueOk, E.EncodeFixed, E.PutData, E.ValueData;
    var f := fs[i];
    RoundIsValid(src, x, b, t, built);
    UnnamedIsPlain(src, fs, i, st, info, copy, read, written);
    UnnamedWrites(t, w, fs, i, info, written);
    ValueIsOk(fs, i, info, copy, src.version, top);
    ValueRound(src, st, x, b, t, w, f, info, copy, built);
    ChoicesAfterOther(fs, i, info, read, written);
    ScalarIsReread(src, st, D.DecodePlain(src, f, st, copy, read), x, b, fs, i, info,
                   E.EncodeScalar(t, w, fs, i, info, written).value);
  }

  /** What is taken of a scalar field and its value. */
  lemma ScalarIsOk(fs: seq<Field>, i: nat, info: Info, version: Version, top: bool)
    requires i < |fs| && IsFieldPortable(fs, i, version, top) && IsFaithful(fs, i, info, version)
    ensures fs[i].String? && fs[i].codec.decode.None? ==> fs[i].codec == PLAIN
    ensures fs[i].String? && fs[i].codec.decode.Some? ==> AreTextHandlersPlain(fs[i]) && IsTextFaithful(fs[i], info)
    ensures fs[i].Bcd? ==> IsNumberAt(info, fs[i].member.id)
    ensures fs[i].Bcd? && fs[i].unknown != 0 ==>
      fs[i].unknown < Pow256(fs[i].length) && !AreDigits(LeStore(fs[i].unknown, fs[i].length))
    ensures fs[i].Raw? ==> AreHandlersPlain(fs[i])
    ensures fs[i].Raw? && fs[i].extent.Fixed? ==>
      IsExactIn(fs[i], info) && |E.ValueData(fs[i], info, None).value.0.bytes| == fs[i].extent.length
    ensures fs[i].Raw? && !fs[i].extent.Fixed? ==> IsBinaryAt(info, fs[i].member.id)
    ensures fs[i].Raw? && fs[i].extent.Rest? ==> top && i + 1 == |fs|
    ensures fs[i].Raw? && fs[i].extent.Counted? ==>
      |BinaryAt(info, fs[i].member.id)| == Load(info, fs[i].extent.counted)
    ensures fs[i].Integer? || fs[i].Bits? ==> AreHandlersPlain(fs[i])
    ensures fs[i].Bits? && fs[i].range.Some? ==> IsWord(fs[i], info) && IsExactIn(fs[i], info)
    ensures fs[i].Integer? ==> IsWord(fs[i], info)
    ensures IsExtended(fs[i]) ==> IsExactIn(fs[i], info)
  {
    hide AreHandlersPlain, AreTextHandlersPlain, IsTextFaithful, E.ValueData, IsHeldBefore, AreDigits, LeStore, Pow256;
  }

  lemma ValueIsOk(fs: seq<Field>, i: nat, info: Info, copy: Info, version: Version, top: bool)
    requires i < |fs| && IsScalar(fs[i]) && !fs[i].Integer? && IsFieldOk(fs[i])
    requires IsFieldPortable(fs, i, version, top) && IsFaithful(fs, i, info, version)
    requires fs[i].Raw? && fs[i].extent.Counted? ==> IsHeldAt(info, copy, fs[i].extent.counted.id)
    ensures IsValueOk(fs[i], info, copy)
  {
    hide AreHandlersPlain, E.ValueData, IsHeldBefore, AreDigits, LeStore, Pow256, IsHeldAt, IsFieldOk, IsExactIn;
    hide AreTextHandlersPlain, IsTextFaithful;
    hide IsFaithful, IsFieldPortable;
    ScalarIsOk(fs, i, info, version, top);
  }

  lemma ScalarIsReread(src: D.Source, st: D.Reading, one: D.Step, x: seq<Byte>, b: nat, fs: seq<Field>, i: nat,
                       info: Info, r: (E.Writing, seq<Choice>))
    requires one.ok && one.st == st.(pos := one.st.pos) && IsAt(src, one.st, x, b, r.0)
    requires AreChoicesAt(fs, i + 1, info, one.choices, r.1)
    ensures IsReread(src, st, one, x, b, fs, i, info, r)
  {
  }

  lemma ScalarIsRestored(f: Field, info: Info, copy: Info, t: E.Target, built: seq<Option<seq<Byte>>>)
    requires IsScalar(f) && !f.Integer?
    requires f.String? && f.codec.decode.Some? ==> forall k | k in Writes(f) :: IsHeldAt(info, copy, k)
    requires f.String? && f.codec.decode.None? ==>
      && f.member.id in copy && copy[f.member.id].Words?
      && RefersTo(copy[f.member.id].text, built, RawText(t.strings, TextAt(info, f.member.id)))
    requires f.Uuid? ==> f.member.id in copy && copy[f.member.id] == Unique(UuidAt(info, f.member.id))
    requires f.Bcd? ==> IsHeldAt(info, copy, f.member.id)
    requires f.Raw? ==> forall k | k in Writes(f) :: IsHeldAt(info, copy, k)
    ensures IsRestored(f, info, copy, t.strings, built, t.version)
  {
    hide IsHeldAt, RefersTo, RawText;
  }

  lemma StringData(f: Field, info: Info)
    requires f.String? && f.codec == PLAIN && E.ValueData(f, info, None).Some?
    ensures E.ValueData(f, info, None).value.0 == Data(0, TextAt(info, f.member.id), [])
  {
  }

  lemma RoundIsValid(src: D.Source, x: seq<Byte>, b: nat, t: E.Target, built: seq<Option<seq<Byte>>>)
    requires IsRound(src, x, b, t, built)
    ensures src.Valid() && t.Valid() && !t.preserve && t.version == src.version
  {
  }

  lemma UnnamedIsPlain(src: D.Source, fs: seq<Field>, i: nat, st: D.Reading, info: Info, copy: Info,
                       read: seq<Choice>, written: seq<Choice>)
    requires src.Valid() && i < |fs| && IsScalar(fs[i]) && !fs[i].Integer? && AreFieldsOk(fs, src.version)
    requires AreChoicesAt(fs, i, info, read, written)
    ensures IsFieldOk(fs[i])
    ensures Find(read, Key(fs[i])).None? && Find(written, Key(fs[i])).None? && E.ExtendedOf(fs, Key(fs[i]), 0).None?
    ensures var one, value := D.DecodePlain(src, fs[i], st, copy, read), D.DecodeValue(src, fs[i], st, copy, true);
      one == D.Step(value.ok, value.st, value.info, read)
  {
    hide D.DecodePlain, D.DecodeValue, D.IsLater, AreFieldsOk, AreOf, AreNamedIntegers, IsFieldOk, AreWidened;
    hide AreMatched;
    ListIsOk(fs, src.version);
    ChoicesAre(fs, i, info, read, written);
    OnlyIntegersAreNamed(fs, i, read);
    SameKeysFindFrom(read, written, Key(fs[i]), 0);
    UnnamedIsRead(src, fs[i], st, copy, read);
  }

  // Runs of bits

  lemma BitsRound(src: D.Source, st: D.Reading, x: seq<Byte>, b: nat, t: E.Target, w: E.Writing, f: Field,
                  info: Info, copy: Info)
    requires src.Valid() && IsAt(src, st, x, b, w) && t.Valid() && !t.preserve
    requires f.Bits? && 1 <= f.width <= 56 && AreHandlersPlain(f)
    requires f.range.Some? ==> IsWord(f, info) && IsExactIn(f, info)
    requires E.EncodeBits(t, w, f, info).Some? && IsAhead(E.EncodeBits(t, w, f, info).value, x)
    ensures var one := D.DecodeBits(src, f, st, copy);
      && one.ok && IsAt(src, one.st, x, b, E.EncodeBits(t, w, f, info).value)
      && one.st == st.(pos := one.st.pos, bits := one.st.bits, taken := st.taken + f.width)
      && forall k | k in Writes(f) :: IsHeldAt(info, one.info, k)
  {
    hide IsAt, IsAhead, D.IsLater, D.TakeBits, E.PutBits, ToBits, FromBits, Low, E.ValueData, AreHandlersPlain;
    hide Apply, DecodesInto, Pow2, IsHeldAt, IsWord, IsExactIn;
    var raw := if f.range.None? then 0 else E.ValueData(f, info, None).value.0.number;
    RangeIsReread(src, st, x, b, t, w, raw, f.width);
    if f.range.Some? {
      RangeFitsWidth(f, info);
      RangeIsWhole(raw, f.width);
      DecodedIsHeld(f, Data(raw, NoText, []), info, copy);
    } else {
      var data := Data(FromBits(D.TakeBits(src, st, f.width).2), NoText, []);
      NothingDecoded(f, data, info);
      DecodedIsHeld(f, data, info, copy);
    }
  }

  lemma RangeFitsWidth(f: Field, info: Info)
    requires f.Bits? && 1 <= f.width <= 56 && AreHandlersPlain(f) && IsExactIn(f, info)
    ensures var n := E.ValueData(f, info, None).value.0.number;
      n < Pow2(f.width) && DecodesInto(f, Data(n, NoText, []), info) && Apply(f, Data(n, NoText, [])).Some?
  {
    ExactNumber(f, info);
    hide Pow2;
  }

  lemma RangeIsWhole(raw: nat, width: nat)
    requires raw < Pow2(width)
    ensures FromBits(ToBits(raw, width)) == raw
  {
    WholeNumber(raw, width);
  }

  /** A range of bits with no member decodes into nothing. */
  lemma NothingDecoded(f: Field, data: Data, info: Info)
    requires f.Bits? && f.range.None?
    ensures Apply(f, data).Some? && DecodesInto(f, data, info)
  {
  }

  lemma PadRound(src: D.Source, st: D.Reading, x: seq<Byte>, b: nat, t: E.Target, w: E.Writing, f: Field, copy: Info)
    requires src.Valid() && IsAt(src, st, x, b, w) && t.Valid() && !t.preserve
    requires f.Pad? && f.unit > 0 && f.unit % 8 == 0
    requires E.EncodePad(t, w, f).Some? && IsAhead(E.EncodePad(t, w, f).value, x)
    ensures var one := D.DecodePad(src, f, st, copy);
      && one.ok && one.info == copy && IsAt(src, one.st, x, b, E.EncodePad(t, w, f).value)
      && IsShut(E.EncodePad(t, w, f).value)
      && one.st == st.(pos := one.st.pos, bits := one.st.bits, taken := 0)
  {
    hide IsAhead, D.IsLater, D.TakeBits, E.PutBits, ToBits, StreamOf;
    AtIsSteady(src, st, x, b, w);
    var taken := w.taken % f.unit;
    UnitIsBytes(w.taken, f.unit);
    if taken == 0 {
      ClosedAt(src, st, x, b, w);
    } else {
      var w' := E.PutBits(t, w, 0, f.unit - taken).value;
      AheadAnyway(w', x);
      RangeIsReread(src, st, x, b, t, w, 0, f.unit - taken);
      PutBitsStreams(t, w, 0, f.unit - taken);
      UnitIsFilled(w.taken, f.unit);
      UnitIsBytes(w.taken + (f.unit - taken), f.unit);
      ClosedAt(src, D.TakeBits(src, st, f.unit - taken).1, x, b, w');
    }
  }

  lemma AtIsSteady(src: D.Source, st: D.Reading, x: seq<Byte>, b: nat, w: E.Writing)
    requires IsAt(src, st, x, b, w)
    ensures IsSteady(w) && st.taken == w.taken && IsAhead(w, x)
  {
  }

  lemma AheadAnyway(w: E.Writing, x: seq<Byte>)
    ensures IsAhead(w.(taken := 0), x) <==> IsAhead(w, x)
  {
    SameStream(w, 0);
  }

  /** Closing a run leaves the decoder where it stands. */
  lemma ClosedAt(src: D.Source, st: D.Reading, x: seq<Byte>, b: nat, w: E.Writing)
    requires IsAt(src, st, x, b, w) && w.taken % 8 == 0
    ensures IsAt(src, st.(taken := 0), x, b, w.(taken := 0)) && IsShut(w.(taken := 0))
  {
    SameStream(w, 0);
  }
}
/**
 Scalar fields in the preserve mode: what is written for a field is what has
 been read for it.
 */
module Scalars {
  import opened Wrappers
  import opened Bytes
  import opened BitRuns
  import opened Schema
  import opened WellFormed
  import opened Frame
  import opened Lockstep
  import D = Decoding
  import E = Encoding

  // Choices

  /** Choices are those the extended fields of the list are keyed on, one a member. */
  ghost predicate AreOf(fs: seq<Field>, choices: seq<Choice>) {
    && (forall c | 0 <= c < |choices| :: IsOf(fs, choices[c]))
    && (forall a, b | 0 <= a < b < |choices| :: choices[a].key != choices[b].key)
  }

  ghost predicate IsOf(fs: seq<Field>, choice: Choice) {
    exists j :: 0 <= j < |fs| && IsExtended(fs[j]) && WhenKey(fs[j]) == choice.key && fs[j].whenRaw == choice.whenRaw
  }

  lemma {:induction false} CollectedAreOf(fs: seq<Field>, i: nat, choices: seq<Choice>)
    requires AreOf(fs, choices) && forall c | 0 <= c < |choices| :: choices[c].raw == 0 && !choices[c].extended
    ensures AreOf(fs, CollectFrom(fs, i, choices))
    ensures forall c | 0 <= c < |CollectFrom(fs, i, choices)| :: !CollectFrom(fs, i, choices)[c].extended
    decreases |fs| - i
  {
    if i < |fs| {
      if IsExtended(fs[i]) && Find(choices, WhenKey(fs[i])).None? && |choices| < CHOICE_MAX {
        var added := Choice(WhenKey(fs[i]), fs[i].whenRaw, 0, false);
        assert IsOf(fs, added);
        CollectedAreOf(fs, i + 1, choices + [added]);
      } else {
        CollectedAreOf(fs, i + 1, choices);
      }
    }
  }

  /**
   The encoder has chosen the extended representation of the members read so
   far exactly when the data has.
   */
  ghost predicate AreMatched(fs: seq<Field>, i: nat, read: seq<Choice>, written: seq<Choice>) {
    && AreSameKeys(read, written)
    && forall c | 0 <= c < |read| ::
        if IsUnread(fs, i, read[c].key) then !written[c].extended
        else written[c].extended <==> read[c].raw == read[c].whenRaw
  }

  /** Only plain integers are keyed on, or have extended fields. */
  lemma OnlyIntegersAreNamed(fs: seq<Field>, i: nat, choices: seq<Choice>)
    requires i < |fs| && !IsExtended(fs[i]) && !fs[i].Integer?
    requires AreNamedIntegers(fs) && AreOf(fs, choices)
    ensures Find(choices, Key(fs[i])).None? && E.ExtendedOf(fs, Key(fs[i]), 0).None?
  {
    forall j | 0 <= j < |fs|
      ensures !IsNamedBy(fs[i], fs[j])
    {
    }
    assert forall c | 0 <= c < |choices| :: IsOf(fs, choices[c]);
  }

  /** A field which is not named keeps its members to itself. */
  lemma IsNotOverwritten(fs: seq<Field>, i: nat, choices: seq<Choice>, version: Version, k: Id)
    requires i < |fs| && AreApart(fs, version) && IsDefined(fs[i], version) && k in Writes(fs[i])
    requires forall j | i < j < |fs| && IsPair(fs[i], fs[j]) ::
      !IsUnread(fs, i + 1, WhenKey(fs[j])) && !IsPointed(choices, fs[j])
    ensures !MayWrite(fs, i + 1, choices, k, version)
  {
    var next := i + 1;
    forall j | next <= j < |fs|
      ensures !MayWriteAt(fs, next, j, choices, k, version)
    {
      if IsDefined(fs[j], version) && !IsPair(fs[i], fs[j]) {
        assert Writes(fs[i]) !! Writes(fs[j]);
      }
    }
  }

  /** The members of a field hold in the end what has been read into them. */
  ghost predicate IsSettled(fs: seq<Field>, i: nat, read: Info, choices: seq<Choice>, version: Version, final: Info)
    requires i < |fs|
  {
    forall k | k in Writes(fs[i]) && !MayWrite(fs, i + 1, choices, k, version) :: IsSameAt(final, read, k)
  }

  // Bytes on the wire

  /** Bytes which have just been read are written back. */
  lemma BytesKeep(src: D.Source, st: D.Reading, t: E.Target, h: seq<Byte>, w: E.Writing, n: nat, data: seq<Byte>)
    requires IsSameSource(src, t) && IsInStep(src, st, t, h, w) && IsClosed(st)
    requires n <= D.Remaining(src, st) && data == D.Ahead(src, st, n)
    ensures E.Remaining(t, w) == D.Remaining(src, st) && E.Ahead(t, w, n) == data
    ensures IsInStep(src, st.(pos := st.pos + n), t, h, E.Put(t, w, data))
  {
    assert data == src.body[st.pos..st.pos + n];
    PutKeeps(t, h, w, data);
  }

  lemma CopyInStep(src: D.Source, st: D.Reading, t: E.Target, h: seq<Byte>, w: E.Writing, n: nat)
    requires IsSameSource(src, t) && IsInStep(src, st, t, h, w) && IsClosed(st) && n <= D.Remaining(src, st)
    ensures IsInStep(src, st.(pos := st.pos + n), t, h, E.Copy(t, w, n))
  {
    CopyKeeps(t, h, w, n);
  }

  // Binary-coded decimals

  lemma {:induction false} SpellDigits(data: seq<Byte>)
    requires AreDigits(data)
    ensures BcdSpell(BcdValue(data), |data|) == data && BcdValue(data) < Pow100(|data|)
  {
    if data != [] {
      SpellDigits(data[1..]);
      DigitsOf(data[0] % 16, data[0] / 16, BcdValue(data[1..]));
      assert data == [data[0]] + data[1..];
    }
  }

  lemma DigitsOf(low: nat, high: nat, rest: nat)
    requires low < 10 && high < 10
    ensures var v := low + 10 * high + 100 * rest;
      v % 10 == low && v / 10 % 10 == high && v / 100 == rest
  {
    var v := low + 10 * high + 100 * rest;
    assert v / 10 == high + 10 * rest;
  }

  lemma {:induction false} DigitsAreFewer(n: nat)
    ensures n > 0 ==> Pow100(n) < Pow256(n)
  {
    if n > 1 {
      DigitsAreFewer(n - 1);
    }
  }

  /** Numbers which are no digits are not written back as they are. */
  lemma {:induction false} SpelledAreDigits(number: nat, length: nat)
    ensures AreDigits(BcdSpell(number, length))
  {
    if length != 0 {
      SpelledAreDigits(number / 100, length - 1);
      var first := number % 10 + 16 * (number / 10 % 10);
      assert first % 16 == number % 10 && first / 16 == number / 10 % 10;
    }
  }

  // Fields the model holds the whole of

  lemma UuidKeeps(src: D.Source, st: D.Reading, t: E.Target, h: seq<Byte>, w: E.Writing, f: Field, info: Info,
                  final: Info)
    requires IsSameSource(src, t) && IsInStep(src, st, t, h, w) && IsClosed(st) && f.Uuid?
    requires var one := D.DecodeValue(src, f, st, info, true); one.ok && IsSameAt(final, one.info, f.member.id)
    ensures var r := E.EncodeFixed(t, w, f, final);
      r.Some? && IsInStep(src, D.DecodeValue(src, f, st, info, true).st, t, h, r.value)
  {
    var data := D.Ahead(src, st, 16);
    SwapTwice(data);
    BytesKeep(src, st, t, h, w, 16, data);
  }

  lemma SwapTwice(b: seq<Byte>)
    requires |b| == 16
    ensures SwapUuid(SwapUuid(b)) == b
  {
    var r := SwapUuid(b);
    assert r[8..] == b[8..];
    assert b == [b[0], b[1], b[2], b[3], b[4], b[5], b[6], b[7]] + b[8..];
  }

  lemma BinaryKeeps(src: D.Source, st: D.Reading, t: E.Target, h: seq<Byte>, w: E.Writing, f: Field, info: Info,
                    final: Info)
    requires IsSameSource(src, t) && IsInStep(src, st, t, h, w) && IsClosed(st)
    requires f.Raw? && !f.extent.Fixed? && IsFieldOk(f)
    requires var one := D.DecodeValue(src, f, st, info, true); one.ok && IsSameAt(final, one.info, f.member.id)
    ensures var r := E.EncodeFixed(t, w, f, final);
      r.Some? && IsInStep(src, D.DecodeValue(src, f, st, info, true).st, t, h, r.value)
  {
    var n := D.RawLength(src, f, st, info);
    BytesKeep(src, st, t, h, w, n, D.Ahead(src, st, n));
  }

  /** A member holds the number bytes of binary-coded decimals stand for. */
  ghost predicate HoldsDigits(f: Field, data: seq<Byte>, info: Info)
    requires f.Bcd?
  {
    if f.unknown != 0 && LeLoad(data) == f.unknown then IsNumber(info, f.member, MemberMax(f.member))
    else AreDigits(data) && IsNumber(info, f.member, BcdValue(data))
  }

  lemma BcdKeeps(src: D.Source, st: D.Reading, t: E.Target, h: seq<Byte>, w: E.Writing, f: Field, info: Info,
                 final: Info)
    requires IsSameSource(src, t) && IsInStep(src, st, t, h, w) && IsClosed(st) && f.Bcd? && IsFieldOk(f)
    requires var one := D.DecodeValue(src, f, st, info, true);
      one.ok && !one.st.lost && IsSameAt(final, one.info, f.member.id)
    ensures var r := E.EncodeFixed(t, w, f, final);
      r.Some? && IsInStep(src, D.DecodeValue(src, f, st, info, true).st, t, h, r.value)
  {
    hide D.DecodeValue, IsInStep, IsFieldOk, E.EncodeFixed, E.Put;
    hide AreDigits, BcdValue, LeLoad, AreSameStrings, D.IsLater;
    BcdIsRead(src, st, f, info);
    var data := D.Ahead(src, st, f.length);
    BytesKeep(src, st, t, h, w, f.length, data);
    BcdIsWritten(t, w, f, final, data);
  }

  lemma BcdIsFetched(src: D.Source, st: D.Reading, f: Field)
    requires src.Valid() && f.Bcd?
    requires var got := D.FetchBcd(src, f.length, f.unknown, st); got.ok && !got.st.lost
    ensures f.length <= D.Remaining(src, st)
    ensures var got, data := D.FetchBcd(src, f.length, f.unknown, st), D.Ahead(src, st, f.length);
      && got.st == st.(pos := st.pos + f.length) && !st.lost
      && if f.unknown != 0 && LeLoad(data) == f.unknown then got.data == Data(f.unknown, NoText, [])
         else AreDigits(data) && got.data == Data(BcdValue(data), NoText, [])
  {
    hide BcdValue, AreDigits, LeLoad, D.IsLater, LeStore;
    StoreLoad(D.Ahead(src, st, f.length));
  }

  lemma BcdIsRead(src: D.Source, st: D.Reading, f: Field, info: Info)
    requires src.Valid() && f.Bcd? && IsFieldOk(f)
    requires var one := D.DecodeValue(src, f, st, info, true); one.ok && !one.st.lost
    ensures f.length <= D.Remaining(src, st)
    ensures var one := D.DecodeValue(src, f, st, info, true);
      one.st == st.(pos := st.pos + f.length) && HoldsDigits(f, D.Ahead(src, st, f.length), one.info)
  {
    hide Pow256, Pow100, BcdValue, AreDigits, LeLoad, Apply, MemberMax, D.IsLater, LeStore, D.FetchBcd, IsFieldOk;
    BcdIsFetched(src, st, f);
    var data := D.Ahead(src, st, f.length);
    if f.unknown != 0 && LeLoad(data) == f.unknown {
      UnknownIsStored(f);
    } else {
      DigitsAreStored(f, data);
    }
  }

  lemma BcdIsWritten(t: E.Target, w: E.Writing, f: Field, final: Info, data: seq<Byte>)
    requires f.Bcd? && IsFieldOk(f) && |data| == f.length && HoldsDigits(f, data, final)
    ensures E.EncodeFixed(t, w, f, final) == Some(E.Put(t, w, data))
  {
    hide E.Put;
    if f.unknown != 0 && LeLoad(data) == f.unknown {
      StoreLoad(data);
    } else {
      DigitsAreStored(f, data);
      SpellDigits(data);
      SmallModulo(BcdValue(data), Pow100(f.length));
      hide BcdValue, Pow100, BcdSpell, AreDigits, Pow256, MemberMax;
    }
  }

  lemma UnknownIsStored(f: Field)
    requires f.Bcd? && IsFieldOk(f) && f.unknown != 0
    ensures Apply(f, Data(f.unknown, NoText, [])) == Some(map[f.member.id := Number(MemberMax(f.member))])
  {
    MemberLimits(f.member);
  }

  /** The number the digits spell is stored whole, and is none standing for "unknown". */
  lemma DigitsAreStored(f: Field, data: seq<Byte>)
    requires f.Bcd? && IsFieldOk(f) && |data| == f.length && AreDigits(data)
    ensures Apply(f, Data(BcdValue(data), NoText, [])) == Some(map[f.member.id := Number(BcdValue(data))])
    ensures BcdValue(data) < MemberMax(f.member)
  {
    SpellDigits(data);
    var v, p := BcdValue(data), Pow256(f.member.size);
    DigitsAreFewer(f.length);
    PowIsMonotone(f.length, f.member.size);
    MemberLimits(f.member);
    assert v < p - 1;
    SmallModulo(v, p);
  }

  lemma SmallModulo(v: nat, p: nat)
    requires v < p
    ensures v % p == v && v / p == 0
  {
    DivisionIsUnique(v, p, 0, v);
  }

  lemma MemberLimits(m: Member)
    requires IsWordSize(m.size)
    ensures MemberMax(m) == Pow256(m.size) - 1
    ensures (WORD_LIMIT - 1) % Pow256(m.size) == MemberMax(m)
  {
    assert Pow256(1) == 0x100;
    assert Pow256(2) == 0x1_0000;
    assert Pow256(4) == 0x1_0000_0000 by {
      assert Pow256(3) == 0x100_0000;
    }
    assert Pow256(8) == WORD_LIMIT by {
      assert Pow256(5) == 0x100_0000_0000;
      assert Pow256(6) == 0x1_0000_0000_0000;
      assert Pow256(7) == 0x100_0000_0000_0000;
    }
  }

  // Fields whose data the source is asked for

  /** Fields of a fixed width the source may spell in more than one way. */
  predicate IsOpen(f: Field) {
    f.Integer? || f.String? || (f.Raw? && f.extent.Fixed?)
  }

  /** The encoder finds the data the decoder has read, and writes it back. */
  lemma OpenKeeps(src: D.Source, st: D.Reading, t: E.Target, h: seq<Byte>, w: E.Writing, f: Field, info: Info)
    requires IsSameSource(src, t) && IsInStep(src, st, t, h, w) && IsClosed(st)
    requires IsOpen(f) && IsFieldOk(f) && D.Fetch(src, f, st, info).ok
    ensures var got := D.Fetch(src, f, st, info);
      && Width(f) <= D.Remaining(src, st) == E.Remaining(t, w)
      && E.SourceData(t, w, f) == Some(got.data)
      && (var r := E.PutData(t, w, f, got.data); r.Some? && IsInStep(src, got.st, t, h, r.value))
      && got.st == st.(pos := st.pos + Width(f))
      && (f.Integer? ==> got.data.number < Pow256(f.length))
  {
    hide E.Put, D.IsLater, IsPaired, IsInStep, LeLoad, LeStore;
    var data := D.Ahead(src, st, Width(f));
    OpenIsRead(src, st, f, info);
    BytesKeep(src, st, t, h, w, Width(f), data);
    if f.Integer? {
      StoreLoad(data);
      LoadIsBounded(data);
    } else if f.String? {
      assert data == [data[0]];
      assert data[0] == 0 ==> TextOf(src.strings, data[0]).NoText?;
    } else if |data| == 0 {
      CopyInStep(src, st, t, h, w, 0);
    } else {
      assert data[..Width(f)] == data;
    }
  }

  lemma OpenIsRead(src: D.Source, st: D.Reading, f: Field, info: Info)
    requires src.Valid() && IsOpen(f) && D.Fetch(src, f, st, info).ok
    ensures Width(f) <= D.Remaining(src, st)
    ensures var got, data := D.Fetch(src, f, st, info), D.Ahead(src, st, Width(f));
      && got.st == st.(pos := st.pos + Width(f))
      && (f.Integer? ==> 1 <= f.length <= 8 && got.data == Data(LeLoad(data), NoText, []))
      && (f.String? ==> got.data == TextData(src.strings, data[0]))
      && (f.Raw? ==> got.data == Data(0, NoText, data))
  {
    hide D.IsLater, LeLoad;
  }

  /** Data just read decodes into the value its members end up with. */
  lemma DataIsHeld(f: Field, data: Data, info: Info, final: Info)
    requires IsFieldOk(f) && IsOpen(f) && Apply(f, data).Some?
    requires forall k | k in Apply(f, data).value :: IsSameAt(final, info + Apply(f, data).value, k)
    ensures DecodesInto(f, data, final) && E.ValueData(f, final, Some(data)) == Some((data, true))
  {
  }

  /** A field no extended one names. */
  lemma UnnamedKeeps(src: D.Source, st: D.Reading, t: E.Target, h: seq<Byte>, w: E.Writing,
                     fs: seq<Field>, i: nat, info: Info, read: seq<Choice>, written: seq<Choice>, final: Info)
    requires IsSameSource(src, t) && IsInStep(src, st, t, h, w) && IsClosed(st)
    requires i < |fs| && IsOpen(fs[i]) && !fs[i].Integer? && IsFieldOk(fs[i])
    requires AreNamedIntegers(fs) && AreOf(fs, read) && AreSameKeys(read, written)
    requires var one := D.DecodePlain(src, fs[i], st, info, read);
      one.ok && forall k | k in Writes(fs[i]) :: IsSameAt(final, one.info, k)
    ensures var one := D.DecodePlain(src, fs[i], st, info, read);
      var r := E.EncodeScalar(t, w, fs, i, final, written);
      one.choices == read && r.Some? && r.value.1 == written && IsInStep(src, one.st, t, h, r.value.0)
  {
    var f := fs[i];
    OnlyIntegersAreNamed(fs, i, read);
    SameKeysFindFrom(read, written, Key(f), 0);
    OpenKeeps(src, st, t, h, w, f, info);
    var data := D.Fetch(src, f, st, info).data;
    DataIsHeld(f, data, info, final);
    UnnamedIsPut(t, w, fs, i, final, written, data);
  }

  lemma UnnamedIsPut(t: E.Target, w: E.Writing, fs: seq<Field>, i: nat, final: Info,
                     written: seq<Choice>, data: Data)
    requires t.Valid() && i < |fs| && IsOpen(fs[i]) && !IsExtended(fs[i])
    requires Width(fs[i]) <= E.Remaining(t, w) && E.SourceData(t, w, fs[i]) == Some(data)
    requires E.ValueData(fs[i], final, Some(data)) == Some((data, true))
    requires Find(written, WhenKey(fs[i])).None? && E.ExtendedOf(fs, Key(fs[i]), 0).None?
    ensures E.EncodeScalar(t, w, fs, i, final, written) == E.Keep(E.PutData(t, w, fs[i], data), written)
  {
  }

  /** An extended field, which carries the value exactly when the plain one points at it. */
  lemma ExtendedKeeps(src: D.Source, st: D.Reading, t: E.Target, h: seq<Byte>, w: E.Writing,
                      fs: seq<Field>, i: nat, info: Info, read: seq<Choice>, written: seq<Choice>, final: Info)
    requires IsSameSource(src, t) && IsInStep(src, st, t, h, w) && IsClosed(st)
    requires i < |fs| && IsExtended(fs[i]) && IsFieldOk(fs[i])
    requires AreMatched(fs, i, read, written)
    requires var c := Find(read, WhenKey(fs[i])); c.Some? ==> read[c.value].whenRaw == fs[i].whenRaw
    requires var one := D.DecodeExtended(src, fs[i], st, info, read);
      && one.ok
      && (IsPointed(read, fs[i]) ==> forall k | k in Writes(fs[i]) :: IsSameAt(final, one.info, k))
    ensures var one := D.DecodeExtended(src, fs[i], st, info, read);
      var r := E.EncodeScalar(t, w, fs, i, final, written);
      one.choices == read && r.Some? && r.value.1 == written && IsInStep(src, one.st, t, h, r.value.0)
  {
    var f := fs[i];
    SameKeysFindFrom(read, written, WhenKey(f), 0);
    OpenKeeps(src, st, t, h, w, f, info);
    CopyInStep(src, st, t, h, w, Width(f));
    if IsPointed(read, f) {
      DataIsHeld(f, D.Fetch(src, f, st, info).data, info, final);
    }
  }

  // Plain integers

  lemma UnreadStep(fs: seq<Field>, i: nat, key: Id)
    requires i < |fs| && (IsExtended(fs[i]) || Key(fs[i]) != key)
    ensures IsUnread(fs, i, key) <==> IsUnread(fs, i + 1, key)
  {
    var next := i + 1;
    if IsUnread(fs, i, key) {
      var k :| i <= k < |fs| && !IsExtended(fs[k]) && Key(fs[k]) == key;
      assert next <= k;
    }
  }

  lemma MatchedKeys(fs: seq<Field>, i: nat, read: seq<Choice>, written: seq<Choice>)
    requires AreMatched(fs, i, read, written)
    ensures AreSameKeys(read, written)
  {
  }

  /** A field which is no plain field of a choice leaves the choices matched. */
  lemma MatchedAfterOther(fs: seq<Field>, i: nat, read: seq<Choice>, written: seq<Choice>)
    requires i < |fs| && AreMatched(fs, i, read, written)
    requires IsExtended(fs[i]) || forall c | 0 <= c < |read| :: read[c].key != Key(fs[i])
    ensures AreMatched(fs, i + 1, read, written)
  {
    forall c | 0 <= c < |read|
      ensures IsUnread(fs, i, read[c].key) <==> IsUnread(fs, i + 1, read[c].key)
    {
      UnreadStep(fs, i, read[c].key);
    }
  }

  /** A choice tells of every extended field keyed on its member. */
  lemma ChoiceOfExtended(fs: seq<Field>, j: nat, choices: seq<Choice>)
    requires j < |fs| && IsExtended(fs[j]) && AreExtendedOnce(fs) && AreOf(fs, choices)
    ensures var c := Find(choices, WhenKey(fs[j])); c.Some? ==> choices[c.value].whenRaw == fs[j].whenRaw
  {
    var c := Find(choices, WhenKey(fs[j]));
    if c.Some? {
      assert IsOf(fs, choices[c.value]);
    }
  }

  /** A plain field whose extended one is not pointed at keeps its members. */
  lemma PlainIsNotOverwritten(fs: seq<Field>, i: nat, e: nat, choices: seq<Choice>, version: Version)
    requires i < |fs| && e < |fs| && IsPair(fs[i], fs[e])
    requires AreApart(fs, version) && AreExtendedOnce(fs) && IsDefined(fs[i], version)
    requires !IsUnread(fs, i + 1, WhenKey(fs[e])) && !IsPointed(choices, fs[e])
    ensures forall k | k in Writes(fs[i]) :: !MayWrite(fs, i + 1, choices, k, version)
  {
    forall k | k in Writes(fs[i])
      ensures !MayWrite(fs, i + 1, choices, k, version)
    {
      IsNotOverwritten(fs, i, choices, version, k);
    }
  }

  lemma UnpairedIsNotOverwritten(fs: seq<Field>, i: nat, choices: seq<Choice>, version: Version)
    requires i < |fs| && AreApart(fs, version) && IsDefined(fs[i], version)
    requires forall j | 0 <= j < |fs| :: !IsPair(fs[i], fs[j])
    ensures forall k | k in Writes(fs[i]) :: !MayWrite(fs, i + 1, choices, k, version)
  {
    forall k | k in Writes(fs[i])
      ensures !MayWrite(fs, i + 1, choices, k, version)
    {
      IsNotOverwritten(fs, i, choices, version, k);
    }
  }

  /** A named member has been read once its plain field has. */
  lemma NamedIsRead(fs: seq<Field>, i: nat, e: nat)
    requires i < |fs| && e < |fs| && IsNamedBy(fs[i], fs[e]) && AreNamedOnce(fs)
    ensures !IsUnread(fs, i + 1, Key(fs[i]))
  {
    var next := i + 1;
    forall k | next <= k < |fs| && !IsExtended(fs[k])
      ensures Key(fs[k]) != Key(fs[i])
    {
      if Key(fs[k]) == Key(fs[i]) {
        assert IsNamedBy(fs[k], fs[e]);
      }
    }
  }

  /** The plain field governing a governed one has been read before it. */
  lemma GovernorIsRead(fs: seq<Field>, i: nat, e: nat)
    requires i < |fs| && e < |fs| && IsPair(fs[i], fs[e]) && WhenKey(fs[e]) != Key(fs[i])
    requires AreGovernedAfter(fs)
    ensures !IsUnread(fs, i, WhenKey(fs[e]))
  {
    var key := WhenKey(fs[e]);
    assert Governs(fs, fs[i], key);
    forall k | i <= k < |fs| && !IsExtended(fs[k])
      ensures Key(fs[k]) != key
    {
    }
  }

  /** Every other member a choice governs can be carried by its plain field. */
  ghost predicate AreGovernedExact(fs: seq<Field>, key: Id, final: Info) {
    forall j | 0 <= j < |fs| && !IsExtended(fs[j]) && Governs(fs, fs[j], key) ::
      IsExactIn(fs[j], final)
  }

  ghost predicate IsExactIn(f: Field, final: Info) {
    var r := E.ValueData(f, final, None);
    r.Some? && r.value.1
  }

  /** The members a field which has been read governs can be carried by their plain fields. */
  ghost predicate IsGovernedExact(fs: seq<Field>, i: nat, before: seq<Choice>, after: seq<Choice>, final: Info)
    requires i < |fs|
  {
    var c := Find(before, Key(fs[i]));
    !IsExtended(fs[i]) && c.Some? && c.value < |after| && after[c.value].raw != before[c.value].whenRaw ==>
      AreGovernedExact(fs, Key(fs[i]), final)
  }

  lemma {:induction false} ExactGovernedFit(fs: seq<Field>, at: nat, final: Info, key: Id, i: nat)
    requires AreGovernedExact(fs, key, final)
    ensures E.GovernedFit(fs, at, final, key, i) == Some(true)
    decreases |fs| - i
  {
    if i < |fs| {
      assert i != at && !IsExtended(fs[i]) && Governs(fs, fs[i], key) ==> IsExactIn(fs[i], final);
      ExactGovernedFit(fs, at, final, key, i + 1);
    }
  }

  /** Whether the members fit can always be told, since their handlers encode every value. */
  lemma {:induction false} GovernedFitIsKnown(fs: seq<Field>, at: nat, final: Info, key: Id, i: nat)
    requires AreNamedIntegers(fs) && forall j | 0 <= j < |fs| :: IsFieldOk(fs[j])
    ensures E.GovernedFit(fs, at, final, key, i).Some?
    decreases |fs| - i
  {
    if i < |fs| {
      if i != at && !IsExtended(fs[i]) && Governs(fs, fs[i], key) {
        var e :| 0 <= e < |fs| && IsExtended(fs[e]) && Key(fs[e]) == Key(fs[i]);
        assert IsNamedBy(fs[i], fs[e]);
      }
      GovernedFitIsKnown(fs, at, final, key, i + 1);
    }
  }

  /** The representation the source has is the one chosen. */
  lemma GoverningIsPut(t: E.Target, w: E.Writing, fs: seq<Field>, i: nat, final: Info,
                       written: seq<Choice>, c: nat, data: Data)
    requires t.Valid() && t.preserve && i < |fs| && fs[i].Integer? && !fs[i].extended && IsFieldOk(fs[i])
    requires IsSpellable(fs[i]) && AreNamedIntegers(fs) && forall j | 0 <= j < |fs| :: IsFieldOk(fs[j])
    requires Width(fs[i]) <= E.Remaining(t, w) && E.SourceData(t, w, fs[i]) == Some(data)
    requires Find(written, Key(fs[i])) == Some(c)
    requires data.number != written[c].whenRaw ==>
      && E.ValueData(fs[i], final, Some(data)) == Some((data, true))
      && AreGovernedExact(fs, written[c].key, final)
    requires E.PutData(t, w, fs[i], data).Some?
    ensures E.EncodeScalar(t, w, fs, i, final, written) == Some(
      (E.PutData(t, w, fs[i], data).value,
       written[c := written[c].(extended := data.number == written[c].whenRaw)]))
  {
    var f, choice := fs[i], written[c];
    GovernedFitIsKnown(fs, i, final, choice.key, 0);
    if data.number != choice.whenRaw {
      ExactGovernedFit(fs, i, final, choice.key, 0);
    } else {
      assert ModelData(f, final).Some?;
      var (put, exact) := E.ValueData(f, final, Some(data)).value;
      assert E.PutData(t, w, f, put.(number := data.number)) == E.PutData(t, w, f, data);
    }
  }

  /** A plain field holds what the source has, whether or not its value is elsewhere. */
  lemma PlainIsPut(t: E.Target, w: E.Writing, fs: seq<Field>, i: nat, final: Info,
                   written: seq<Choice>, data: Data, pointed: bool)
    requires t.Valid() && t.preserve && i < |fs| && fs[i].Integer? && !fs[i].extended && IsFieldOk(fs[i])
    requires Width(fs[i]) <= E.Remaining(t, w) && E.SourceData(t, w, fs[i]) == Some(data)
    requires Find(written, WhenKey(fs[i])).None?
    requires var e := E.ExtendedOf(fs, Key(fs[i]), 0);
      pointed <==> e.Some? && var c := Find(written, WhenKey(fs[e.value])); c.Some? && written[c.value].extended
    requires if pointed then IsSpellable(fs[i]) else E.ValueData(fs[i], final, Some(data)) == Some((data, true))
    ensures E.EncodeScalar(t, w, fs, i, final, written) ==
      if pointed then Some((E.Copy(t, w, Width(fs[i])), written))
      else E.Keep(E.PutData(t, w, fs[i], data), written)
  {
    if pointed {
      assert ModelData(fs[i], final).Some?;
    }
  }

  ghost predicate AreFieldsOk(fs: seq<Field>, version: Version) {
    (forall j | 0 <= j < |fs| :: IsFieldOk(fs[j])) && AreApart(fs, version) && AreChoicesOk(fs)
  }

  lemma ListIsOk(fs: seq<Field>, version: Version)
    requires AreFieldsOk(fs, version)
    ensures AreApart(fs, version) && AreChoicesOk(fs)
    ensures AreNamedIntegers(fs) && AreNamedOnce(fs) && AreKeyed(fs) && AreExtendedOnce(fs) && AreGovernedAfter(fs)
    ensures forall j | 0 <= j < |fs| :: IsFieldOk(fs[j])
  {
  }

  /** What reading a plain integer gives. */
  lemma PlainIsRead(src: D.Source, f: Field, st: D.Reading, info: Info, read: seq<Choice>)
    requires src.Valid() && f.Integer? && !f.extended && IsFieldOk(f)
    requires D.DecodePlain(src, f, st, info, read).ok
    ensures var one, got := D.DecodePlain(src, f, st, info, read), D.Fetch(src, f, st, info);
      && WhenKey(f) == Key(f)
      && got.ok && one.st == got.st && Apply(f, got.data).Some? && one.info == info + Apply(f, got.data).value
      && Apply(f, got.data).value.Keys <= Writes(f)
      && var c := Find(read, Key(f));
        one.choices == (if c.Some? then read[c.value := read[c.value].(raw := got.data.number)] else read)
  {
    hide D.IsLater, D.Fetch, Apply;
  }

  /** Where a plain integer holds what it has read: nothing after it replaces its value. */
  lemma IntegerIsHeld(src: D.Source, st: D.Reading, fs: seq<Field>, i: nat, info: Info, read: seq<Choice>, final: Info)
    requires src.Valid() && i < |fs| && AreFieldsOk(fs, src.version) && fs[i].Integer? && !fs[i].extended
    requires D.DecodePlain(src, fs[i], st, info, read).ok
    requires var one := D.DecodePlain(src, fs[i], st, info, read);
      && IsSettled(fs, i, one.info, one.choices, src.version, final)
      && var e := E.ExtendedOf(fs, Key(fs[i]), 0);
        e.Some? ==> !IsUnread(fs, i + 1, WhenKey(fs[e.value])) && !IsPointed(one.choices, fs[e.value])
    ensures var data := D.Fetch(src, fs[i], st, info).data;
      E.ValueData(fs[i], final, Some(data)) == Some((data, true)) && DecodesInto(fs[i], data, final)
  {
    hide D.DecodePlain, D.Fetch, Apply, IsFieldOk, D.IsLater, AreApart, MayWrite, IsPointed, IsUnread;
    var f := fs[i];
    var one := D.DecodePlain(src, f, st, info, read);
    var e := E.ExtendedOf(fs, Key(f), 0);
    PlainIsRead(src, f, st, info, read);
    if e.Some? {
      PlainIsNotOverwritten(fs, i, e.value, one.choices, src.version);
    } else {
      UnpairedIsNotOverwritten(fs, i, one.choices, src.version);
    }
    DataIsHeld(f, D.Fetch(src, f, st, info).data, info, final);
  }

  /** A plain integer other members are keyed on. */
  lemma GoverningKeeps(src: D.Source, st: D.Reading, t: E.Target, h: seq<Byte>, w: E.Writing,
                       fs: seq<Field>, i: nat, info: Info, read: seq<Choice>, written: seq<Choice>, final: Info)
    requires IsSameSource(src, t) && IsInStep(src, st, t, h, w) && IsClosed(st)
    requires i < |fs| && fs[i].Integer? && !fs[i].extended && AreFieldsOk(fs, src.version)
    requires AreOf(fs, read) && AreMatched(fs, i, read, written) && Find(read, Key(fs[i])).Some?
    requires var one := D.DecodePlain(src, fs[i], st, info, read);
      && one.ok && IsSettled(fs, i, one.info, one.choices, src.version, final)
      && var c := Find(read, Key(fs[i])).value;
        one.choices[c].raw != read[c].whenRaw ==> AreGovernedExact(fs, Key(fs[i]), final)
    ensures var one := D.DecodePlain(src, fs[i], st, info, read);
      var r := E.EncodeScalar(t, w, fs, i, final, written);
      && r.Some? && IsInStep(src, one.st, t, h, r.value.0) && AreMatched(fs, i + 1, one.choices, r.value.1)
  {
    hide D.DecodePlain, D.Fetch, Apply, IsFieldOk, D.IsLater, AreApart, IsInStep, IsSettled, E.EncodeScalar, E.PutData;
    hide E.SourceData, E.ValueData, AreNamedIntegers, AreGovernedExact, IsSpellable, IsUnread;
    var f := fs[i];
    var c := Find(read, Key(f)).value;
    var one := D.DecodePlain(src, f, st, info, read);
    var data := D.Fetch(src, f, st, info).data;
    PlainIsRead(src, f, st, info, read);
    var k := GovernorOf(fs, i, read, c);
    SameKeysFindFrom(read, written, Key(f), 0);
    OpenKeeps(src, st, t, h, w, f, info);
    if data.number != read[c].whenRaw {
      GoverningIsHeld(src, st, fs, i, info, read, final, k);
    }
    GoverningIsPut(t, w, fs, i, final, written, c, data);
    MatchedAfterGoverning(fs, i, read, written, c, data.number);
  }

  lemma GovernorOf(fs: seq<Field>, i: nat, choices: seq<Choice>, c: nat) returns (k: nat)
    requires i < |fs| && !IsExtended(fs[i]) && c < |choices| && choices[c].key == Key(fs[i])
    requires AreOf(fs, choices) && AreNamedIntegers(fs) && AreNamedOnce(fs)
    ensures k < |fs| && IsExtended(fs[k]) && WhenKey(fs[k]) == Key(fs[i])
    ensures IsSpellable(fs[i]) && !IsUnread(fs, i + 1, Key(fs[i]))
  {
    assert IsOf(fs, choices[c]);
    k :| 0 <= k < |fs| && IsExtended(fs[k]) && WhenKey(fs[k]) == Key(fs[i]);
    assert IsNamedBy(fs[i], fs[k]);
    NamedIsRead(fs, i, k);
  }

  lemma MatchedAfterGoverning(fs: seq<Field>, i: nat, read: seq<Choice>, written: seq<Choice>, c: nat, raw: nat)
    requires i < |fs| && !IsExtended(fs[i]) && AreOf(fs, read) && AreMatched(fs, i, read, written)
    requires c < |read| && read[c].key == Key(fs[i]) && !IsUnread(fs, i + 1, Key(fs[i]))
    ensures AreMatched(fs, i + 1, read[c := read[c].(raw := raw)],
                       written[c := written[c].(extended := raw == written[c].whenRaw)])
  {
    forall key | key != Key(fs[i])
      ensures IsUnread(fs, i, key) <==> IsUnread(fs, i + 1, key)
    {
      UnreadStep(fs, i, key);
    }
  }

  lemma GoverningIsHeld(src: D.Source, st: D.Reading, fs: seq<Field>, i: nat, info: Info,
                        read: seq<Choice>, final: Info, k: nat)
    requires src.Valid() && i < |fs| && AreFieldsOk(fs, src.version) && fs[i].Integer? && !fs[i].extended
    requires k < |fs| && IsExtended(fs[k]) && WhenKey(fs[k]) == Key(fs[i]) && AreOf(fs, read)
    requires Find(read, Key(fs[i])).Some? && !IsUnread(fs, i + 1, Key(fs[i]))
    requires var one := D.DecodePlain(src, fs[i], st, info, read);
      && one.ok && IsSettled(fs, i, one.info, one.choices, src.version, final)
      && var c := Find(read, Key(fs[i])).value; one.choices[c].raw != read[c].whenRaw
    ensures var data := D.Fetch(src, fs[i], st, info).data;
      E.ValueData(fs[i], final, Some(data)) == Some((data, true))
  {
    hide D.DecodeValue, AreOf;
    var one := D.DecodePlain(src, fs[i], st, info, read);
    SameKeysFindFrom(read, one.choices, Key(fs[i]), 0);
    var e := E.ExtendedOf(fs, Key(fs[i]), 0);
    if e.Some? {
      assert WhenKey(fs[e.value]) == Key(fs[i]);
      ChoiceOfExtended(fs, e.value, read);
    }
    IntegerIsHeld(src, st, fs, i, info, read, final);
  }

  /** A plain integer nothing is keyed on, whose value another member may widen. */
  lemma PlainKeeps(src: D.Source, st: D.Reading, t: E.Target, h: seq<Byte>, w: E.Writing,
                   fs: seq<Field>, i: nat, info: Info, read: seq<Choice>, written: seq<Choice>, final: Info)
    requires IsSameSource(src, t) && IsInStep(src, st, t, h, w) && IsClosed(st)
    requires i < |fs| && fs[i].Integer? && !fs[i].extended && AreFieldsOk(fs, src.version)
    requires AreOf(fs, read) && AreMatched(fs, i, read, written) && Find(read, Key(fs[i])).None?
    requires var one := D.DecodePlain(src, fs[i], st, info, read);
      one.ok && IsSettled(fs, i, one.info, one.choices, src.version, final)
    ensures var one := D.DecodePlain(src, fs[i], st, info, read);
      var r := E.EncodeScalar(t, w, fs, i, final, written);
      && r.Some? && IsInStep(src, one.st, t, h, r.value.0) && AreMatched(fs, i + 1, one.choices, r.value.1)
  {
    hide D.DecodePlain, D.Fetch, Apply, IsFieldOk, D.IsLater, AreApart, IsInStep, IsSettled, E.EncodeScalar, E.PutData;
    hide E.SourceData, E.ValueData, AreNamedIntegers, IsSpellable, E.Copy, IsPointed, AreSameStrings, DecodesInto;
    hide AreMatched, AreOf, IsUnread, AreNamedOnce, AreKeyed, AreExtendedOnce, AreGovernedAfter, AreGovernorsFree;
    var f := fs[i];
    var data := D.Fetch(src, f, st, info).data;
    var e := E.ExtendedOf(fs, Key(f), 0);
    PlainIsRead(src, f, st, info, read);
    OpenKeeps(src, st, t, h, w, f, info);
    CopyInStep(src, st, t, h, w, Width(f));
    MatchedKeys(fs, i, read, written);
    SameKeysFindFrom(read, written, Key(f), 0);
    var pointed := e.Some? && IsPointed(read, fs[e.value]);
    if e.Some? {
      WideningIsKnown(fs, i, e.value, read, written);
    }
    if !pointed {
      IntegerIsHeld(src, st, fs, i, info, read, final);
    }
    PlainIsPut(t, w, fs, i, final, written, data, pointed);
    MatchedAfterOther(fs, i, read, written);
  }

  /** Whether an extended field carries the value is known by the time its plain one is reached. */
  lemma WideningIsKnown(fs: seq<Field>, i: nat, e: nat, read: seq<Choice>, written: seq<Choice>)
    requires i < |fs| && e < |fs| && IsPair(fs[i], fs[e]) && AreChoicesOk(fs)
    requires AreOf(fs, read) && AreMatched(fs, i, read, written) && Find(read, Key(fs[i])).None?
    ensures !IsUnread(fs, i + 1, WhenKey(fs[e])) && IsSpellable(fs[i])
    ensures var c := Find(written, WhenKey(fs[e]));
      IsPointed(read, fs[e]) <==> c.Some? && written[c.value].extended
  {
    assert IsNamedBy(fs[i], fs[e]);
    SameKeysFindFrom(read, written, WhenKey(fs[e]), 0);
    ChoiceOfExtended(fs, e, read);
    if WhenKey(fs[e]) == Key(fs[i]) {
      NamedIsRead(fs, i, e);
    } else {
      GovernorIsRead(fs, i, e);
      UnreadStep(fs, i, WhenKey(fs[e]));
    }
  }
}

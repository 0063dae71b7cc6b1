/**
 A private binary which the encoding of its structure puts back into the
 anonymized table (libopendmi/src/anonymize.c).
 */
module PutBack {
  import opened Wrappers
  import opened Bytes
  import opened StringSets
  import opened Tables
  import opened Anonymization
  import opened Placed
  import opened Plans
  import F = Schema
  import S = Structure
  import E = Encoding

  /** A structure of a binary of four bytes and a number of two, with no strings. */
  const SOURCE: seq<Byte> := [1, 10, 0, 0, 65, 66, 67, 68, 5, 6, 0, 0]

  const FIELDS: seq<F.Field> :=
    [F.Raw(F.Member(8, 16), F.Fixed(4), {8}, F.PLAIN),
     F.Integer(F.Member(24, 2), 2, {24}, F.PLAIN, 0, false, None, 0)]

  const BODY: Structure := Structure(1, 0, 0, 10, 2, 0)

  function PlanOf(draws: seq<Byte> -> nat -> nat): Plan {
    Plan(SOURCE, [BODY], [[]], draws)
  }

  /** The members of the structure, with another number. */
  function InfoOf(number: nat): F.Info {
    map[8 := F.Binary(SOURCE[4..8]), 24 := F.Number(number)]
  }

  /** Both of the members are private: the binary is replaced in the table, and the number by encoding. */
  function StepsOf(number: nat): seq<Step> {
    [Binary(0, Some(4), 4, false), Members(0, FIELDS, InfoOf(number), 0, [SOURCE[8..10]])]
  }

  /**
   Whatever is drawn, and whatever the number is replaced by, the binary is in
   the anonymized table as it has been, though it has been taken: it is too
   short to be looked for in bodies after the encoding has put it back.
   */
  lemma ShortIsPutBack(draws: seq<Byte> -> nat -> nat, number: nat)
    requires number < 0x1_0000
    ensures var plan, steps := PlanOf(draws), StepsOf(number);
      && plan.Valid() && AreInside(plan, steps) && IsTaken(plan, steps[0])
      && Finished(plan, steps).Some?
      && var table := Finished(plan, steps).value.table;
         table[4..8] == SOURCE[4..8] && table[8..10] == LeStore(number, 2)
  {
    hide Encoded, CreateAt, Replaced, LeStore, Longest, BytesOf;
    var plan, steps := PlanOf(draws), StepsOf(number);
    PlanIsValid(draws);
    StepsAreInside(draws, number);
    NumberIsEncoded(draws, number);
    OneIsTaken(draws, number);
    TableIsFinished(draws, number);
  }

  lemma PlanIsValid(draws: seq<Byte> -> nat -> nat)
    ensures PlanOf(draws).Valid()
  {
    SourceIsCreated();
    var plan := PlanOf(draws);
    hide CreateAt;
    assert Tiles(plan.structures[1..], 12, 12);
    assert AreStrings(SOURCE, BODY, []);
  }

  lemma SourceIsCreated()
    ensures CreateAt(SOURCE, 0) == Created(BODY)
  {
    hide ScanSet;
    SetIsScanned();
    assert SOURCE[..4] == [1, 10, 0, 0];
    assert SOURCE[0] == SOURCE[..4][0] && SOURCE[1] == SOURCE[..4][1];
    assert SOURCE[2] == SOURCE[..4][2] && SOURCE[3] == SOURCE[..4][3];
  }

  lemma SetIsScanned()
    ensures ScanSet(SOURCE, 10) == Some(Extent(2, 0))
  {
    hide FindEnd, Zeroes;
    FirstEnd(SOURCE, 10, 10);
  }

  lemma StepsAreInside(draws: seq<Byte> -> nat -> nat, number: nat)
    requires PlanOf(draws).Valid()
    ensures AreInside(PlanOf(draws), StepsOf(number)) && IsTaken(PlanOf(draws), StepsOf(number)[0])
    ensures DataOf(PlanOf(draws), StepsOf(number)[0]) == SOURCE[4..8]
  {
    hide Plan.Valid;
    assert SOURCE[4..8][1] != SOURCE[4..8][0];
  }

  // Encoding

  lemma NumberIsEncoded(draws: seq<Byte> -> nat -> nat, number: nat)
    requires number < 0x1_0000 && PlanOf(draws).Valid() && AreInside(PlanOf(draws), StepsOf(number))
    ensures Encoded(PlanOf(draws), StepsOf(number)[1]) == Some(SOURCE[..8] + LeStore(number, 2))
  {
    hide Plan.Valid, CreateAt, S.Encode, LeStore;
    SourceIsCreated();
    var e := EntityOf(SOURCE, BODY, []);
    EntityIsEncoded(e, number);
  }

  lemma EntityIsEncoded(e: S.Entity, number: nat)
    requires number < 0x1_0000 && S.IsCreated(e) && e.body == SOURCE[0..10]
    ensures S.Encode(e, FIELDS, InfoOf(number), true, 0) == Some(SOURCE[..8] + LeStore(number, 2))
  {
    hide E.EncodeOne, LeStore, S.FinishedHeader, S.Header, S.IsCreated;
    var t, info := S.TargetOf(e, true, 0), InfoOf(number);
    var w := S.Begin(e, t);
    S.HeaderIsKept(e, t);
    BinaryIsPut(t, w, info);
    var w1 := E.EncodeOne(t, w, FIELDS, 0, info, []).value.0;
    NumberIsPut(t, w1, number);
    var w2 := E.EncodeOne(t, w1, FIELDS, 1, info, []).value.0;
    NothingIsKeyed();
    assert E.EncodeFrom(t, w2, FIELDS, 2, info, []) == Some(w2);
    assert E.EncodeFrom(t, w1, FIELDS, 1, info, []) == Some(w2);
    assert E.EncodeFrom(t, w, FIELDS, 0, info, []) == Some(w2);
    assert E.Copy(t, w2, 0).out == w2.out;
    assert w2.out[S.HEADER_SIZE..] == SOURCE[4..8] + LeStore(number, 2);
    assert SOURCE[0..10][..4] + (SOURCE[4..8] + LeStore(number, 2)) == SOURCE[..8] + LeStore(number, 2);
  }

  lemma NothingIsKeyed()
    ensures F.Collect(FIELDS) == []
    ensures forall key :: E.ExtendedOf(FIELDS, key, 0).None?
  {
    assert F.CollectFrom(FIELDS, 2, []) == [];
    assert F.CollectFrom(FIELDS, 1, []) == [];
    forall key
      ensures E.ExtendedOf(FIELDS, key, 0).None?
    {
      assert E.ExtendedOf(FIELDS, key, 2).None? && E.ExtendedOf(FIELDS, key, 1).None?;
    }
  }

  lemma BinaryIsPut(t: E.Target, w: E.Writing, info: F.Info)
    requires t.Valid() && t.preserve && t.body == SOURCE[0..10] && t.end == 10 && w.pos == 4 && !w.stopped
    requires info == InfoOf(F.Load(info, F.Member(24, 2)))
    ensures E.EncodeOne(t, w, FIELDS, 0, info, []) == Some((E.Put(t, w, SOURCE[4..8]), []))
  {
    NothingIsKeyed();
    hide E.ExtendedOf, F.Collect;
    var f, data := FIELDS[0], SOURCE[4..8];
    assert E.Ahead(t, w, 4) == data;
    assert E.SourceData(t, w, f) == Some(F.Data(0, F.NoText, data));
    assert F.Apply(f, F.Data(0, F.NoText, data)) == Some(map[8 := F.Binary(data)]);
    assert F.DecodesInto(f, F.Data(0, F.NoText, data), info);
    assert data[..4] == data;
  }

  lemma NumberIsPut(t: E.Target, w: E.Writing, number: nat)
    requires t.Valid() && t.preserve && t.end == 10 && w.pos == 8 && number < 0x1_0000
    ensures E.EncodeOne(t, w, FIELDS, 1, InfoOf(number), []) == Some((E.Put(t, w, LeStore(number, 2)), []))
  {
    NothingIsKeyed();
    hide E.ExtendedOf, F.Collect, LeStore, LeLoad;
    var f, info := FIELDS[1], InfoOf(number);
    var original := E.SourceData(t, w, f);
    assert Pow256(1) == 256 && Pow256(2) == 0x1_0000;
    if original.Some? && F.DecodesInto(f, original.value, info) {
      assert original.value.number == number by {
        SpelledNumber(t, w, number);
      }
    }
    assert E.ValueData(f, info, original).value.0.number == number;
  }

  lemma SpelledNumber(t: E.Target, w: E.Writing, number: nat)
    requires t.Valid() && E.SourceData(t, w, FIELDS[1]).Some?
    requires F.DecodesInto(FIELDS[1], E.SourceData(t, w, FIELDS[1]).value, InfoOf(number))
    ensures E.SourceData(t, w, FIELDS[1]).value.number == number
  {
    hide LeLoad;
    var data := E.SourceData(t, w, FIELDS[1]).value;
    LoadIsBounded(E.Ahead(t, w, 2));
    assert Pow256(1) == 256 && Pow256(2) == 256 * Pow256(1);
    assert F.Apply(FIELDS[1], data) == Some(map[24 := F.Number(data.number)]);
    var writes := F.Apply(FIELDS[1], data).value;
    assert 24 in writes && F.Holds(InfoOf(number), 24, writes[24]);
  }

  // Searching

  lemma OneIsTaken(draws: seq<Byte> -> nat -> nat, number: nat)
    requires number < 0x1_0000 && PlanOf(draws).Valid() && AreInside(PlanOf(draws), StepsOf(number))
    requires Encoded(PlanOf(draws), StepsOf(number)[1]) == Some(SOURCE[..8] + LeStore(number, 2))
    requires IsTaken(PlanOf(draws), StepsOf(number)[0])
    requires DataOf(PlanOf(draws), StepsOf(number)[0]) == SOURCE[4..8]
    ensures var taken := AllTaken(PlanOf(draws), StepsOf(number));
      && taken.Some? && |taken.value.values| == 1 && |taken.value.values[0].data| == 4
      && taken.value.table == SOURCE[..8] + LeStore(number, 2) + [0, 0]
  {
    hide Plan.Valid, Encoded, LeStore, BytesOf, IsTaken, DataOf, FindChanged;
    var plan, steps := PlanOf(draws), StepsOf(number);
    assert steps[..1][..0] == [] && steps[..1][0] == steps[0] && steps[..0] == [];
    var v := ValueOf(plan, steps[0]);
    var table := Overwrite(SOURCE, 4, v.replacement);
    assert AllTaken(plan, []) == Some(Run(SOURCE, []));
    assert Added([], v) == [v];
    assert AllTaken(plan, steps[..1]) == Some(Run(table, [v]));
    var now := Overwrite(table, 0, SOURCE[..8] + LeStore(number, 2));
    assert [SOURCE[8..10]][..0] == [];
    assert Collected(SOURCE, BODY, now, [SOURCE[8..10]], [v]) == [v];
    assert now == SOURCE[..8] + LeStore(number, 2) + [0, 0];
  }

  lemma TableIsFinished(draws: seq<Byte> -> nat -> nat, number: nat)
    requires PlanOf(draws).Valid() && AreInside(PlanOf(draws), StepsOf(number))
    requires var taken := AllTaken(PlanOf(draws), StepsOf(number));
      taken.Some? && |taken.value.values| == 1 && |taken.value.values[0].data| == 4
    ensures Finished(PlanOf(draws), StepsOf(number)) == AllTaken(PlanOf(draws), StepsOf(number))
  {
    hide Plan.Valid, AllTaken;
    var plan, run := PlanOf(draws), AllTaken(PlanOf(draws), StepsOf(number)).value;
    plan.EntriesAreWithin();
    OneIsLongest(run.values[0]);
    assert run.values == [run.values[0]] && plan.Entries()[0] == [];
    assert StringsSearched(SOURCE, run.values, [], 0, run.table) == run.table;
    assert BodySearched(SOURCE, run.values, BODY, run.table) == run.table;
    assert AllSearched(SOURCE, run.values, [BODY], plan.Entries(), 0, run.table) == run.table;
  }
}

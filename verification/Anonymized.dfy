/**
 A whole table is anonymized: it is cut into structures and strings, members of
 the structures are replaced in it, and their values are then looked for
 everywhere else (libopendmi/src/anonymize.c).
 */
module Anonymized {
  import opened Wrappers
  import opened Bytes
  import opened StringSets
  import opened Tables
  import opened Anonymization
  import opened Placed
  import opened Plans
  import opened Replacements
  import S = Structure

  /** Strings of every structure a scan has found. */
  method DecodeAll(source: seq<Byte>, structures: seq<Structure>) returns (strings: seq<seq<seq<Byte>>>)
    requires forall k | 0 <= k < |structures| :: CreateAt(source, structures[k].offset) == Created(structures[k])
    ensures |strings| == |structures|
    ensures forall k | 0 <= k < |structures| ::
      AreStrings(source, structures[k], strings[k]) && |strings[k]| == structures[k].strings
  {
    hide CreateAt, AreStrings;
    strings := [];
    for k := 0 to |structures|
      invariant |strings| == k
      invariant forall l | 0 <= l < k ::
        AreStrings(source, structures[l], strings[l]) && |strings[l]| == structures[l].strings
    {
      var one := DecodeOne(source, structures[k]);
      strings := strings + [one];
    }
  }

  method DecodeOne(source: seq<Byte>, s: Structure) returns (strings: seq<seq<Byte>>)
    requires CreateAt(source, s.offset) == Created(s)
    ensures AreStrings(source, s, strings) && |strings| == s.strings
  {
    hide FindEnd, Zeroes, PrintSet;
    strings := DecodeStrings(source, s.StringsAt());
  }

  // Steps

  /** A table being anonymized by a plan. */
  ghost predicate Holds(a: Anonymizer, plan: Plan)
    reads a`values
  {
    && a.Valid() && plan.Valid() && a.source == plan.source && a.structures == plan.structures
    && a.draws == plan.draws && a.strings == plan.Entries()
  }

  method TakeText(a: Anonymizer, plan: Plan, step: Step)
    requires Holds(a, plan) && (step.Text? || step.Owned?) && IsInside(plan.source, plan.structures, step)
    modifies a`values, a.table
    ensures Holds(a, plan)
    ensures a.table[..] == TableAfter(plan, old(a.table[..]), step)
    ensures a.values == ValuesAfter(plan, a.table[..], old(a.values), step)
    ensures old(a.Keeps()) ==> a.Keeps()
    ensures old(a.KeepsHeaders()) ==> a.KeepsHeaders()
  {
    hide Plan.Valid, Anonymizer.Keeps, Anonymizer.KeepsHeaders, Anonymizer.AreHeld, Tiles;
    hide Added, RawReplaced, IsIdentity, ReplacedText;
    var text := DataOf(plan, step);
    var pretty := if IsOfString(plan, step) then step.number else |plan.strings[step.k]|;
    a.MemberString(step.k, pretty, text, step.isPlaceholder);
    if IsTaken(plan, step) {
      TextIsWrittenOver(plan, step, old(a.table[..]));
    }
  }

  lemma TextIsWrittenOver(plan: Plan, step: Step, table: seq<Byte>)
    requires IsStep(plan, step) && (step.Text? || step.Owned?) && IsTaken(plan, step) && |table| == |plan.source|
    ensures var pretty := if IsOfString(plan, step) then step.number else |plan.strings[step.k]|;
      var entries := plan.Entries()[step.k];
      && (forall l | 0 <= l < |entries| :: entries[l].start + entries[l].length <= |plan.source|)
      && RawReplaced(plan.source, table, entries, pretty, DataOf(plan, step), ReplacementOf(plan, step))
         == TableAfter(plan, table, step)
  {
    hide AreStrings, CreateAt, Tiles, RawReplaced, ReplacedText;
    var s, strings := plan.structures[step.k], plan.strings[step.k];
    if IsOfString(plan, step) {
      TextIsReplaced(plan.source, table, s, strings, step.number, ReplacementOf(plan, step));
    } else {
      NoTextIsReplaced(plan.source, table, s, strings, DataOf(plan, step), ReplacementOf(plan, step));
    }
  }

  method TakeBinary(a: Anonymizer, plan: Plan, step: Step)
    requires Holds(a, plan) && step.Binary? && IsInside(plan.source, plan.structures, step)
    modifies a`values, a.table
    ensures Holds(a, plan)
    ensures a.table[..] == TableAfter(plan, old(a.table[..]), step)
    ensures a.values == ValuesAfter(plan, a.table[..], old(a.values), step)
    ensures old(a.Keeps()) ==> a.Keeps()
    ensures old(a.KeepsHeaders()) ==> a.KeepsHeaders()
  {
    hide Plan.Valid, SameLayout, AreHeadersKept, Anonymizer.AreHeld, Tiles, Added, BytesOf;
    a.MemberBinary(step.k, step.at, step.length, step.isMac);
  }

  method TakeMembers(a: Anonymizer, plan: Plan, step: Step) returns (ok: bool)
    requires Holds(a, plan) && step.Members? && IsInside(plan.source, plan.structures, step)
    modifies a`values, a.table
    ensures Holds(a, plan) && ok == !Fails(plan, step)
    ensures ok ==> a.table[..] == TableAfter(plan, old(a.table[..]), step)
    ensures ok ==> a.values == ValuesAfter(plan, a.table[..], old(a.values), step)
    ensures old(a.Keeps()) ==> a.Keeps()
    ensures old(a.KeepsHeaders()) ==> a.KeepsHeaders()
  {
    hide AreStrings, CreateAt, Tiles, Anonymizer.AreHeld, SameLayout, AreHeadersKept, S.IsCreated, S.Encode, Collected;
    var s := plan.structures[step.k];
    var e := EntityOf(plan.source, s, plan.strings[step.k]);
    ok := a.Write(step.k, e, step.fs, step.info, step.version);
    if ok {
      a.Collect(step.k, step.saved);
    }
  }

  /** One step fails only where a structure is not encoded back into its own length. */
  method Take(a: Anonymizer, plan: Plan, step: Step) returns (ok: bool)
    requires Holds(a, plan) && IsInside(plan.source, plan.structures, step)
    modifies a`values, a.table
    ensures Holds(a, plan)
    ensures var r := Taken(plan, Run(old(a.table[..]), old(a.values)), step);
      ok == r.Some? && (ok ==> r.value == Run(a.table[..], a.values))
    ensures old(a.Keeps()) ==> a.Keeps()
    ensures old(a.KeepsHeaders()) ==> a.KeepsHeaders()
  {
    hide Plan.Valid, IsInside, Anonymizer.Keeps, Anonymizer.KeepsHeaders, TableAfter, ValuesAfter, Tiles;
    ok := true;
    if step.Text? || step.Owned? {
      TakeText(a, plan, step);
    } else if step.Binary? {
      TakeBinary(a, plan, step);
    } else {
      ok := TakeMembers(a, plan, step);
    }
  }

  method TakeAll(a: Anonymizer, plan: Plan, steps: seq<Step>) returns (ok: bool)
    requires Holds(a, plan) && a.Keeps() && a.KeepsHeaders() && AreInside(plan, steps)
    requires a.table[..] == plan.source && a.values == []
    modifies a`values, a.table
    ensures Holds(a, plan) && a.Keeps() && a.KeepsHeaders()
    ensures var r := AllTaken(plan, steps); ok == r.Some? && (ok ==> r.value == Run(a.table[..], a.values))
  {
    hide Plan.Valid, IsInside, Anonymizer.Keeps, Anonymizer.KeepsHeaders, Taken, Tiles;
    assert steps[..0] == [];
    for n := 0 to |steps|
      invariant Holds(a, plan) && a.Keeps() && a.KeepsHeaders()
      invariant AllTaken(plan, steps[..n]) == Some(Run(a.table[..], a.values))
    {
      assert steps[..n + 1][..n] == steps[..n];
      ok := Take(a, plan, steps[n]);
      if !ok {
        NothingAfterFailure(plan, steps, n + 1);
        return;
      }
    }
    assert steps[..|steps|] == steps;
    return true;
  }

  lemma {:induction false} NothingAfterFailure(plan: Plan, steps: seq<Step>, n: nat)
    requires plan.Valid() && AreInside(plan, steps) && n <= |steps| && AllTaken(plan, steps[..n]).None?
    ensures AllTaken(plan, steps).None?
    decreases |steps|
  {
    hide Plan.Valid, IsInside, Taken;
    if n < |steps| {
      assert steps[..|steps| - 1][..n] == steps[..n];
      NothingAfterFailure(plan, steps[..|steps| - 1], n);
    } else {
      assert steps[..n] == steps;
    }
  }

  // Tables

  /**
   The table is cut as a scan cuts it, and becomes what the plan finishes as. The
   values found are those of the private members, with replacements drawn for
   them or taken from their encodings; texts and binaries are written over where
   they are, but for binaries encoded after that; and whatever is looked for is
   written over wherever it is found. The result is cut into the same structures
   exactly when the string sets scan to the extents they had, which replacements
   keeping the zeros of their values see to, as those of texts do.
   */
  method Anonymize(source: seq<Byte>, limit: nat, strict: bool, draws: seq<Byte> -> nat -> nat, steps: seq<Step>)
    returns (r: Option<seq<Byte>>, strings: seq<seq<seq<Byte>>>, values: seq<Value>)
    requires |source| < SIZE_MAX
    requires forall i | 0 <= i < |steps| :: IsInside(source, ScanFrom(source, 0, 0, limit, strict).structures, steps[i])
    ensures var scan := ScanFrom(source, 0, 0, limit, strict);
      var plan := Plan(source, scan.structures, strings, draws);
      && plan.Valid() && AreInside(plan, steps) && r.Some? == Finished(plan, steps).Some?
      && (r.Some? ==>
            var run := Run(r.value, values);
            && Finished(plan, steps) == Some(run)
            && AreKnown(plan, steps, values) && AreMade(plan, steps, values)
            && AreWritten(plan, steps, run) && IsClean(plan, run)
            && (ScanFrom(r.value, 0, 0, limit, strict) == scan <==> AreSetsKept(source, r.value, scan.structures))
            && (AreSafe(values) ==> ScanFrom(r.value, 0, 0, limit, strict) == scan))
    ensures (forall i | 0 <= i < |steps| :: steps[i].Text? || steps[i].Owned?) ==> r.Some? && AreSafe(values)
  {
    hide ScanFrom, AreSetsKept, AreSafe, Anonymizer.Keeps, Anonymizer.KeepsHeaders, Plan.Valid, IsInside;
    hide AreKnown, AreMade, AreWritten, IsClean, AllTaken, AllSearched, CreateAt, AreStrings, Tiles;
    var structures := ScanFrom(source, 0, 0, limit, strict).structures;
    forall k | 0 <= k < |structures|
      ensures CreateAt(source, structures[k].offset) == Created(structures[k])
    {
      ScanFound(source, 0, 0, limit, strict, k);
    }
    strings := DecodeAll(source, structures);
    var plan := Plan(source, structures, strings, draws);
    PlanIsValid(plan, limit, strict);
    if forall i | 0 <= i < |steps| :: steps[i].Text? || steps[i].Owned? {
      TextsAreSafe(plan, steps);
    }
    var a := Begin(plan);
    var ok := TakeAll(a, plan, steps);
    values := a.values;
    if !ok {
      return None, strings, values;
    }
    a.Elsewhere();
    AllAreWritten(plan, steps);
    FinishedValues(plan, steps);
    FinishedIsClean(plan, steps);
    a.KeptIsScanned(limit, strict);
    r := Some(a.table[..]);
  }

  lemma PlanIsValid(plan: Plan, limit: nat, strict: bool)
    requires plan.structures == ScanFrom(plan.source, 0, 0, limit, strict).structures && |plan.source| < SIZE_MAX
    requires |plan.strings| == |plan.structures|
    requires forall k | 0 <= k < |plan.strings| :: AreStrings(plan.source, plan.structures[k], plan.strings[k])
    requires forall k | 0 <= k < |plan.structures| ::
      CreateAt(plan.source, plan.structures[k].offset) == Created(plan.structures[k])
    ensures plan.Valid()
  {
    hide ScanFrom, AreStrings, CreateAt, Tiles;
    ScanTiles(plan.source, 0, 0, limit, strict);
  }

  method Begin(plan: Plan) returns (a: Anonymizer)
    requires plan.Valid()
    ensures fresh(a) && fresh(a.table) && Holds(a, plan) && a.Keeps() && a.KeepsHeaders()
    ensures a.values == [] && a.table[..] == plan.source
  {
    hide AreStrings, AreEntries, SameLayout, AreHeadersKept, CreateAt;
    plan.EntriesAreWithin();
    AllEnd(plan);
    a := new Anonymizer(plan.source, plan.structures, plan.Entries(), plan.draws);
  }

  lemma AllEnd(plan: Plan)
    requires plan.Valid()
    ensures EndOf(plan.structures, 0) <= |plan.source|
  {
    hide AreStrings, Tiles;
    if plan.structures != [] {
      StructureIsWithin(plan, |plan.structures| - 1);
    }
  }
}

/**
 What anonymizing a table comes to: the steps taken for its private members, and
 the searches after them, as functions of the table
 (libopendmi/src/anonymize.c).
 */
module Plans {
  import opened Wrappers
  import opened Bytes
  import opened Tables
  import opened Anonymization
  import opened Placed
  import F = Schema
  import S = Structure

  // Plans

  /** A table, what it is cut into, and the numbers drawn by the values they are to replace. */
  datatype Plan = Plan(source: seq<Byte>, structures: seq<Structure>, strings: seq<seq<seq<Byte>>>,
                       draws: seq<Byte> -> nat -> nat) {
    predicate Valid() {
      && |strings| == |structures| && |source| < SIZE_MAX
      && Tiles(structures, 0, EndOf(structures, 0))
      && (forall k | 0 <= k < |structures| :: CreateAt(source, structures[k].offset) == Created(structures[k]))
      && (forall k | 0 <= k < |structures| :: AreStrings(source, structures[k], strings[k]))
    }

    function Entries(): (entries: seq<seq<Entry>>)
      requires Valid()
      ensures |entries| == |strings| == |structures|
    {
      seq(|strings|, k requires 0 <= k < |strings| => EntriesOf(structures[k].StringsAt(), strings[k]))
    }

    /** Entries are in the table. */
    lemma EntriesAreWithin()
      requires Valid()
      ensures AreWithin(source, structures, Entries())
      ensures forall k | 0 <= k < |structures| :: AreEntries(source, structures[k], Entries()[k])
    {
      hide AreStrings, Tiles, CreateAt;
      forall k | 0 <= k < |structures|
        ensures AreEntries(source, structures[k], Entries()[k]) && IsWithin(source, structures[k], Entries()[k])
      {
        EntriesArePlaced(source, structures[k], strings[k]);
        EntriesEnd(source, structures[k], Entries()[k]);
      }
    }
  }

  lemma EntriesEnd(source: seq<Byte>, s: Structure, entries: seq<Entry>)
    requires AreEntries(source, s, entries) && CreateAt(source, s.offset) == Created(s)
    ensures IsWithin(source, s, entries)
  {
    hide CreateAt;
  }

  // Steps

  /**
   What is done to the members of the structures, one member or one encoding
   after another: a text one of the strings has been made into, a text of
   another kind, a binary, and members replaced while their structure is encoded.
   */
  datatype Step =
    | Text(k: nat, number: nat, isPlaceholder: bool)
    | Owned(k: nat, text: seq<Byte>, isPlaceholder: bool)
    | Binary(k: nat, at: Option<nat>, length: nat, isMac: bool)
    | Members(k: nat, fs: seq<F.Field>, info: F.Info, version: F.Version, saved: seq<seq<Byte>>)

  /** Bytes of a binary which lies in the table are in the body of its structure, past the header. */
  predicate IsInside(source: seq<Byte>, structures: seq<Structure>, step: Step) {
    && step.k < |structures|
    && (step.Owned? ==> |step.text| < SIZE_MAX)
    && (step.Binary? ==>
          && step.length < SIZE_MAX
          && (step.at.Some? ==>
                && structures[step.k].offset + HEADER_SIZE <= step.at.value
                && step.at.value + step.length <= structures[step.k].StringsAt()))
    && (step.Members? ==> forall i | 0 <= i < |step.saved| :: |step.saved[i]| < SIZE_MAX)
  }

  predicate AreInside(plan: Plan, steps: seq<Step>) {
    forall i | 0 <= i < |steps| :: IsInside(plan.source, plan.structures, steps[i])
  }

  predicate IsStep(plan: Plan, step: Step) {
    plan.Valid() && IsInside(plan.source, plan.structures, step)
  }

  /** Whether a text is one of a string there is. */
  predicate IsOfString(plan: Plan, step: Step)
    requires IsStep(plan, step)
  {
    step.Text? && step.number < |plan.strings[step.k]|
  }

  /** The private value of a step, if it is one the table or a text has as it is. */
  function DataOf(plan: Plan, step: Step): (data: seq<Byte>)
    requires IsStep(plan, step)
    ensures |data| < SIZE_MAX
  {
    match step
    case Text(k, number, _) =>
      if IsOfString(plan, step) then
        assert |F.Trimmed(plan.strings[k][number])| < SIZE_MAX by {
          TextIsShort(plan, step);
        }
        F.Trimmed(plan.strings[k][number])
      else []
    case Owned(_, text, _) => text
    case Binary(_, at, length, _) =>
      if at.Some? && at.value + length <= |plan.source| then plan.source[at.value..at.value + length] else []
    case Members(_, _, _, _, _) => []
  }

  lemma TextIsShort(plan: Plan, step: Step)
    requires IsStep(plan, step) && IsOfString(plan, step)
    ensures |F.Trimmed(plan.strings[step.k][step.number])| < SIZE_MAX
  {
    hide AreStrings, CreateAt, Tiles, F.Trimmed;
    var q := TextPlace(plan.source, plan.structures[step.k], plan.strings[step.k], step.number);
  }

  /** Whether the value of a step is replaced: one repeating a byte stands for none, and placeholders tell nothing. */
  predicate IsTaken(plan: Plan, step: Step)
    requires IsStep(plan, step)
  {
    && !step.Members? && !IsNoValue(DataOf(plan, step))
    && (step.Text? || step.Owned? ==> !step.isPlaceholder)
  }

  function ReplacementOf(plan: Plan, step: Step): (r: seq<Byte>)
    requires IsStep(plan, step) && !step.Members?
    ensures |r| == |DataOf(plan, step)|
  {
    var data := DataOf(plan, step);
    if step.Binary? then BytesOf(data, plan.draws(data), KeptOf(step.length, step.isMac))
    else ReplacedText(data, plan.draws(data))
  }

  /** Texts which are no identifiers are replaced only where they are. */
  function ValueOf(plan: Plan, step: Step): Value
    requires IsStep(plan, step) && !step.Members?
  {
    var data := DataOf(plan, step);
    Value(data, ReplacementOf(plan, step), step.Binary? || IsIdentity(data))
  }

  /** The structure of a step, encoded into its own length with the members replaced. */
  function Encoded(plan: Plan, step: Step): (r: Option<seq<Byte>>)
    requires IsStep(plan, step) && step.Members?
    ensures r.Some? ==> |r.value| == plan.structures[step.k].body
  {
    var s := plan.structures[step.k];
    var r := S.Encode(EntityOf(plan.source, s, plan.strings[step.k]), step.fs, step.info, true, step.version);
    if r.Some? && |r.value| == s.body then r else None
  }

  predicate Fails(plan: Plan, step: Step)
    requires IsStep(plan, step)
  {
    step.Members? && Encoded(plan, step).None?
  }

  /** Where a step writes, and what. */
  function WrittenBy(plan: Plan, step: Step): (r: Option<(nat, seq<Byte>)>)
    requires IsStep(plan, step)
    ensures r.Some? ==> r.value.0 + |r.value.1| <= |plan.source|
  {
    if step.Members? then
      var encoded := Encoded(plan, step);
      StructureIsWithin(plan, step.k);
      if encoded.None? then None else Some((plan.structures[step.k].offset, encoded.value))
    else if !IsTaken(plan, step) || step.Owned? then None
    else if step.Binary? then Some((step.at.value, ReplacementOf(plan, step)))
    else
      Some((TextPlace(plan.source, plan.structures[step.k], plan.strings[step.k], step.number),
            ReplacementOf(plan, step)))
  }

  lemma StructureIsWithin(plan: Plan, k: nat)
    requires plan.Valid() && k < |plan.structures|
    ensures plan.structures[k].body >= HEADER_SIZE
    ensures plan.structures[k].StringsAt() <= plan.structures[k].End() <= |plan.source|
  {
    hide AreStrings, Tiles;
  }

  // Runs

  /** A table being anonymized, and the values found so far. */
  datatype Run = Run(table: seq<Byte>, values: seq<Value>)

  predicate IsRun(plan: Plan, run: Run) {
    |run.table| == |plan.source| && AreValues(run.values)
  }

  function TableAfter(plan: Plan, table: seq<Byte>, step: Step): (r: seq<Byte>)
    requires IsStep(plan, step) && |table| == |plan.source|
    ensures |r| == |table|
  {
    var w := WrittenBy(plan, step);
    if w.None? then table else Overwrite(table, w.value.0, w.value.1)
  }

  /** Values found by a step which has written a table. */
  function ValuesAfter(plan: Plan, now: seq<Byte>, values: seq<Value>, step: Step): (r: seq<Value>)
    requires IsStep(plan, step) && |now| == |plan.source| && AreValues(values)
    ensures AreValues(r)
  {
    if step.Members? then
      StructureIsWithin(plan, step.k);
      CollectedAreValues(plan.source, plan.structures[step.k], now, step.saved, values);
      Collected(plan.source, plan.structures[step.k], now, step.saved, values)
    else if !IsTaken(plan, step) then values
    else
      OneValue(ValueOf(plan, step));
      AddedAreValues(values, ValueOf(plan, step));
      Added(values, ValueOf(plan, step))
  }

  lemma OneValue(v: Value)
    requires 0 < |v.data| == |v.replacement| < SIZE_MAX && !IsBlank(v.data)
    ensures AreValues([v])
  {
  }

  lemma {:induction false} CollectedAreValues(source: seq<Byte>, s: Structure, now: seq<Byte>, saved: seq<seq<Byte>>,
                                              values: seq<Value>)
    requires |now| == |source| && s.StringsAt() <= |source| && AreValues(values)
    requires forall i | 0 <= i < |saved| :: |saved[i]| < SIZE_MAX
    ensures AreValues(Collected(source, s, now, saved, values))
    decreases |saved|
  {
    hide FindChanged, Added;
    if saved != [] {
      var n := |saved| - 1;
      var rest, data := Collected(source, s, now, saved[..n], values), saved[n];
      CollectedAreValues(source, s, now, saved[..n], values);
      var found := if |data| >= PATTERN_MIN then FindChanged(source, s, now, data, s.offset) else None;
      if found.Some? && !IsBlank(data) {
        var v := Value(data, now[found.value..found.value + |data|], true);
        OneValue(v);
        AddedAreValues(rest, v);
      }
    }
  }

  /** A step fails only where a structure is not encoded back into its own length. */
  function Taken(plan: Plan, run: Run, step: Step): (r: Option<Run>)
    requires IsStep(plan, step) && IsRun(plan, run)
    ensures r.Some? ==> IsRun(plan, r.value)
    ensures r.None? <==> Fails(plan, step)
  {
    if Fails(plan, step) then None
    else
      var now := TableAfter(plan, run.table, step);
      Some(Run(now, ValuesAfter(plan, now, run.values, step)))
  }

  function AllTaken(plan: Plan, steps: seq<Step>): (r: Option<Run>)
    requires plan.Valid() && AreInside(plan, steps)
    ensures r.Some? ==> IsRun(plan, r.value)
  {
    if steps == [] then Some(Run(plan.source, []))
    else
      var n := |steps| - 1;
      var before := AllTaken(plan, steps[..n]);
      if before.None? then None else Taken(plan, before.value, steps[n])
  }

  /** The table anonymized: the steps are taken, and values are looked for everywhere. */
  function Finished(plan: Plan, steps: seq<Step>): (r: Option<Run>)
    requires plan.Valid() && AreInside(plan, steps)
    ensures r.Some? ==> IsRun(plan, r.value)
  {
    var taken := AllTaken(plan, steps);
    if taken.None? then None
    else
      plan.EntriesAreWithin();
      var run := taken.value;
      Some(run.(table := AllSearched(plan.source, run.values, plan.structures, plan.Entries(), |plan.structures|,
                                     run.table)))
  }
}

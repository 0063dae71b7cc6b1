/**
 Mapping of structure types to the specifications which may decode them, over
 the standard specifications and the ones of modules, which may relocate them
 and yield to each other (libopendmi/src/context-types.c, libopendmi/src/entity.c).
 */
module TypeMap {
  import opened Wrappers

  const TYPES: nat := 256
  const CANDIDATES: nat := 4

  type Kind = k: nat | k < TYPES

  /** A specification, told by its identity; a signed one is told by a signature structures match. */
  datatype Spec = Spec(id: nat, kind: Kind, signed: bool)

  /** A specification is found at another type, or at none. */
  datatype Relocation = Relocation(spec: Spec, kind: Option<Kind>)

  datatype Module = Module(yielding: bool, entities: Option<seq<Spec>>, relocations: Option<seq<Relocation>>)

  /** The unsigned candidate comes first, the signed ones follow in the order they have come. */
  type Slots = s: seq<Option<Spec>> | |s| == CANDIDATES witness [None, None, None, None]

  const EMPTY: Slots := [None, None, None, None]

  // Relocations

  function RelocationsOf(relocations: seq<Relocation>, spec: Spec): seq<Option<Kind>> {
    if relocations == [] then []
    else
      var n := |relocations| - 1;
      var rest := RelocationsOf(relocations[..n], spec);
      if relocations[n].spec == spec then rest + [relocations[n].kind] else rest
  }

  function Relocated(modules: seq<Module>, spec: Spec): seq<Option<Kind>> {
    if modules == [] then []
    else
      var n := |modules| - 1;
      var rest := Relocated(modules[..n], spec);
      if modules[n].relocations.Some? then rest + RelocationsOf(modules[n].relocations.value, spec) else rest
  }

  function Kinds(kinds: seq<Option<Kind>>): seq<Kind> {
    if kinds == [] then []
    else
      var n := |kinds| - 1;
      var rest := Kinds(kinds[..n]);
      if kinds[n].Some? then rest + [kinds[n].value] else rest
  }

  /** The types a specification is found at: its own one, unless it is relocated anywhere. */
  function Targets(modules: seq<Module>, spec: Spec): seq<Kind> {
    var relocated := Relocated(modules, spec);
    if relocated == [] then [spec.kind] else Kinds(relocated)
  }

  lemma KindsAppended(kinds: seq<Option<Kind>>, kind: Option<Kind>)
    ensures Kinds(kinds + [kind]) == if kind.Some? then Kinds(kinds) + [kind.value] else Kinds(kinds)
  {
    assert (kinds + [kind])[..|kinds|] == kinds;
  }

  lemma {:induction false} KindsOfBoth(a: seq<Option<Kind>>, b: seq<Option<Kind>>)
    ensures Kinds(a + b) == Kinds(a) + Kinds(b)
  {
    if b == [] {
      assert a + b == a;
    } else {
      var n := |b| - 1;
      KindsOfBoth(a, b[..n]);
      KindsAppended(a + b[..n], b[n]);
      assert a + b == (a + b[..n]) + [b[n]];
    }
  }

  /** Only the relocations of the specification count, and those to no type are passed over. */
  method Relocate(modules: seq<Module>, spec: Spec, index: nat) returns (r: Option<Kind>)
    ensures r == if index < |Targets(modules, spec)| then Some(Targets(modules, spec)[index]) else None
  {
    var left: nat, relocated := index, false;
    for i := 0 to |modules|
      invariant relocated <==> Relocated(modules[..i], spec) != []
      invariant left + |Kinds(Relocated(modules[..i], spec))| == index
    {
      assert modules[..i + 1][..i] == modules[..i];
      if modules[i].relocations.Some? {
        var list := modules[i].relocations.value;
        var found;
        found, left, relocated := RelocateIn(list, spec, left, relocated);
        ghost var before := Relocated(modules[..i], spec);
        KindsOfBoth(before, RelocationsOf(list, spec));
        if found.Some? {
          RelocatedGrows(modules, i + 1, spec);
          return found;
        }
      }
    }
    assert modules[..|modules|] == modules;
    return if relocated || left != 0 then None else Some(spec.kind);
  }

  method RelocateIn(list: seq<Relocation>, spec: Spec, index: nat, before: bool)
    returns (r: Option<Kind>, left: nat, relocated: bool)
    ensures var kinds := Kinds(RelocationsOf(list, spec));
      && (index < |kinds| ==> r == Some(kinds[index]))
      && (index >= |kinds| ==> r == None && left + |kinds| == index)
    ensures r.None? ==> (relocated <==> before || RelocationsOf(list, spec) != [])
  {
    left, relocated := index, before;
    for i := 0 to |list|
      invariant relocated <==> before || RelocationsOf(list[..i], spec) != []
      invariant left + |Kinds(RelocationsOf(list[..i], spec))| == index
    {
      assert list[..i + 1][..i] == list[..i];
      if list[i].spec == spec {
        relocated := true;
        KindsAppended(RelocationsOf(list[..i], spec), list[i].kind);
        if list[i].kind.Some? {
          if left == 0 {
            KindsGrow(list, i + 1, spec);
            return list[i].kind, 0, true;
          }
          left := left - 1;
        }
      }
    }
    assert list[..|list|] == list;
    return None, left, relocated;
  }

  lemma {:induction false} KindsGrow(list: seq<Relocation>, n: nat, spec: Spec)
    requires n <= |list|
    ensures Kinds(RelocationsOf(list[..n], spec)) <= Kinds(RelocationsOf(list, spec))
    decreases |list| - n
  {
    if n < |list| {
      KindsGrow(list, n + 1, spec);
      assert list[..n + 1][..n] == list[..n];
      if list[n].spec == spec {
        KindsAppended(RelocationsOf(list[..n], spec), list[n].kind);
      }
    } else {
      assert list[..n] == list;
    }
  }

  lemma {:induction false} RelocatedGrows(modules: seq<Module>, n: nat, spec: Spec)
    requires n <= |modules|
    ensures Relocated(modules[..n], spec) <= Relocated(modules, spec)
    ensures Kinds(Relocated(modules[..n], spec)) <= Kinds(Relocated(modules, spec))
    decreases |modules| - n
  {
    if n < |modules| {
      RelocatedGrows(modules, n + 1, spec);
      assert modules[..n + 1][..n] == modules[..n];
      if modules[n].relocations.Some? {
        KindsOfBoth(Relocated(modules[..n], spec), RelocationsOf(modules[n].relocations.value, spec));
      }
    } else {
      assert modules[..n] == modules;
    }
  }

  // Conflicts

  /** A specification found at a type. */
  datatype Item = Item(kind: Kind, spec: Spec)

  function SpecItems(modules: seq<Module>, spec: Spec): set<Item> {
    set kind | kind in Targets(modules, spec) :: Item(kind, spec)
  }

  /** Specifications of other generations of the platform are left out. */
  function EntityItems(modules: seq<Module>, entities: seq<Spec>, included: Spec -> bool): set<Item> {
    if entities == [] then {}
    else
      var n := |entities| - 1;
      var rest := EntityItems(modules, entities[..n], included);
      if included(entities[n]) then rest + SpecItems(modules, entities[n]) else rest
  }

  function ModuleItems(modules: seq<Module>, m: Module, yielding: bool, included: Spec -> bool): set<Item> {
    if m.entities.None? || m.yielding != yielding then {} else EntityItems(modules, m.entities.value, included)
  }

  /** What the first modules of the list bring. */
  function Items(modules: seq<Module>, n: nat, yielding: bool, included: Spec -> bool): set<Item>
    requires n <= |modules|
  {
    if n == 0 then {}
    else Items(modules, n - 1, yielding, included) + ModuleItems(modules, modules[n - 1], yielding, included)
  }

  function StandardItems(standard: set<Spec>): set<Item> {
    set spec | spec in standard :: Item(spec.kind, spec)
  }

  /** What has to be mapped: the standard specifications, and those of the modules which do not yield. */
  function Firm(standard: set<Spec>, modules: seq<Module>, included: Spec -> bool): set<Item> {
    StandardItems(standard) + Items(modules, |modules|, false, included)
  }

  function SpecsAt(items: set<Item>, kind: Kind, signed: bool): set<Spec> {
    set item | item in items && item.kind == kind && item.spec.signed == signed :: item.spec
  }

  /** A type has one unsigned candidate and three signed ones at most. */
  predicate IsCrowded(items: set<Item>, kind: Kind) {
    |SpecsAt(items, kind, false)| > 1 || |SpecsAt(items, kind, true)| > 3
  }

  ghost predicate IsInConflict(items: set<Item>) {
    exists kind: Kind :: IsCrowded(items, kind)
  }

  lemma CrowdStays(a: set<Item>, b: set<Item>, kind: Kind)
    requires a <= b && IsCrowded(a, kind)
    ensures IsCrowded(b, kind)
  {
    SubsetIsSmaller(SpecsAt(a, kind, false), SpecsAt(b, kind, false));
    SubsetIsSmaller(SpecsAt(a, kind, true), SpecsAt(b, kind, true));
  }

  lemma SubsetIsSmaller<T>(a: set<T>, b: set<T>)
    requires a <= b
    ensures |a| <= |b|
  {
    assert b == a + (b - a);
  }

  // Mapping of one

  predicate HasSpec(slots: Slots, spec: Spec) {
    exists i | 0 <= i < CANDIDATES :: slots[i] == Some(spec)
  }

  /** The signed candidates stand without gaps. */
  predicate HasNoGaps(slots: Slots) {
    forall i, j | 1 <= i < j < CANDIDATES && slots[i].None? :: slots[j].None?
  }

  /** The first candidate is the unsigned one, and the others are signed, each of them once. */
  predicate IsSorted(slots: Slots) {
    && HasNoGaps(slots)
    && (forall i | 0 <= i < CANDIDATES && slots[i].Some? :: slots[i].value.signed == (i != 0))
    && (forall i, j | 0 <= i < j < CANDIDATES && slots[i].Some? :: slots[i] != slots[j])
  }

  /** The candidates of a type are exactly the specifications found at it. */
  ghost predicate Holds(slots: Slots, items: set<Item>, kind: Kind) {
    IsSorted(slots) && forall spec :: HasSpec(slots, spec) <==> Item(kind, spec) in items
  }

  function FirstFree(slots: Slots, i: nat): (r: Option<nat>)
    ensures r.Some? ==> i <= r.value < CANDIDATES && slots[r.value].None? && forall j | i <= j < r.value ::
      slots[j].Some?
    ensures r.None? ==> forall j | i <= j < CANDIDATES :: slots[j].Some?
    decreases CANDIDATES - i
  {
    if i >= CANDIDATES then None else if slots[i].None? then Some(i) else FirstFree(slots, i + 1)
  }

  /** The slot a specification takes, unless it has one or there is none left for it. */
  function Placed(slots: Slots, spec: Spec): Option<Slots> {
    if HasSpec(slots, spec) then Some(slots)
    else
      var free := if spec.signed then FirstFree(slots, 1) else if slots[0].None? then Some(0) else None;
      if free.None? then None else Some(slots[free.value := Some(spec)])
  }

  method MapOne(table: array<Slots>, kind: Kind, spec: Spec, yielding: bool) returns (ok: bool)
    requires table.Length == TYPES
    modifies table
    ensures var r := Placed(old(table[kind]), spec);
      && ok == (r.Some? || yielding)
      && table[..] == old(table[..])[kind := if r.Some? then r.value else old(table[kind])]
  {
    for i := 0 to CANDIDATES
      invariant forall j | 0 <= j < i :: table[kind][j] != Some(spec)
      invariant table[..] == old(table[..])
    {
      if table[kind][i] == Some(spec) {
        return true;
      }
    }
    if !spec.signed {
      if table[kind][0].Some? {
        return yielding;
      }
      table[kind] := table[kind][0 := Some(spec)];
      return true;
    }
    for i := 1 to CANDIDATES
      invariant FirstFree(table[kind], 1) == FirstFree(table[kind], i)
      invariant table[..] == old(table[..])
    {
      if table[kind][i].None? {
        table[kind] := table[kind][i := Some(spec)];
        return true;
      }
    }
    return yielding;
  }

  /** One which finds no slot crowds its type. */
  lemma NotPlacedIsCrowded(slots: Slots, items: set<Item>, kind: Kind, spec: Spec)
    requires Holds(slots, items, kind) && Placed(slots, spec).None?
    ensures IsCrowded(items + {Item(kind, spec)}, kind)
  {
    var all := items + {Item(kind, spec)};
    var specs := SpecsAt(all, kind, spec.signed);
    assert Item(kind, spec) in all;
    assert spec in specs;
    if spec.signed {
      var a, b, c := slots[1].value, slots[2].value, slots[3].value;
      assert HasSpec(slots, a) && HasSpec(slots, b) && HasSpec(slots, c);
      assert Item(kind, a) in all && Item(kind, b) in all && Item(kind, c) in all;
      assert spec != a && spec != b && spec != c && a != b && a != c && b != c;
      SubsetIsSmaller({spec, a, b, c}, specs);
    } else {
      var a := slots[0].value;
      assert HasSpec(slots, a) && Item(kind, a) in all && spec != a;
      SubsetIsSmaller({spec, a}, specs);
    }
  }

  /** A type whose candidates are told is not crowded. */
  lemma HeldIsNotCrowded(slots: Slots, items: set<Item>, kind: Kind)
    requires Holds(slots, items, kind)
    ensures !IsCrowded(items, kind)
  {
    hide IsSorted, SpecsAt, HasSpec;
    HeldAreFew(slots, items, kind);
    SubsetIsSmaller(SpecsAt(items, kind, false), SlotSet(slots[0]));
    SubsetIsSmaller(SpecsAt(items, kind, true), SlotSet(slots[1]) + SlotSet(slots[2]) + SlotSet(slots[3]));
  }

  function SlotSet(slot: Option<Spec>): (specs: set<Spec>)
    ensures |specs| <= 1
  {
    if slot.Some? then {slot.value} else {}
  }

  lemma HeldAreFew(slots: Slots, items: set<Item>, kind: Kind)
    requires Holds(slots, items, kind)
    ensures SpecsAt(items, kind, false) <= SlotSet(slots[0])
    ensures SpecsAt(items, kind, true) <= SlotSet(slots[1]) + SlotSet(slots[2]) + SlotSet(slots[3])
  {
    hide HasNoGaps;
    forall signed, spec | spec in SpecsAt(items, kind, signed)
      ensures if signed then spec in SlotSet(slots[1]) + SlotSet(slots[2]) + SlotSet(slots[3])
              else spec in SlotSet(slots[0])
    {
      assert Item(kind, spec) in items && HasSpec(slots, spec);
      var i :| 0 <= i < CANDIDATES && slots[i] == Some(spec);
    }
  }

  // Mapping

  /** Candidates are added only, and stay where they are. */
  predicate Extends(a: Slots, b: Slots) {
    forall i | 0 <= i < CANDIDATES && a[i].Some? :: b[i] == a[i]
  }

  /** A type has no slot left for a specification. */
  predicate IsFull(slots: Slots, spec: Spec) {
    forall i | 0 <= i < CANDIDATES && (i == 0 <==> !spec.signed) :: slots[i].Some?
  }

  /**
   A type during a pass: what has been mapped before stays, and only what has
   been brought since is added. All of it is, unless it yields and there is no
   slot left for it.
   */
  ghost predicate IsMapped(before: Slots, slots: Slots, items: set<Item>, kind: Kind, yielding: bool) {
    && IsSorted(slots) && Extends(before, slots)
    && (forall spec :: HasSpec(slots, spec) ==> Item(kind, spec) in items)
    && (forall spec :: Item(kind, spec) in items ==> HasSpec(slots, spec) || IsFull(slots, spec))
    && (!yielding ==> Holds(slots, items, kind))
  }

  ghost predicate AreMapped(before: seq<Slots>, table: seq<Slots>, items: set<Item>, yielding: bool)
    requires |before| == |table| == TYPES
  {
    forall kind: Kind :: IsMapped(before[kind], table[kind], items, kind, yielding)
  }

  lemma PlacedStays(slots: Slots, spec: Spec)
    requires IsSorted(slots) && Placed(slots, spec).Some?
    ensures var placed := Placed(slots, spec).value;
      && IsSorted(placed) && Extends(slots, placed)
      && (forall s :: HasSpec(placed, s) <==> HasSpec(slots, s) || s == spec)
      && forall s :: IsFull(slots, s) ==> IsFull(placed, s)
  {
    var placed := Placed(slots, spec).value;
    if !HasSpec(slots, spec) {
      var free := if spec.signed then FirstFree(slots, 1).value else 0;
      assert placed[free] == Some(spec);
      forall s
        ensures HasSpec(placed, s) <==> HasSpec(slots, s) || s == spec
      {
        if HasSpec(slots, s) {
          var i :| 0 <= i < CANDIDATES && slots[i] == Some(s);
          assert placed[i] == Some(s);
        }
      }
    }
  }

  lemma UnplacedIsFull(slots: Slots, spec: Spec)
    requires Placed(slots, spec).None?
    ensures IsFull(slots, spec)
  {
  }

  lemma StepIsMapped(before: seq<Slots>, table: seq<Slots>, next: seq<Slots>, items: set<Item>, item: Item,
                     yielding: bool)
    requires |before| == |table| == |next| == TYPES && AreMapped(before, table, items, yielding)
    requires var r := Placed(table[item.kind], item.spec);
      (r.Some? || yielding) && next == table[item.kind := if r.Some? then r.value else table[item.kind]]
    ensures AreMapped(before, next, items + {item}, yielding)
  {
    hide Placed, IsSorted, HasSpec, IsFull;
    forall kind: Kind
      ensures IsMapped(before[kind], next[kind], items + {item}, kind, yielding)
    {
      assert IsMapped(before[kind], table[kind], items, kind, yielding);
      if kind == item.kind && Placed(table[kind], item.spec).Some? {
        PlacedStays(table[kind], item.spec);
      } else if kind == item.kind {
        UnplacedIsFull(table[kind], item.spec);
      }
    }
  }

  lemma StepIsCrowded(before: seq<Slots>, table: seq<Slots>, items: set<Item>, item: Item)
    requires |before| == |table| == TYPES && AreMapped(before, table, items, false)
    requires Placed(table[item.kind], item.spec).None?
    ensures IsCrowded(items + {item}, item.kind)
  {
    hide Placed, IsCrowded;
    assert IsMapped(before[item.kind], table[item.kind], items, item.kind, false);
    NotPlacedIsCrowded(table[item.kind], items, item.kind, item.spec);
  }

  method MapSpec(table: array<Slots>, modules: seq<Module>, spec: Spec, yielding: bool,
                 ghost before: seq<Slots>, ghost items: set<Item>) returns (ok: bool)
    requires table.Length == TYPES == |before| && AreMapped(before, table[..], items, yielding)
    modifies table
    ensures ok ==> AreMapped(before, table[..], items + SpecItems(modules, spec), yielding)
    ensures !ok ==> !yielding && IsInConflict(items + SpecItems(modules, spec))
  {
    hide AreMapped, Placed, IsCrowded;
    ghost var targets := Targets(modules, spec);
    var k := 0;
    ghost var done: set<Item> := {};
    assert items + done == items;
    while true
      invariant 0 <= k <= |targets| && AreMapped(before, table[..], items + done, yielding)
      invariant done == (set i | 0 <= i < k :: Item(targets[i], spec))
      decreases |targets| - k
    {
      var kind := Relocate(modules, spec, k);
      if kind.None? {
        break;
      }
      ghost var item, was := Item(kind.value, spec), table[..];
      var mapped := MapOne(table, kind.value, spec, yielding);
      assert item in SpecItems(modules, spec);
      if !mapped {
        StepIsCrowded(before, was, items + done, item);
        CrowdStays(items + done + {item}, items + SpecItems(modules, spec), kind.value);
        return false;
      }
      StepIsMapped(before, was, table[..], items + done, item, yielding);
      assert items + (done + {item}) == items + done + {item};
      done, k := done + {item}, k + 1;
    }
    assert done == SpecItems(modules, spec);
    return true;
  }

  method MapModule(table: array<Slots>, modules: seq<Module>, m: Module, yielding: bool, included: Spec -> bool,
                   ghost before: seq<Slots>, ghost items: set<Item>) returns (ok: bool)
    requires table.Length == TYPES == |before| && AreMapped(before, table[..], items, yielding)
    modifies table
    ensures ok ==> AreMapped(before, table[..], items + ModuleItems(modules, m, yielding, included), yielding)
    ensures !ok ==> !yielding && IsInConflict(items + ModuleItems(modules, m, yielding, included))
  {
    hide AreMapped, IsCrowded, SpecItems;
    if m.entities.None? || m.yielding != yielding {
      assert items + {} == items;
      return true;
    }
    var entities := m.entities.value;
    assert items + EntityItems(modules, entities[..0], included) == items;
    for i := 0 to |entities|
      invariant AreMapped(before, table[..], items + EntityItems(modules, entities[..i], included), yielding)
    {
      ghost var done := EntityItems(modules, entities[..i], included);
      EntitiesGrow(modules, entities, i + 1, included);
      assert entities[..i + 1][..i] == entities[..i];
      if included(entities[i]) {
        ok := MapSpec(table, modules, entities[i], yielding, before, items + done);
        assert items + done + SpecItems(modules, entities[i]) == items
          + EntityItems(modules, entities[..i + 1], included);
        if !ok {
          ConflictStays(items + EntityItems(modules, entities[..i + 1], included), items
            + EntityItems(modules, entities, included));
          return;
        }
      }
    }
    assert entities[..|entities|] == entities;
    return true;
  }

  lemma ConflictStays(a: set<Item>, b: set<Item>)
    requires a <= b && IsInConflict(a)
    ensures IsInConflict(b)
  {
    var kind: Kind :| IsCrowded(a, kind);
    CrowdStays(a, b, kind);
  }

  lemma {:induction false} EntitiesGrow(modules: seq<Module>, entities: seq<Spec>, n: nat, included: Spec -> bool)
    requires n <= |entities|
    ensures EntityItems(modules, entities[..n], included) <= EntityItems(modules, entities, included)
    decreases |entities| - n
  {
    if n < |entities| {
      EntitiesGrow(modules, entities, n + 1, included);
      assert entities[..n + 1][..n] == entities[..n];
    } else {
      assert entities[..n] == entities;
    }
  }

  lemma {:induction false} ItemsGrow(modules: seq<Module>, n: nat, m: nat, yielding: bool, included: Spec -> bool)
    requires n <= m <= |modules|
    ensures Items(modules, n, yielding, included) <= Items(modules, m, yielding, included)
    decreases m
  {
    if n < m {
      ItemsGrow(modules, n, m - 1, yielding, included);
    }
  }

  method MapPass(table: array<Slots>, modules: seq<Module>, yielding: bool, included: Spec -> bool,
                 ghost before: seq<Slots>, ghost items: set<Item>) returns (ok: bool)
    requires table.Length == TYPES == |before| && AreMapped(before, table[..], items, yielding)
    modifies table
    ensures ok ==> AreMapped(before, table[..], items + Items(modules, |modules|, yielding, included), yielding)
    ensures !ok ==> !yielding && IsInConflict(items + Items(modules, |modules|, yielding, included))
  {
    hide AreMapped, IsInConflict, ModuleItems;
    assert items + Items(modules, 0, yielding, included) == items;
    for i := 0 to |modules|
      invariant AreMapped(before, table[..], items + Items(modules, i, yielding, included), yielding)
    {
      ghost var done := Items(modules, i, yielding, included);
      ok := MapModule(table, modules, modules[i], yielding, included, before, items + done);
      assert items + done + ModuleItems(modules, modules[i], yielding, included) == items
        + Items(modules, i + 1, yielding, included);
      if !ok {
        ItemsGrow(modules, i + 1, |modules|, yielding, included);
        ConflictStays(items + Items(modules, i + 1, yielding, included), items
          + Items(modules, |modules|, yielding, included));
        return;
      }
    }
    return true;
  }

  /** Standard specifications have no signatures, and a type each. */
  predicate IsStandard(standard: seq<Option<Spec>>) {
    && |standard| <= TYPES
    && forall kind | 0 <= kind < |standard| && standard[kind].Some? ::
         standard[kind].value.kind == kind && !standard[kind].value.signed
  }

  function SpecsOf(standard: seq<Option<Spec>>): set<Spec> {
    set kind | 0 <= kind < |standard| && standard[kind].Some? :: standard[kind].value
  }

  method MapStandard(table: array<Slots>, standard: seq<Option<Spec>>)
    requires table.Length == TYPES && IsStandard(standard)
    modifies table
    ensures AreMapped(seq(TYPES, _ => EMPTY), table[..], StandardItems(SpecsOf(standard)), false)
    ensures forall spec | spec in SpecsOf(standard) :: table[spec.kind][0] == Some(spec)
  {
    for kind := 0 to TYPES
      invariant forall k | 0 <= k < kind :: table[k] == EMPTY
    {
      table[kind] := EMPTY;
    }
    for i := 0 to |standard|
      invariant forall k | 0 <= k < TYPES :: table[k] == EMPTY[0 := if k < i then standard[k] else None]
    {
      if standard[i].Some? {
        table[standard[i].value.kind] := table[standard[i].value.kind][0 := standard[i]];
      }
    }
    forall kind: Kind
      ensures IsMapped(EMPTY, table[..][kind], StandardItems(SpecsOf(standard)), kind, false)
    {
      var first := if kind < |standard| then standard[kind] else None;
      StandardHolds(standard, kind, table[kind]);
    }
  }

  lemma StandardHolds(standard: seq<Option<Spec>>, kind: Kind, slots: Slots)
    requires IsStandard(standard) && slots == EMPTY[0 := if kind < |standard| then standard[kind] else None]
    ensures Holds(slots, StandardItems(SpecsOf(standard)), kind)
  {
    forall spec
      ensures HasSpec(slots, spec) <==> Item(kind, spec) in StandardItems(SpecsOf(standard))
    {
      if Item(kind, spec) in StandardItems(SpecsOf(standard)) {
        assert slots[0] == Some(spec);
      }
    }
  }

  /**
   The mapping fails exactly when some type is crowded by what has to be mapped.
   Otherwise every type holds all of that, sorted and without gaps, and beside
   it only what yields, as long as there is a slot left for it; standard
   specifications stay the unsigned candidates.
   */
  method Map(table: array<Slots>, standard: seq<Option<Spec>>, modules: seq<Module>,
             included: Spec -> bool) returns (ok: bool)
    requires table.Length == TYPES && IsStandard(standard)
    modifies table
    ensures ok <==> !IsInConflict(Firm(SpecsOf(standard), modules, included))
    ensures ok ==> forall kind: Kind :: IsSorted(table[kind])
    ensures ok ==> forall item | item in Firm(SpecsOf(standard), modules, included) ::
      HasSpec(table[item.kind], item.spec)
    ensures ok ==> forall kind: Kind, spec | HasSpec(table[kind], spec) ::
      Item(kind, spec) in Firm(SpecsOf(standard), modules, included) + Items(modules, |modules|, true, included)
    ensures ok ==> forall item | item in Items(modules, |modules|, true, included) ::
      HasSpec(table[item.kind], item.spec) || IsFull(table[item.kind], item.spec)
    ensures ok ==> forall spec | spec in SpecsOf(standard) :: table[spec.kind][0] == Some(spec)
  {
    MapStandard(table, standard);
    ghost var empty, first := seq(TYPES, _ => EMPTY), table[..];
    ghost var items := StandardItems(SpecsOf(standard));
    ghost var firm := Firm(SpecsOf(standard), modules, included);
    MappedAgain(empty, first, items, false);
    ok := MapPass(table, modules, false, included, first, items);
    if !ok {
      return;
    }
    MappedIsFree(first, table[..], firm);
    ghost var mapped := table[..];
    assert AreMapped(first, mapped, firm, false);
    MappedAgain(first, mapped, firm, true);
    ok := MapPass(table, modules, true, included, mapped, firm);
    MappedIsAll(first, mapped, table[..], firm, firm + Items(modules, |modules|, true, included));
    forall spec | spec in SpecsOf(standard)
      ensures table[spec.kind][0] == Some(spec)
    {
      assert IsMapped(first[spec.kind], mapped[spec.kind], firm, spec.kind, false);
      assert Extends(mapped[spec.kind], table[..][spec.kind]);
    }
  }

  /** A pass starts from what the one before has left. */
  lemma MappedAgain(before: seq<Slots>, table: seq<Slots>, items: set<Item>, yielding: bool)
    requires |before| == |table| == TYPES && AreMapped(before, table, items, false)
    ensures AreMapped(table, table, items, yielding)
  {
    forall kind: Kind
      ensures IsMapped(table[kind], table[kind], items, kind, yielding)
    {
      assert IsMapped(before[kind], table[kind], items, kind, false);
    }
  }

  lemma MappedIsFree(before: seq<Slots>, table: seq<Slots>, items: set<Item>)
    requires |before| == |table| == TYPES && AreMapped(before, table, items, false)
    ensures !IsInConflict(items)
  {
    hide IsCrowded, IsSorted, HasSpec;
    forall kind: Kind
      ensures !IsCrowded(items, kind)
    {
      assert IsMapped(before[kind], table[kind], items, kind, false);
      HeldIsNotCrowded(table[kind], items, kind);
    }
  }

  lemma MappedIsAll(first: seq<Slots>, mapped: seq<Slots>, table: seq<Slots>, firm: set<Item>, all: set<Item>)
    requires |first| == |mapped| == |table| == TYPES
    requires AreMapped(first, mapped, firm, false) && AreMapped(mapped, table, all, true)
    ensures forall kind: Kind :: IsSorted(table[kind]) && Extends(mapped[kind], table[kind])
    ensures forall item | item in firm :: HasSpec(table[item.kind], item.spec)
    ensures forall kind: Kind, spec | HasSpec(table[kind], spec) :: Item(kind, spec) in all
    ensures forall item | item in all :: HasSpec(table[item.kind], item.spec) || IsFull(table[item.kind], item.spec)
  {
    hide IsFull;
    forall item | item in all
      ensures HasSpec(table[item.kind], item.spec) || IsFull(table[item.kind], item.spec)
    {
      assert IsMapped(mapped[item.kind], table[item.kind], all, item.kind, true);
      assert Item(item.kind, item.spec) == item;
    }
    forall kind: Kind
      ensures IsSorted(table[kind]) && Extends(mapped[kind], table[kind])
    {
      assert IsMapped(mapped[kind], table[kind], all, kind, true);
    }
    forall item | item in firm
      ensures HasSpec(table[item.kind], item.spec)
    {
      assert IsMapped(first[item.kind], mapped[item.kind], firm, item.kind, false);
      assert Item(item.kind, item.spec) == item && HasSpec(mapped[item.kind], item.spec);
      var i :| 0 <= i < CANDIDATES && mapped[item.kind][i] == Some(item.spec);
      assert table[item.kind][i] == Some(item.spec);
    }
    forall kind: Kind, spec | HasSpec(table[kind], spec)
      ensures Item(kind, spec) in all
    {
      assert IsMapped(mapped[kind], table[kind], all, kind, true);
    }
  }

  class Context {
    var table: array<Slots>

    /** The mapping of a context changes all at once, or not at all. */
    method Rebuild(standard: seq<Option<Spec>>, modules: seq<Module>, included: Spec -> bool) returns (ok: bool)
      requires table.Length == TYPES && IsStandard(standard)
      modifies table
      ensures ok <==> !IsInConflict(Firm(SpecsOf(standard), modules, included))
      ensures !ok ==> table[..] == old(table[..])
      ensures ok ==> forall kind: Kind :: IsSorted(table[kind])
      ensures ok ==> forall item | item in Firm(SpecsOf(standard), modules, included) ::
        HasSpec(table[item.kind], item.spec)
      ensures ok ==> forall kind: Kind, spec | HasSpec(table[kind], spec) ::
        Item(kind, spec) in Firm(SpecsOf(standard), modules, included) + Items(modules, |modules|, true, included)
      ensures ok ==> forall item | item in Items(modules, |modules|, true, included) ::
        HasSpec(table[item.kind], item.spec) || IsFull(table[item.kind], item.spec)
    {
      var built := new Slots[TYPES](_ => EMPTY);
      ok := Map(built, standard, modules, included);
      if ok {
        forall kind | 0 <= kind < TYPES {
          table[kind] := built[kind];
        }
        assert forall kind: Kind :: table[kind] == built[kind];
      }
    }
  }

  // Order

  lemma {:induction false} RelocationIsThere(relocations: seq<Relocation>, spec: Spec, kind: Option<Kind>)
    ensures kind in RelocationsOf(relocations, spec) <==> Relocation(spec, kind) in relocations
  {
    if relocations != [] {
      var n := |relocations| - 1;
      RelocationIsThere(relocations[..n], spec, kind);
      assert relocations == relocations[..n] + [relocations[n]];
      assert relocations[n].spec == spec ==> relocations[n] == Relocation(spec, relocations[n].kind);
    }
  }

  predicate Relocates(m: Module, spec: Spec, kind: Option<Kind>) {
    m.relocations.Some? && Relocation(spec, kind) in m.relocations.value
  }

  lemma {:induction false} RelocatedIsThere(modules: seq<Module>, spec: Spec, kind: Option<Kind>)
    ensures kind in Relocated(modules, spec) <==> exists m :: m in modules && Relocates(m, spec, kind)
  {
    if modules != [] {
      var n := |modules| - 1;
      RelocatedIsThere(modules[..n], spec, kind);
      if modules[n].relocations.Some? {
        RelocationIsThere(modules[n].relocations.value, spec, kind);
      }
      assert kind in Relocated(modules, spec)
        <==> kind in Relocated(modules[..n], spec) || Relocates(modules[n], spec, kind);
      forall m | m in modules && Relocates(m, spec, kind)
        ensures kind in Relocated(modules, spec)
      {
        assert m in modules[..n] || m == modules[n];
      }
      assert modules[n] in modules;
    }
  }

  lemma {:induction false} KindIsThere(kinds: seq<Option<Kind>>, kind: Kind)
    ensures kind in Kinds(kinds) <==> Some(kind) in kinds
  {
    if kinds != [] {
      var n := |kinds| - 1;
      KindIsThere(kinds[..n], kind);
      assert kinds == kinds[..n] + [kinds[n]];
    }
  }

  /** Modules are the same, whatever order they come in. */
  predicate AreSame(a: seq<Module>, b: seq<Module>) {
    (forall m | m in a :: m in b) && (forall m | m in b :: m in a)
  }

  lemma TargetsAreSame(a: seq<Module>, b: seq<Module>, spec: Spec)
    requires AreSame(a, b)
    ensures SpecItems(a, spec) == SpecItems(b, spec)
  {
    var ra, rb := Relocated(a, spec), Relocated(b, spec);
    forall kind
      ensures kind in ra <==> kind in rb
    {
      RelocatedIsThere(a, spec, kind);
      RelocatedIsThere(b, spec, kind);
    }
    assert ra == [] <==> rb == [] by {
      if ra != [] {
        assert ra[0] in rb;
      }
      if rb != [] {
        assert rb[0] in ra;
      }
    }
    forall kind: Kind
      ensures kind in Targets(a, spec) <==> kind in Targets(b, spec)
    {
      KindIsThere(ra, kind);
      KindIsThere(rb, kind);
    }
  }

  lemma {:induction false} EntitiesAreSame(a: seq<Module>, b: seq<Module>, entities: seq<Spec>, included: Spec -> bool)
    requires AreSame(a, b)
    ensures EntityItems(a, entities, included) == EntityItems(b, entities, included)
  {
    if entities != [] {
      var n := |entities| - 1;
      EntitiesAreSame(a, b, entities[..n], included);
      TargetsAreSame(a, b, entities[n]);
    }
  }

  lemma {:induction false} ItemIsThere(modules: seq<Module>, n: nat, yielding: bool, included: Spec -> bool, item: Item)
    requires n <= |modules|
    ensures item in Items(modules, n, yielding, included)
       <==> exists k :: 0 <= k < n && item in ModuleItems(modules, modules[k], yielding, included)
  {
    if n > 0 {
      ItemIsThere(modules, n - 1, yielding, included, item);
    }
  }

  lemma ItemsAreWithin(a: seq<Module>, b: seq<Module>, yielding: bool, included: Spec -> bool, item: Item)
    requires AreSame(a, b) && item in Items(a, |a|, yielding, included)
    ensures item in Items(b, |b|, yielding, included)
  {
    ItemIsThere(a, |a|, yielding, included, item);
    var k :| 0 <= k < |a| && item in ModuleItems(a, a[k], yielding, included);
    assert a[k] in b;
    var l :| 0 <= l < |b| && b[l] == a[k];
    EntitiesAreSame(a, b, a[k].entities.value, included);
    ItemIsThere(b, |b|, yielding, included, item);
  }

  /** Whether a mapping fails does not depend on the order of the modules. */
  lemma OrderDoesNotMatter(standard: set<Spec>, a: seq<Module>, b: seq<Module>, included: Spec -> bool)
    requires AreSame(a, b)
    ensures IsInConflict(Firm(standard, a, included)) <==> IsInConflict(Firm(standard, b, included))
  {
    forall item
      ensures item in Items(a, |a|, false, included) <==> item in Items(b, |b|, false, included)
    {
      if item in Items(a, |a|, false, included) {
        ItemsAreWithin(a, b, false, included, item);
      }
      if item in Items(b, |b|, false, included) {
        ItemsAreWithin(b, a, false, included, item);
      }
    }
    assert Items(a, |a|, false, included) == Items(b, |b|, false, included);
  }

  // Selection

  /** Stops at the first free slot, and misses no candidate: behind a free slot there is none. */
  method Select(slots: Slots, matches: Spec -> bool) returns (r: Option<Spec>)
    requires IsSorted(slots)
    ensures (exists i :: 1 <= i < CANDIDATES && slots[i].Some? && matches(slots[i].value)) ==>
      exists i :: 1 <= i < CANDIDATES && slots[i].Some? && r == slots[i] && matches(slots[i].value)
               && forall j | 1 <= j < i :: slots[j].Some? && !matches(slots[j].value)
    ensures (forall i | 1 <= i < CANDIDATES && slots[i].Some? :: !matches(slots[i].value)) ==> r == slots[0]
  {
    for i := 1 to CANDIDATES
      invariant forall j | 1 <= j < i :: slots[j].Some? && !matches(slots[j].value)
    {
      if slots[i].None? {
        break;
      }
      if matches(slots[i].value) {
        return slots[i];
      }
    }
    return slots[0];
  }
}

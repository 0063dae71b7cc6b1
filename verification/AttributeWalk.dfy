/**
 The walk over the attributes of a decoded structure, which calls a visitor on
 the way in and on the way out (libopendmi/src/attribute-walk.c).
 */
module AttributeWalk {
  import opened Wrappers
  import opened Schema

  // Attributes

  /** An attribute is an array if it has a counter, and a vector if it has a count. */
  datatype Attribute = Attribute(value: Member, count: nat, counter: Option<Member>, kind: Kind)

  datatype Kind = Plain | Nested(attrs: seq<Attribute>) | Variant(variants: seq<Choice>)

  datatype Choice = Choice(isDefault: bool, selector: nat, attribute: Attribute)

  predicate IsArray(a: Attribute) {
    a.counter.Some? || a.count != 0
  }

  /** An array which has not been allocated has no elements. */
  function CountOf(a: Attribute, info: Info): nat {
    if a.count != 0 then a.count
    else if RecordsAt(info, a.value.id) == [] || a.counter.None? then 0
    else Load(info, a.counter.value)
  }

  /** The variant of the selector, or the last of the default ones. */
  function Chosen(variants: seq<Choice>, selector: nat, fallback: Option<Attribute>): (r: Option<Attribute>)
    ensures r == fallback || exists i :: 0 <= i < |variants| && r == Some(variants[i].attribute)
  {
    if variants == [] then fallback
    else
      var first := variants[0];
      assert forall i | 0 <= i < |variants[1..]| :: variants[1..][i] == variants[i + 1];
      if first.isDefault then Chosen(variants[1..], selector, Some(first.attribute))
      else if first.selector == selector then Some(first.attribute)
      else Chosen(variants[1..], selector, fallback)
  }

  /** There is nothing to walk where no variant matches. */
  function Resolved(a: Attribute, info: Info): Option<Attribute> {
    if a.kind.Variant? then Chosen(a.kind.variants, Load(info, a.value), None) else Some(a)
  }

  /** A variant which is not a default one comes first, whatever is before it. */
  lemma {:induction false} ChosenIsFirst(variants: seq<Choice>, selector: nat, fallback: Option<Attribute>, i: nat)
    requires i < |variants| && !variants[i].isDefault && variants[i].selector == selector
    requires forall j | 0 <= j < i :: variants[j].isDefault || variants[j].selector != selector
    ensures Chosen(variants, selector, fallback) == Some(variants[i].attribute)
  {
    if i > 0 {
      var next := if variants[0].isDefault then Some(variants[0].attribute) else fallback;
      ChosenIsFirst(variants[1..], selector, next, i - 1);
    }
  }

  lemma {:induction false} ChosenIsDefault(variants: seq<Choice>, selector: nat, fallback: Option<Attribute>)
    requires forall j | 0 <= j < |variants| :: variants[j].isDefault || variants[j].selector != selector
    ensures var r := Chosen(variants, selector, fallback);
      if exists i :: 0 <= i < |variants| && variants[i].isDefault then
        exists i :: 0 <= i < |variants| && variants[i].isDefault && r == Some(variants[i].attribute)
          && forall j | i < j < |variants| :: !variants[j].isDefault
      else r == fallback
  {
    if variants != [] {
      var first, rest := variants[0], variants[1..];
      var next := if first.isDefault then Some(first.attribute) else fallback;
      assert forall j | 0 <= j < |rest| :: rest[j] == variants[j + 1];
      ChosenIsDefault(rest, selector, next);
      if exists i :: 0 <= i < |rest| && rest[i].isDefault {
        var i :| 0 <= i < |rest| && rest[i].isDefault && Chosen(rest, selector, next) == Some(rest[i].attribute)
          && forall j | i < j < |rest| :: !rest[j].isDefault;
        assert variants[i + 1].isDefault;
        assert forall j | i + 1 < j < |variants| :: variants[j] == rest[j - 1];
      } else {
        assert forall j | 1 <= j < |variants| :: variants[j] == rest[j - 1];
      }
    }
  }

  // Traces

  datatype Place = InMember | InArray | InItem | InStruct

  /**
   What a callback is told: the member, the attribute it is resolved to, the
   structure holding it, the structure its value is, and where it is among the
   elements of an array.
   */
  datatype Node = Node(member: Attribute, attr: Attribute, info: Info, value: Info, index: Option<nat>, count: nat)

  datatype Decision = Continue | Skip | Stop

  datatype Event =
    | Entered(place: Place, node: Node, decision: Decision)
    | Left(place: Place, node: Node, ok: bool)
    | Seen(node: Node, ok: bool)

  predicate IsStop(e: Event) {
    match e
    case Entered(_, _, decision) => decision.Stop?
    case Left(_, _, ok) => !ok
    case Seen(_, ok) => !ok
  }

  predicate NoneStops(events: seq<Event>) {
    forall i | 0 <= i < |events| :: !IsStop(events[i])
  }

  /** A list of attributes, or something which has been entered, and how much of it has been gone through. */
  datatype Frame = List(attrs: seq<Attribute>, info: Info, next: nat) | Open(place: Place, node: Node, next: nat)

  /** The first attribute which there is a value of, from one of a list on. */
  function Following(attrs: seq<Attribute>, info: Info, from: nat): (i: nat)
    requires from <= |attrs|
    ensures from <= i <= |attrs| && (i < |attrs| ==> Resolved(attrs[i], info).Some?)
    decreases |attrs| - from
  {
    if from == |attrs| || Resolved(attrs[from], info).Some? then from else Following(attrs, info, from + 1)
  }

  function MemberNode(a: Attribute, info: Info): Node
    requires Resolved(a, info).Some?
  {
    var attr := Resolved(a, info).value;
    Node(a, attr, info, RecordAt(info, attr.value.id), None, 0)
  }

  function ArrayNode(n: Node): Node {
    n.(count := CountOf(n.attr, n.info))
  }

  function ItemNode(n: Node, i: nat): Node {
    n.(index := Some(i), value := ElementAt(RecordsAt(n.info, n.attr.value.id), i))
  }

  /** What may be entered next, if anything may. */
  function Expected(top: Frame): Option<(Place, Node)> {
    match top
    case List(attrs, info, next) =>
      if next <= |attrs| && Following(attrs, info, next) < |attrs| then
        Some((InMember, MemberNode(attrs[Following(attrs, info, next)], info)))
      else None
    case Open(InMember, node, next) =>
      if next != 0 then None
      else if IsArray(node.attr) then Some((InArray, ArrayNode(node)))
      else if node.attr.kind.Nested? then Some((InStruct, node)) else None
    case Open(InArray, node, next) => if next < node.count then Some((InItem, ItemNode(node, next))) else None
    case Open(InItem, node, next) => if next == 0 && node.attr.kind.Nested? then Some((InStruct, node)) else None
    case Open(InStruct, _, _) => None
  }

  function Passed(top: Frame): Frame {
    match top
    case List(attrs, info, next) =>
      var following := if next <= |attrs| then Following(attrs, info, next) else next;
      List(attrs, info, if following < |attrs| then following + 1 else next)
    case Open(place, node, next) => Open(place, node, next + 1)
  }

  /** Frames something which has been entered opens; the members of a structure make a list of its own. */
  function Opened(place: Place, node: Node): seq<Frame> {
    if place.InStruct? && node.attr.kind.Nested? then [Open(place, node, 0), List(node.attr.kind.attrs, node.value, 0)]
    else [Open(place, node, 0)]
  }

  /** All there is has been gone through. */
  predicate IsThrough(top: Frame) {
    Expected(top).None? && (top.Open? && (top.place.InMember? || top.place.InItem?) ==> top.next == 1)
  }

  /** A plain value is what a member or an item has, once. */
  predicate IsPlainNext(top: Frame, node: Node) {
    && top.Open? && (top.place.InItem? || (top.place.InMember? && !IsArray(node.attr)))
    && top.node == node && !node.attr.kind.Nested? && top.next == 0
  }

  /** A list which has been gone through is closed along with the structure it belongs to. */
  function Closed(stack: seq<Frame>): (r: seq<Frame>)
    ensures stack != [] ==> r != []
  {
    if |stack| > 1 && stack[|stack| - 1].List? && IsThrough(stack[|stack| - 1]) then stack[..|stack| - 1] else stack
  }

  /** What a stack becomes by an event, if the event is in its place. */
  function Take(stack: seq<Frame>, e: Event): Option<seq<Frame>> {
    if stack == [] then None
    else
      var n := |stack| - 1;
      var top := stack[n];
      match e
      case Entered(place, node, decision) =>
        if Expected(top) != Some((place, node)) then None
        else Some(stack[..n] + [Passed(top)] + if decision.Continue? then Opened(place, node) else [])
      case Left(place, node, _) =>
        var closed := Closed(stack);
        var last := closed[|closed| - 1];
        if last.Open? && last.place == place && last.node == node && IsThrough(last) then Some(closed[..|closed| - 1])
        else None
      case Seen(node, _) =>
        if IsPlainNext(top, node) then Some(stack[..n] + [Passed(top)]) else None
  }

  /** A trace whose events are all in their places. */
  function Run(stack: seq<Frame>, events: seq<Event>): Option<seq<Frame>>
    decreases |events|
  {
    if events == [] then Some(stack)
    else
      var next := Take(stack, events[0]);
      if next.None? then None else Run(next.value, events[1..])
  }

  // Walks

  /**
   What a walk adds to a trace: events which are all in their places. The last
   one of a walk which has been stopped stops it, and nothing else does.
   */
  predicate Follows(before: seq<Event>, after: seq<Event>, ok: bool, stack: seq<Frame>, through: seq<Frame>) {
    && before <= after
    && var events := after[|before|..];
       var r := Run(stack, events);
       && r.Some?
       && if ok then NoneStops(events) && r == Some(through)
          else events != [] && IsStop(events[|events| - 1]) && NoneStops(events[..|events| - 1])
  }

  lemma {:induction false} RunOn(stack: seq<Frame>, a: seq<Event>, b: seq<Event>)
    requires Run(stack, a).Some?
    ensures Run(stack, a + b) == Run(Run(stack, a).value, b)
    decreases |a|
  {
    if a == [] {
      assert a + b == b;
    } else {
      assert (a + b)[1..] == a[1..] + b;
      RunOn(Take(stack, a[0]).value, a[1..], b);
    }
  }

  /** A walk goes on from where another one has got. */
  lemma FollowsOn(a: seq<Event>, b: seq<Event>, c: seq<Event>, ok: bool, s: seq<Frame>, t: seq<Frame>, u: seq<Frame>)
    requires Follows(a, b, true, s, t) && Follows(b, c, ok, t, u)
    ensures Follows(a, c, ok, s, u)
  {
    hide Run, IsStop;
    var first, rest := b[|a|..], c[|b|..];
    RunOn(s, first, rest);
    assert c[|a|..] == first + rest;
    if !ok {
      assert (first + rest)[..|first + rest| - 1] == first + rest[..|rest| - 1];
    }
  }

  lemma NothingFollows(a: seq<Event>, s: seq<Frame>)
    ensures Follows(a, a, true, s, s)
  {
  }

  lemma OneFollows(a: seq<Event>, e: Event, s: seq<Frame>)
    requires Take(s, e).Some?
    ensures Follows(a, a + [e], !IsStop(e), s, Take(s, e).value)
  {
    var t := Take(s, e).value;
    assert (a + [e])[|a|..] == [e] && [e][1..] == [];
    assert Run(s, [e]) == Run(t, []) == Some(t);
    assert [e][..0] == [];
  }

  /** How far a walk would have got makes no difference once it has been stopped. */
  lemma StoppedFollows(a: seq<Event>, b: seq<Event>, s: seq<Frame>, t: seq<Frame>, u: seq<Frame>)
    requires Follows(a, b, false, s, t)
    ensures Follows(a, b, false, s, u)
  {
  }

  function Top(stack: seq<Frame>): Frame
    requires stack != []
  {
    stack[|stack| - 1]
  }

  /** The stack as what is on its top has been gone one step further. */
  function Onward(stack: seq<Frame>): (r: seq<Frame>)
    requires stack != []
    ensures |r| == |stack| && r[..|r| - 1] == stack[..|stack| - 1] && Top(r) == Passed(Top(stack))
  {
    stack[..|stack| - 1] + [Passed(Top(stack))]
  }

  class Walker {
    const entering: Place -> Option<(seq<Event>, Node) -> Decision>
    const leaving: Place -> Option<(seq<Event>, Node) -> bool>
    const seeing: Option<(seq<Event>, Node) -> bool>
    var trace: seq<Event>

    /** A place of no callback is gone into. */
    method Enter(place: Place, node: Node, ghost stack: seq<Frame>) returns (decision: Decision)
      requires stack != [] && Expected(Top(stack)) == Some((place, node))
      modifies this
      ensures entering(place).None? ==> decision.Continue?
      ensures Follows(old(trace), trace, !decision.Stop?, stack,
                      Onward(stack) + if decision.Continue? then Opened(place, node) else [])
    {
      decision := Continue;
      var callback := entering(place);
      if callback.Some? {
        decision := callback.value(trace, node);
      }
      OneFollows(trace, Entered(place, node, decision), stack);
      trace := trace + [Entered(place, node, decision)];
    }

    method Leave(place: Place, node: Node, ghost stack: seq<Frame>, ghost through: seq<Frame>) returns (ok: bool)
      requires stack != [] && Take(stack, Left(place, node, true)) == Some(through)
      modifies this
      ensures leaving(place).None? ==> ok
      ensures Follows(old(trace), trace, ok, stack, through)
    {
      ok := true;
      var callback := leaving(place);
      if callback.Some? {
        ok := callback.value(trace, node);
      }
      OneFollows(trace, Left(place, node, ok), stack);
      trace := trace + [Left(place, node, ok)];
    }

    method See(node: Node, ghost stack: seq<Frame>) returns (ok: bool)
      requires stack != [] && IsPlainNext(Top(stack), node)
      modifies this
      ensures seeing.None? ==> ok
      ensures Follows(old(trace), trace, ok, stack, Onward(stack))
    {
      ok := true;
      if seeing.Some? {
        ok := seeing.value(trace, node);
      }
      OneFollows(trace, Seen(node, ok), stack);
      trace := trace + [Seen(node, ok)];
    }

    /** All the attributes of a list are walked, in its order. */
    method WalkList(attrs: seq<Attribute>, info: Info, ghost stack: seq<Frame>) returns (ok: bool, ghost last: nat)
      requires stack != [] && Top(stack) == List(attrs, info, 0)
      modifies this
      ensures ok ==> IsThrough(List(attrs, info, last))
      ensures Follows(old(trace), trace, ok, stack, stack[..|stack| - 1] + [List(attrs, info, last)])
      decreases attrs, 5
    {
      hide Follows, Take;
      ghost var before, now := trace, stack;
      NothingFollows(trace, stack);
      last := 0;
      assert stack == stack[..|stack| - 1] + [List(attrs, info, 0)];
      for i := 0 to |attrs|
        invariant last <= i && Following(attrs, info, last) == Following(attrs, info, i)
        invariant Follows(before, trace, true, stack, stack[..|stack| - 1] + [List(attrs, info, last)])
      {
        now := stack[..|stack| - 1] + [List(attrs, info, last)];
        ghost var until := trace;
        var one := WalkAttribute(attrs[i], info, now);
        if Resolved(attrs[i], info).Some? {
          last := i + 1;
          assert Onward(now) == stack[..|stack| - 1] + [List(attrs, info, last)];
        }
        FollowsOn(before, until, trace, one, stack, now, stack[..|stack| - 1] + [List(attrs, info, last)]);
        if !one {
          return false, last;
        }
      }
      ok := true;
    }

    /** The variant is looked for in order; a default one is kept until one matches. */
    method Resolve(a: Attribute, info: Info) returns (r: Option<Attribute>)
      ensures r == Resolved(a, info)
    {
      if !a.kind.Variant? {
        return Some(a);
      }
      var variants, selector := a.kind.variants, Load(info, a.value);
      var fallback := None;
      for i := 0 to |variants|
        invariant Chosen(variants, selector, None) == Chosen(variants[i..], selector, fallback)
      {
        assert variants[i..][1..] == variants[i + 1..];
        if variants[i].isDefault {
          fallback := Some(variants[i].attribute);
        } else if variants[i].selector == selector {
          return Some(variants[i].attribute);
        }
      }
      return fallback;
    }

    method WalkAttribute(a: Attribute, info: Info, ghost stack: seq<Frame>) returns (ok: bool)
      requires stack != []
      requires Resolved(a, info).Some? ==> Expected(Top(stack)) == Some((InMember, MemberNode(a, info)))
      modifies this
      ensures Follows(old(trace), trace, ok, stack, if Resolved(a, info).Some? then Onward(stack) else stack)
      decreases a, 4
    {
      hide Follows;
      var resolved := Resolve(a, info);
      if resolved.None? {
        NothingFollows(trace, stack);
        return true;
      }
      var node := Node(a, resolved.value, info, RecordAt(info, resolved.value.value.id), None, 0);
      var decision := Enter(InMember, node, stack);
      assert Onward(stack) + [] == Onward(stack);
      if !decision.Continue? {
        return decision.Skip?;
      }
      ghost var until, inner := trace, Onward(stack) + Opened(InMember, node);
      if IsArray(resolved.value) {
        ok := WalkArray(node, inner);
      } else {
        ok := WalkValue(node, inner);
      }
      ok := Finish(InMember, node, ok, old(trace), until, stack, inner);
    }

    /** What has been entered is left, unless the walk has been stopped in it. */
    method Finish(place: Place, node: Node, inside: bool, ghost before: seq<Event>, ghost until: seq<Event>,
                  ghost stack: seq<Frame>, ghost inner: seq<Frame>)
      returns (ok: bool)
      requires stack != [] && (place.InMember? || place.InItem?) && inner == Onward(stack) + Opened(place, node)
      requires Follows(before, until, true, stack, inner) && Follows(until, trace, inside, inner, Onward(inner))
      modifies this
      ensures Follows(before, trace, ok, stack, Onward(stack))
    {
      hide Follows;
      FollowsOn(before, until, trace, inside, stack, inner, Onward(inner));
      if !inside {
        StoppedFollows(before, trace, stack, Onward(inner), Onward(stack));
        return false;
      }
      ghost var now := trace;
      assert Onward(inner)[..|inner| - 1] == Onward(stack);
      ok := Leave(place, node, Onward(inner), Onward(stack));
      FollowsOn(before, now, trace, ok, stack, Onward(inner), Onward(stack));
    }

    method WalkArray(node: Node, ghost stack: seq<Frame>) returns (ok: bool)
      requires stack != [] && Top(stack) == Open(InMember, node, 0) && IsArray(node.attr)
      modifies this
      ensures Follows(old(trace), trace, ok, stack, Onward(stack))
      decreases node.attr, 3
    {
      hide Follows;
      var elements := RecordsAt(node.info, node.attr.value.id);
      var whole := node.(count := CountOf(node.attr, node.info));
      var decision := Enter(InArray, whole, stack);
      assert Onward(stack) + [] == Onward(stack);
      if !decision.Continue? {
        return decision.Skip?;
      }
      for i := 0 to whole.count
        invariant Follows(old(trace), trace, true, stack, Onward(stack) + [Open(InArray, whole, i)])
      {
        ghost var until, now, next :=
          trace, Onward(stack) + [Open(InArray, whole, i)], Onward(stack) + [Open(InArray, whole, i + 1)];
        assert Onward(now) == next;
        var item := whole.(index := Some(i), value := ElementAt(elements, i));
        ok := WalkItem(item, now);
        FollowsOn(old(trace), until, trace, ok, stack, now, next);
        if !ok {
          StoppedFollows(old(trace), trace, stack, next, Onward(stack));
          return false;
        }
      }
      ghost var until, now := trace, Onward(stack) + [Open(InArray, whole, whole.count)];
      assert now[..|now| - 1] == Onward(stack);
      ok := Leave(InArray, whole, now, Onward(stack));
      FollowsOn(old(trace), until, trace, ok, stack, now, Onward(stack));
    }

    method WalkItem(item: Node, ghost stack: seq<Frame>) returns (ok: bool)
      requires stack != [] && Expected(Top(stack)) == Some((InItem, item))
      modifies this
      ensures Follows(old(trace), trace, ok, stack, Onward(stack))
      decreases item.attr, 2
    {
      hide Follows;
      var decision := Enter(InItem, item, stack);
      assert Onward(stack) + [] == Onward(stack);
      if !decision.Continue? {
        return decision.Skip?;
      }
      ghost var until, inner := trace, Onward(stack) + Opened(InItem, item);
      ok := WalkValue(item, inner);
      ok := Finish(InItem, item, ok, old(trace), until, stack, inner);
    }

    method WalkValue(node: Node, ghost stack: seq<Frame>) returns (ok: bool)
      requires stack != [] && Top(stack).Open? && Top(stack).node == node && Top(stack).next == 0
      requires Top(stack).place.InItem? || (Top(stack).place.InMember? && !IsArray(node.attr))
      modifies this
      ensures Follows(old(trace), trace, ok, stack, Onward(stack))
      decreases node.attr, 1
    {
      hide Follows;
      if node.attr.kind.Nested? {
        ok := WalkStruct(node, stack);
      } else {
        ok := See(node, stack);
      }
    }

    method WalkStruct(node: Node, ghost stack: seq<Frame>) returns (ok: bool)
      requires stack != [] && node.attr.kind.Nested? && Expected(Top(stack)) == Some((InStruct, node))
      modifies this
      ensures Follows(old(trace), trace, ok, stack, Onward(stack))
      decreases node.attr, 0
    {
      hide Follows;
      var decision := Enter(InStruct, node, stack);
      assert Onward(stack) + [] == Onward(stack);
      if !decision.Continue? {
        return decision.Skip?;
      }
      ghost var until, inner := trace, Onward(stack) + Opened(InStruct, node);
      ghost var last;
      ok, last := WalkList(node.attr.kind.attrs, node.value, inner);
      ghost var now := inner[..|inner| - 1] + [List(node.attr.kind.attrs, node.value, last)];
      FollowsOn(old(trace), until, trace, ok, stack, inner, now);
      if !ok {
        StoppedFollows(old(trace), trace, stack, now, Onward(stack));
        return false;
      }
      until := trace;
      assert now == Onward(stack) + [Open(InStruct, node, 0), List(node.attr.kind.attrs, node.value, last)];
      assert now[..|now| - 1] == Onward(stack) + [Open(InStruct, node, 0)];
      assert now[..|now| - 1][..|now| - 2] == Onward(stack);
      ok := Leave(InStruct, node, now, Onward(stack));
      FollowsOn(old(trace), until, trace, ok, stack, now, Onward(stack));
    }

    /**
     A walk goes through all there is, in its order, and leaves everything it
     has gone into, unless a callback stops it: it fails exactly then, and
     calls nothing after that.
     */
    method Walk(attrs: seq<Attribute>, info: Info) returns (ok: bool)
      modifies this
      ensures old(trace) <= trace
      ensures var events := trace[|old(trace)|..];
        var r := Run([List(attrs, info, 0)], events);
        && r.Some?
        && (ok <==> NoneStops(events))
        && (ok ==> exists last :: IsThrough(List(attrs, info, last)) && r == Some([List(attrs, info, last)]))
        && (ok ==> GoneInto(events) == GoneOut(events))
        && (!ok ==> events != [] && IsStop(events[|events| - 1]) && NoneStops(events[..|events| - 1]))
    {
      hide Run, IsThrough, GoneInto, GoneOut;
      ghost var last;
      ok, last := WalkList(attrs, info, [List(attrs, info, 0)]);
      assert [List(attrs, info, 0)][..0] + [List(attrs, info, last)] == [List(attrs, info, last)];
      if ok {
        WalkIsBracketed(attrs, info, trace[|old(trace)|..], last);
      }
    }
  }

  // Brackets

  /** What an event goes into, and what it leaves. */
  function Into(e: Event): multiset<(Place, Node)> {
    if e.Entered? && e.decision.Continue? then multiset{(e.place, e.node)} else multiset{}
  }

  function Out(e: Event): multiset<(Place, Node)> {
    if e.Left? then multiset{(e.place, e.node)} else multiset{}
  }

  function GoneInto(events: seq<Event>): multiset<(Place, Node)> {
    if events == [] then multiset{} else Into(events[0]) + GoneInto(events[1..])
  }

  function GoneOut(events: seq<Event>): multiset<(Place, Node)> {
    if events == [] then multiset{} else Out(events[0]) + GoneOut(events[1..])
  }

  function OpenAs(f: Frame): multiset<(Place, Node)> {
    if f.Open? then multiset{(f.place, f.node)} else multiset{}
  }

  function OpenIn(stack: seq<Frame>): multiset<(Place, Node)> {
    if stack == [] then multiset{} else OpenIn(stack[..|stack| - 1]) + OpenAs(Top(stack))
  }

  lemma OpenInAppended(stack: seq<Frame>, f: Frame)
    ensures OpenIn(stack + [f]) == OpenIn(stack) + OpenAs(f)
  {
    assert (stack + [f])[..|stack|] == stack;
  }

  lemma OnwardIsOpen(stack: seq<Frame>)
    requires stack != []
    ensures OpenIn(Onward(stack)) == OpenIn(stack)
  {
    assert Onward(stack)[..|stack| - 1] == stack[..|stack| - 1];
  }

  lemma EnteredIsOpen(stack: seq<Frame>, place: Place, node: Node)
    ensures OpenIn(stack + Opened(place, node)) == OpenIn(stack) + multiset{(place, node)}
  {
    var open := stack + [Open(place, node, 0)];
    OpenInAppended(stack, Open(place, node, 0));
    if place.InStruct? && node.attr.kind.Nested? {
      var list := List(node.attr.kind.attrs, node.value, 0);
      OpenInAppended(open, list);
      assert stack + Opened(place, node) == open + [list];
    }
  }

  lemma ClosedIsOpen(stack: seq<Frame>)
    requires stack != []
    ensures OpenIn(Closed(stack)) == OpenIn(stack)
  {
    hide IsThrough;
  }

  lemma TakeKeeps(stack: seq<Frame>, e: Event)
    requires Take(stack, e).Some?
    ensures OpenIn(stack) + Into(e) == OpenIn(Take(stack, e).value) + Out(e)
  {
    hide OpenIn, Expected, Passed, IsThrough, Opened, Closed, IsPlainNext;
    OnwardIsOpen(stack);
    match e
    case Entered(place, node, decision) =>
      if decision.Continue? {
        EnteredIsOpen(Onward(stack), place, node);
      } else {
        assert Onward(stack) + [] == Onward(stack);
      }
    case Left(_, _, _) =>
      ClosedIsOpen(stack);
      var closed := Closed(stack);
      OpenInAppended(closed[..|closed| - 1], Top(closed));
      assert closed == closed[..|closed| - 1] + [Top(closed)];
    case Seen(_, _) =>
  }

  /** What has been gone into is either open still or has been left, and nothing else has been left. */
  lemma {:induction false} BracketsMatch(stack: seq<Frame>, events: seq<Event>)
    requires Run(stack, events).Some?
    ensures OpenIn(stack) + GoneInto(events) == OpenIn(Run(stack, events).value) + GoneOut(events)
    decreases |events|
  {
    hide Take, OpenIn, Into, Out;
    if events != [] {
      var next := Take(stack, events[0]).value;
      TakeKeeps(stack, events[0]);
      BracketsMatch(next, events[1..]);
      Balanced(OpenIn(stack), Into(events[0]), Out(events[0]), OpenIn(next), GoneInto(events[1..]),
               GoneOut(events[1..]), OpenIn(Run(stack, events).value));
    }
  }

  lemma Balanced<T>(open: multiset<T>, into: multiset<T>, out: multiset<T>, next: multiset<T>, more: multiset<T>,
                    less: multiset<T>, last: multiset<T>)
    requires open + into == next + out && next + more == last + less
    ensures open + (into + more) == last + (out + less)
  {
    assert open + (into + more) == (open + into) + more == (next + more) + out == last + (out + less);
  }

  /** Everything a walk has gone into to its end has been left as many times as it has been entered. */
  lemma WalkIsBracketed(attrs: seq<Attribute>, info: Info, events: seq<Event>, last: nat)
    requires Run([List(attrs, info, 0)], events) == Some([List(attrs, info, last)])
    ensures GoneInto(events) == GoneOut(events)
  {
    hide GoneInto, GoneOut, Run;
    BracketsMatch([List(attrs, info, 0)], events);
    NothingIsOpen(List(attrs, info, 0));
    NothingIsOpen(List(attrs, info, last));
    assert multiset{} + GoneInto(events) == GoneInto(events) && multiset{} + GoneOut(events) == GoneOut(events);
  }

  lemma NothingIsOpen(f: Frame)
    requires f.List?
    ensures OpenIn([f]) == multiset{}
  {
    assert [f][..0] == [];
  }
}
